/** The few operations of Python's `str` type the parser relies on:
    `sep in s`, `s.split(sep)`, `s.split(sep, 1)` and `s.strip()`, together with
    the leftmost-occurrence scan (`s.find(sep)`) that `in` and `split` perform
    underneath.
    A Python `str` is a sequence of code points; it is modelled as `string`
    (a sequence of Unicode scalar values). */
module PyText {
  import opened Wrappers

  /** The characters `str.isspace()` accepts and `str.strip()` removes. */
  predicate IsSpace(c: char)
  {
    || ('\t' <= c <= '\r')
    || ('\U{1C}' <= c <= ' ')
    || c == '\U{85}' || c == '\U{A0}' || c == '\U{1680}'
    || ('\U{2000}' <= c <= '\U{200A}')
    || c == '\U{2028}' || c == '\U{2029}' || c == '\U{202F}'
    || c == '\U{205F}' || c == '\U{3000}'
  }

  predicate AllSpace(s: string)
  {
    forall k :: 0 <= k < |s| ==> IsSpace(s[k])
  }

  // ---------------------------------------------------------------------------
  // str.strip()

  /** Number of whitespace characters at the start of `s`. */
  function LeadingSpaces(s: string): (n: nat)
    ensures n <= |s|
    ensures AllSpace(s[..n])
    ensures n < |s| ==> !IsSpace(s[n])
  {
    if |s| == 0 || !IsSpace(s[0]) then 0 else 1 + LeadingSpaces(s[1..])
  }

  /** Number of whitespace characters at the end of `s`. */
  function TrailingSpaces(s: string): (n: nat)
    ensures n <= |s|
    ensures AllSpace(s[|s| - n..])
    ensures n < |s| ==> !IsSpace(s[|s| - 1 - n])
  {
    if |s| == 0 || !IsSpace(s[|s| - 1]) then 0
    else
      var m := TrailingSpaces(s[..|s| - 1]);
      TrailingStep(s, m);
      1 + m
  }

  /** Whitespace at the end of `s` minus its last character, followed by a
      whitespace last character, is whitespace at the end of `s`. */
  lemma TrailingStep(s: string, m: nat)
    requires |s| > 0 && IsSpace(s[|s| - 1]) && m <= |s| - 1
    requires AllSpace(s[..|s| - 1][|s| - 1 - m..])
    ensures AllSpace(s[|s| - 1 - m..])
  {
    var t := s[|s| - 1 - m..];
    var front := s[..|s| - 1][|s| - 1 - m..];
    forall k | 0 <= k < |t|
      ensures IsSpace(t[k])
    {
      if k < m {
        assert t[k] == front[k];
      } else {
        assert t[k] == s[|s| - 1];
      }
    }
  }

  /** `s.strip()`: `s` without its leading and trailing whitespace. */
  function Strip(s: string): (r: string)
    ensures LeadingSpaces(s) + |r| <= |s|
    ensures r == s[LeadingSpaces(s)..LeadingSpaces(s) + |r|]
    ensures AllSpace(s[LeadingSpaces(s) + |r|..])
    ensures r == [] <==> AllSpace(s)
    ensures r != [] ==> !IsSpace(r[0]) && !IsSpace(r[|r| - 1])
  {
    var a := LeadingSpaces(s);
    var t := s[a..];
    t[..|t| - TrailingSpaces(t)]
  }

  /** Every character `s.strip()` keeps was in `s`. */
  lemma StripKeepsOnly(s: string, c: char)
    requires c in Strip(s)
    ensures c in s
  {
    var r := Strip(s);
    var k :| 0 <= k < |r| && r[k] == c;
    assert s[LeadingSpaces(s) + k] == c;
  }

  /** Stripping twice is stripping once. */
  lemma StripIdempotent(s: string)
    ensures Strip(Strip(s)) == Strip(s)
  {
    var r := Strip(s);
    if r != [] {
      NoSpaceAtEndsIsStripped(r);
    }
  }

  /** A string that neither starts nor ends with whitespace is its own strip. */
  lemma NoSpaceAtEndsIsStripped(s: string)
    requires s != [] && !IsSpace(s[0]) && !IsSpace(s[|s| - 1])
    ensures Strip(s) == s
  {
    assert LeadingSpaces(s) == 0;
    assert TrailingSpaces(s) == 0;
  }

  // ---------------------------------------------------------------------------
  // sep in s, and the scan underneath `in` and `split`

  /** `sep` occurs in `s` starting at index `i`. */
  predicate OccursAt(s: string, sep: string, i: int)
  {
    0 <= i && i + |sep| <= |s| && s[i..i + |sep|] == sep
  }

  /** Leftmost occurrence of `sep` in `s` at or after `from`. */
  function FindFrom(s: string, sep: string, from: nat): (r: Option<nat>)
    requires from <= |s|
    ensures r.Some? ==> from <= r.value && OccursAt(s, sep, r.value)
    ensures r.Some? ==> forall j :: from <= j < r.value ==> !OccursAt(s, sep, j)
    ensures r.None? ==> forall j :: from <= j ==> !OccursAt(s, sep, j)
    decreases |s| - from
  {
    if from + |sep| > |s| then None
    else if s[from..from + |sep|] == sep then Some(from)
    else FindFrom(s, sep, from + 1)
  }

  /** `s.find(sep)`, with `None` for Python's `-1`. */
  function Find(s: string, sep: string): (r: Option<nat>)
    ensures r.Some? ==> OccursAt(s, sep, r.value)
    ensures r.Some? ==> forall j :: 0 <= j < r.value ==> !OccursAt(s, sep, j)
    ensures r.None? ==> forall j :: !OccursAt(s, sep, j)
  {
    FindFrom(s, sep, 0)
  }

  /** Index of the first `c` in `s` (Python `s.index(c)`). */
  function IndexOf(s: string, c: char): (i: nat)
    requires c in s
    ensures i < |s| && s[i] == c && c !in s[..i]
  {
    if s[0] == c then 0 else 1 + IndexOf(s[1..], c)
  }

  /** A one-character separator occurs exactly where that character stands. */
  lemma CharOccurrences(s: string, c: char)
    ensures forall j :: 0 <= j < |s| ==> (OccursAt(s, [c], j) <==> s[j] == c)
  {
    forall j | 0 <= j < |s|
      ensures OccursAt(s, [c], j) <==> s[j] == c
    {
      assert s[j..j + 1][0] == s[j];
    }
  }

  /** For a one-character separator, `find` is `index` and `in` is membership. */
  lemma FindChar(s: string, c: char)
    ensures Find(s, [c]).Some? <==> c in s
    ensures c in s ==> Find(s, [c]) == Some(IndexOf(s, c))
  {
    CharOccurrences(s, c);
    if c in s {
      assert OccursAt(s, [c], IndexOf(s, c));
    }
  }

  // ---------------------------------------------------------------------------
  // s.split(sep), s.split(sep, 1) and their inverse "sep".join(parts)

  /** `s.split(sep)` for a non-empty separator: the pieces between the
      non-overlapping occurrences of `sep`, scanned left to right. */
  function Split(s: string, sep: string): (parts: seq<string>)
    requires |sep| > 0
    ensures |parts| >= 1
    decreases |s|
  {
    match Find(s, sep)
    case None => [s]
    case Some(i) => [s[..i]] + Split(s[i + |sep|..], sep)
  }

  /** Where `sep` first occurs, `split` cuts off the first piece and goes on
      with the rest. */
  lemma SplitCons(s: string, sep: string, i: nat)
    requires |sep| > 0 && Find(s, sep) == Some(i)
    ensures i + |sep| <= |s|
    ensures Split(s, sep) == [s[..i]] + Split(s[i + |sep|..], sep)
  {
  }

  /** `s.split(sep, 1)`: at most one cut, at the first occurrence. */
  function SplitOnce(s: string, sep: string): (parts: seq<string>)
    requires |sep| > 0
    ensures 1 <= |parts| <= 2
    ensures |parts| == 2 <==> Find(s, sep).Some?
    ensures |parts| == 2 ==> parts[0] + sep + parts[1] == s
    ensures |parts| == 2 ==> |parts[0]| == Find(s, sep).value
    ensures |parts| == 1 ==> parts[0] == s
  {
    match Find(s, sep)
    case None => [s]
    case Some(i) =>
      assert s == s[..i] + s[i..i + |sep|] + s[i + |sep|..];
      [s[..i], s[i + |sep|..]]
  }

  /** `sep.join(parts)`. */
  function Join(parts: seq<string>, sep: string): string
  {
    if |parts| == 0 then []
    else if |parts| == 1 then parts[0]
    else parts[0] + sep + Join(parts[1..], sep)
  }

  /** Joining the pieces back with the separator gives the original string. */
  lemma {:induction false} SplitJoin(s: string, sep: string)
    requires |sep| > 0
    ensures Join(Split(s, sep), sep) == s
    decreases |s|
  {
    match Find(s, sep)
    case None =>
    case Some(i) =>
      var rest := s[i + |sep|..];
      var tail := Split(rest, sep);
      SplitJoin(rest, sep);
      JoinCons(s[..i], tail, sep);
      CutAround(s, i, sep);
  }

  lemma JoinCons(head: string, tail: seq<string>, sep: string)
    requires |tail| >= 1
    ensures Join([head] + tail, sep) == head + sep + Join(tail, sep)
  {
    assert ([head] + tail)[1..] == tail;
  }

  lemma CutAround(s: string, i: nat, sep: string)
    requires OccursAt(s, sep, i)
    ensures s == s[..i] + sep + s[i + |sep|..]
  {
    assert s == s[..i] + s[i..i + |sep|] + s[i + |sep|..];
  }

  /** An occurrence in a prefix is an occurrence in the whole string. */
  lemma OccursInPrefix(s: string, sep: string, i: nat, j: int)
    requires |sep| > 0 && i <= |s|
    ensures OccursAt(s[..i], sep, j) ==> OccursAt(s, sep, j) && j < i
  {
    if OccursAt(s[..i], sep, j) {
      assert s[..i][j..j + |sep|] == s[j..j + |sep|];
    }
  }

  /** No piece of a split contains the separator. */
  lemma {:induction false} SplitPiecesAvoidSep(s: string, sep: string)
    requires |sep| > 0
    ensures forall k, j :: 0 <= k < |Split(s, sep)| ==> !OccursAt(Split(s, sep)[k], sep, j)
    decreases |s|
  {
    match Find(s, sep)
    case None =>
    case Some(i) =>
      var rest := s[i + |sep|..];
      SplitPiecesAvoidSep(rest, sep);
      var parts := Split(s, sep);
      assert parts == [s[..i]] + Split(rest, sep);
      forall k, j | 0 <= k < |parts|
        ensures !OccursAt(parts[k], sep, j)
      {
        if k == 0 {
          OccursInPrefix(s, sep, i, j);
        } else {
          assert parts[k] == Split(rest, sep)[k - 1];
        }
      }
  }

  /** For a one-character separator, no piece of the split holds that character. */
  lemma SplitCharPiecesAvoid(s: string, c: char)
    ensures forall k :: 0 <= k < |Split(s, [c])| ==> c !in Split(s, [c])[k]
  {
    SplitPiecesAvoidSep(s, [c]);
    forall k | 0 <= k < |Split(s, [c])|
      ensures c !in Split(s, [c])[k]
    {
      CharOccurrences(Split(s, [c])[k], c);
    }
  }

  /** The first `c` of `x + [c] + y` is the first `c` of `x`, or the added one. */
  lemma IndexOfAppend(x: string, c: char, y: string)
    ensures IndexOf(x + [c] + y, c) == if c in x then IndexOf(x, c) else |x|
    decreases |x|
  {
    if x != [] && x[0] != c {
      assert (x + [c] + y)[1..] == x[1..] + [c] + y;
      IndexOfAppend(x[1..], c, y);
    }
  }

  /** `s.split(c)` cuts off everything before the first `c`, if there is one. */
  lemma SplitCharFirst(s: string, c: char)
    ensures c in s ==>
      Split(s, [c]) == [s[..IndexOf(s, c)]] + Split(s[IndexOf(s, c) + 1..], [c])
    ensures c !in s ==> Split(s, [c]) == [s]
  {
    FindChar(s, c);
    if c in s {
      SplitCons(s, [c], IndexOf(s, c));
    }
  }

  /** Splitting at a one-character separator distributes over an occurrence
      of it: the pieces of `x + [c] + y` are the pieces of `x` followed by the
      pieces of `y`. */
  lemma {:induction false} SplitCharAppend(x: string, c: char, y: string)
    ensures Split(x + [c] + y, [c]) == Split(x, [c]) + Split(y, [c])
    decreases |x|, 1
  {
    if c in x {
      SplitCharAppendInside(x, c, y);
    } else {
      SplitCharAppendAfter(x, c, y);
    }
  }

  /** `SplitCharAppend` when `x` holds a `c`: both splits cut there first. */
  lemma {:induction false} SplitCharAppendInside(x: string, c: char, y: string)
    requires c in x
    ensures Split(x + [c] + y, [c]) == Split(x, [c]) + Split(y, [c])
    decreases |x|, 0
  {
    var j := IndexOf(x, c);
    SplitAtFirstInside(x, c, y);
    SplitCharFirst(x, c);
    SplitCharAppend(x[j + 1..], c, y);
    Regroup(Split(x + [c] + y, [c]), Split(x, [c]), [x[..j]], Split(x[j + 1..], [c]), Split(y, [c]));
  }

  /** Concatenation regrouped around a common head. */
  lemma Regroup<T>(whole: seq<T>, left: seq<T>, head: seq<T>, more: seq<T>, after: seq<T>)
    requires whole == head + (more + after)
    requires left == head + more
    ensures whole == left + after
  {
  }

  /** When `x` holds a `c`, the split of `x + [c] + y` first cuts at that `c`. */
  lemma SplitAtFirstInside(x: string, c: char, y: string)
    requires c in x
    ensures IndexOf(x, c) < |x|
    ensures Split(x + [c] + y, [c])
         == [x[..IndexOf(x, c)]] + Split(x[IndexOf(x, c) + 1..] + [c] + y, [c])
  {
    var s := x + [c] + y;
    var j := IndexOf(x, c);
    IndexOfAppend(x, c, y);
    SliceAround(x, c, y, j);
    SplitCharFirst(s, c);
  }

  /** Cutting `x + [c] + y` at an index inside `x`. */
  lemma SliceAround(x: string, c: char, y: string, j: nat)
    requires j < |x|
    ensures (x + [c] + y)[..j] == x[..j]
    ensures (x + [c] + y)[j + 1..] == x[j + 1..] + [c] + y
  {
  }

  /** `SplitCharAppend` when `x` holds no `c`: the first cut is the added one. */
  lemma SplitCharAppendAfter(x: string, c: char, y: string)
    requires c !in x
    ensures Split(x + [c] + y, [c]) == Split(x, [c]) + Split(y, [c])
  {
    var s := x + [c] + y;
    IndexOfAppend(x, c, y);
    assert s[|x|] == c;
    SplitCharFirst(s, c);
    SplitCharFirst(x, c);
    assert s[..|x|] == x;
    assert s[|x| + 1..] == y;
  }

  /** The first piece of `s.split(c)` is everything before the first `c`. */
  lemma SplitCharHead(s: string, c: char)
    ensures Split(s, [c])[0] == (if c in s then s[..IndexOf(s, c)] else s)
  {
    FindChar(s, c);
  }

  /** The second piece of `s.split(c)`, when there is one, runs from just after
      the first `c` up to the next `c` or the end. */
  lemma SplitCharSecond(s: string, c: char)
    requires c in s
    ensures |Split(s, [c])| >= 2
    ensures Split(s, [c])[1] == Split(s[IndexOf(s, c) + 1..], [c])[0]
  {
    FindChar(s, c);
  }

  // ---------------------------------------------------------------------------
  // Order-preserving deletion

  /** `a` is `b` with some elements deleted, the rest in their order. */
  predicate IsSubsequence<T(==)>(a: seq<T>, b: seq<T>)
    decreases |b|
  {
    if a == [] then true
    else if b == [] then false
    else (a[0] == b[0] && IsSubsequence(a[1..], b[1..])) || IsSubsequence(a, b[1..])
  }
}
