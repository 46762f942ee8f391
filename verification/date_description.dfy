/** Splitting one transaction line into its date and its description, and the
    removal of non-ASCII characters from the description. */
module DateDescription {
  import opened PyText

  const Bar: char := '|'
  const EmDash: char := '\U{2014}'
  const Space: char := ' '

  /** The date and the (not yet cleaned) description of one line. */
  datatype DateDesc = DateDesc(date: string, description: string)

  /** The text before the first `c`, or all of `s` when there is none. */
  function Before(s: string, c: char): string
  {
    if c in s then s[..IndexOf(s, c)] else s
  }

  /** The text after the first `c`. */
  function After(s: string, c: char): string
    requires c in s
  {
    s[IndexOf(s, c) + 1..]
  }

  /** The pieces the parser cuts a line into: `split('|')` if the line has a
      bar, else `split('—')` if it has an em dash, else `split(' ', 1)` if it
      has a space, else the stripped line and an empty string. */
  function Pieces(line: string): seq<string>
  {
    if Bar in line then Split(line, [Bar])
    else if EmDash in line then Split(line, [EmDash])
    else if Space in line then SplitOnce(line, [Space])
    else [Strip(line), ""]
  }

  /** Date and description of a line: the first piece and the second piece,
      each stripped; pieces after the second are dropped. */
  function SplitDateDescription(line: string): DateDesc
  {
    var parts := Pieces(line);
    DateDesc(Strip(parts[0]), if |parts| > 1 then Strip(parts[1]) else "")
  }

  /** The pieces, described by the positions of the delimiters: with a bar
      (or, failing that, an em dash) the first piece runs up to the first
      delimiter and the second up to the next one or the end; with only a
      space the line is cut once at the first space. There are always at least
      two pieces. */
  lemma PiecesByDelimiter(line: string)
    ensures |Pieces(line)| >= 2
    ensures Bar in line ==>
      Pieces(line)[0] == Before(line, Bar) &&
      Pieces(line)[1] == Before(After(line, Bar), Bar)
    ensures Bar !in line && EmDash in line ==>
      Pieces(line)[0] == Before(line, EmDash) &&
      Pieces(line)[1] == Before(After(line, EmDash), EmDash)
    ensures Bar !in line && EmDash !in line && Space in line ==>
      Pieces(line) == [Before(line, Space), After(line, Space)]
  {
    if Bar in line {
      FirstTwoPieces(line, Bar);
    } else if EmDash in line {
      FirstTwoPieces(line, EmDash);
    } else if Space in line {
      FindChar(line, Space);
    }
  }

  /** The first two pieces of `split(c)` when `c` occurs. */
  lemma FirstTwoPieces(line: string, c: char)
    requires c in line
    ensures |Split(line, [c])| >= 2
    ensures Split(line, [c])[0] == Before(line, c)
    ensures Split(line, [c])[1] == Before(After(line, c), c)
  {
    SplitCharHead(line, c);
    SplitCharSecond(line, c);
    SplitCharHead(After(line, c), c);
  }

  /** The delimiter priority: the bar, then the em dash, then the first space;
      with none of them the whole stripped line is the date and the
      description is empty. */
  lemma DateDescriptionByDelimiter(line: string)
    ensures var r := SplitDateDescription(line);
      && (Bar in line ==>
            r.date == Strip(Before(line, Bar)) &&
            r.description == Strip(Before(After(line, Bar), Bar)))
      && (Bar !in line && EmDash in line ==>
            r.date == Strip(Before(line, EmDash)) &&
            r.description == Strip(Before(After(line, EmDash), EmDash)))
      && (Bar !in line && EmDash !in line && Space in line ==>
            r.date == Strip(Before(line, Space)) &&
            r.description == Strip(After(line, Space)))
      && (Bar !in line && EmDash !in line && Space !in line ==>
            r.date == Strip(line) && r.description == [])
  {
    PiecesByDelimiter(line);
    StripIdempotent(line);
  }

  /** Both fields come out of the split stripped: neither starts or ends with
      whitespace, and stripping them again changes nothing. (The description's
      later non-ASCII cleanup can expose whitespace at its ends.) */
  lemma FieldsAreStripped(line: string)
    ensures var r := SplitDateDescription(line);
      && Strip(r.date) == r.date
      && Strip(r.description) == r.description
  {
    var parts := Pieces(line);
    StripIdempotent(parts[0]);
    if |parts| > 1 {
      StripIdempotent(parts[1]);
    }
  }

  /** With a bar or an em dash in the line, neither the date nor the
      description contains that delimiter: only the first two pieces are used. */
  lemma DelimiterNotInFields(line: string, c: char)
    requires c == Bar || (c == EmDash && Bar !in line)
    requires c in line
    ensures c !in SplitDateDescription(line).date
    ensures c !in SplitDateDescription(line).description
  {
    DateDescriptionByDelimiter(line);
    var r := SplitDateDescription(line);
    var head := Before(line, c);
    var second := Before(After(line, c), c);
    assert c !in head;
    if c in r.date {
      StripKeepsOnly(head, c);
    }
    assert c !in second;
    if c in r.description {
      StripKeepsOnly(second, c);
    }
  }

  /** Code points below 0x80. */
  predicate IsAscii(c: char)
  {
    c as int < 0x80
  }

  predicate AllAscii(s: string)
  {
    forall k :: 0 <= k < |s| ==> IsAscii(s[k])
  }

  /** `re.sub(r'[^\x00-\x7F]+', '', s)`: every character at or above 0x80 is
      removed, the others are kept in order. */
  function CleanDescription(s: string): (r: string)
    ensures |r| <= |s|
    ensures AllAscii(r)
  {
    if s == [] then []
    else (if IsAscii(s[0]) then [s[0]] else []) + CleanDescription(s[1..])
  }

  /** A string that is already ASCII is left as it is. */
  lemma {:induction false} CleanKeepsAscii(s: string)
    requires AllAscii(s)
    ensures CleanDescription(s) == s
  {
    if s != [] {
      CleanKeepsAscii(s[1..]);
    }
  }

  /** Cleaning twice is cleaning once. */
  lemma CleanIdempotent(s: string)
    ensures CleanDescription(CleanDescription(s)) == CleanDescription(s)
  {
    CleanKeepsAscii(CleanDescription(s));
  }

  /** Cleaning keeps the remaining characters in their original order. */
  lemma {:induction false} CleanIsSubsequence(s: string)
    ensures IsSubsequence(CleanDescription(s), s)
  {
    if s != [] {
      CleanIsSubsequence(s[1..]);
      var r := CleanDescription(s);
      if IsAscii(s[0]) {
        assert r == [s[0]] + CleanDescription(s[1..]);
        assert r[1..] == CleanDescription(s[1..]);
      } else {
        assert r == CleanDescription(s[1..]);
        if r != [] {
          assert IsSubsequence(r, s[1..]);
        }
      }
    }
  }

  /** Cleaning keeps every ASCII character as often as it occurs and drops
      every other character. */
  lemma {:induction false} CleanCounts(s: string)
    ensures forall c :: IsAscii(c) ==> multiset(CleanDescription(s))[c] == multiset(s)[c]
    ensures forall c :: !IsAscii(c) ==> c !in CleanDescription(s)
  {
    if s != [] {
      CleanCounts(s[1..]);
      assert s == [s[0]] + s[1..];
      var head: string := if IsAscii(s[0]) then [s[0]] else [];
      assert CleanDescription(s) == head + CleanDescription(s[1..]);
      assert multiset(s) == multiset([s[0]]) + multiset(s[1..]);
      assert multiset(CleanDescription(s)) == multiset(head) + multiset(CleanDescription(s[1..]));
    }
  }
}
