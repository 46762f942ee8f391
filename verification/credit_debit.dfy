/** Credit/debit column realignment: the run of text between
    "Credit Debit" and "Balance" is cut into blank-line separated segments, and
    the non-blank lines of each segment are dealt into two parallel columns,
    `credits` and `debits`, with the placeholder string "null" where a row has
    no value. */
module CreditDebit {
  import opened Wrappers
  import opened PyText

  /** The placeholder the parser writes into a column for "no value". */
  const Null: string := "null"

  /** The two columns as the parser grows them. */
  datatype Columns = Columns(credits: seq<string>, debits: seq<string>)
  {
    predicate Aligned()
    {
      |credits| == |debits|
    }

    /** Both columns extended by the corresponding columns of `more`. */
    function Append(more: Columns): Columns
    {
      Columns(credits + more.credits, debits + more.debits)
    }
  }

  /** Python's `['null'] * n`, which is empty for `n <= 0`. */
  function Nulls(n: int): (r: seq<string>)
    ensures |r| == if n <= 0 then 0 else n
    ensures forall k :: 0 <= k < |r| ==> r[k] == Null
    decreases n
  {
    if n <= 0 then [] else [Null] + Nulls(n - 1)
  }

  /** `line.strip()` is falsy. */
  predicate IsBlank(line: string)
  {
    Strip(line) == []
  }

  /** The lines of `lines` that are not blank, in order. */
  function KeepNonBlank(lines: seq<string>): (r: seq<string>)
    ensures |r| <= |lines|
    ensures forall k :: 0 <= k < |r| ==> !IsBlank(r[k])
    ensures forall x :: x in r <==> x in lines && !IsBlank(x)
  {
    if lines == [] then []
    else (if IsBlank(lines[0]) then [] else [lines[0]]) + KeepNonBlank(lines[1..])
  }

  /** Filtering keeps the surviving lines in their original order. */
  lemma {:induction false} KeepNonBlankIsSubsequence(lines: seq<string>)
    ensures IsSubsequence(KeepNonBlank(lines), lines)
  {
    if lines != [] {
      KeepNonBlankIsSubsequence(lines[1..]);
      var r := KeepNonBlank(lines);
      if !IsBlank(lines[0]) {
        assert r[1..] == KeepNonBlank(lines[1..]);
      } else {
        assert r == KeepNonBlank(lines[1..]);
      }
    }
  }

  /** Filtering keeps every non-blank line as often as it occurs and no blank
      line at all. */
  lemma {:induction false} KeepNonBlankCounts(lines: seq<string>)
    ensures forall x :: multiset(KeepNonBlank(lines))[x] == if IsBlank(x) then 0 else multiset(lines)[x]
  {
    if lines != [] {
      KeepNonBlankCounts(lines[1..]);
      assert lines == [lines[0]] + lines[1..];
      var head: seq<string> := if IsBlank(lines[0]) then [] else [lines[0]];
      assert KeepNonBlank(lines) == head + KeepNonBlank(lines[1..]);
      assert multiset(KeepNonBlank(lines)) == multiset(head) + multiset(KeepNonBlank(lines[1..]));
      assert multiset(lines) == multiset([lines[0]]) + multiset(lines[1..]);
    }
  }

  /** The non-blank lines of one segment. */
  function SegmentLines(segment: string): seq<string>
  {
    KeepNonBlank(Split(segment, "\n"))
  }

  /** The credit/debit run cut into segments, each given by its non-blank lines. */
  function Segments(creditDebitText: string): (segs: seq<seq<string>>)
    ensures |segs| == |Split(creditDebitText, "\n\n")|
    ensures forall k, j :: 0 <= k < |segs| && 0 <= j < |segs[k]| ==> !IsBlank(segs[k][j])
    ensures forall k :: 0 <= k < |segs| ==>
      segs[k] == KeepNonBlank(Split(Split(creditDebitText, "\n\n")[k], "\n"))
  {
    SegmentsOf(Split(creditDebitText, "\n\n"))
  }

  /** One segment per piece of the blank-line split, in order. */
  function SegmentsOf(parts: seq<string>): (segs: seq<seq<string>>)
    ensures |segs| == |parts|
    ensures forall k, j :: 0 <= k < |segs| && 0 <= j < |segs[k]| ==> !IsBlank(segs[k][j])
    ensures forall k :: 0 <= k < |segs| ==> segs[k] == KeepNonBlank(Split(parts[k], "\n"))
  {
    if parts == [] then []
    else [SegmentLines(parts[0])] + SegmentsOf(parts[1..])
  }

  /** Total number of lines over all segments. */
  function TotalLines(segs: seq<seq<string>>): nat
  {
    if segs == [] then 0 else TotalLines(segs[..|segs| - 1]) + |segs[|segs| - 1]|
  }

  /** All segments' lines, one segment after the other. */
  function Concat(segs: seq<seq<string>>): seq<string>
  {
    if segs == [] then [] else Concat(segs[..|segs| - 1]) + segs[|segs| - 1]
  }

  /** `TotalLines` counts exactly the lines of the concatenated segments. */
  lemma {:induction false} TotalLinesIsConcat(segs: seq<seq<string>>)
    ensures TotalLines(segs) == |Concat(segs)|
  {
    if segs != [] {
      TotalLinesIsConcat(segs[..|segs| - 1]);
    }
  }

  /** `Concat` read from the front. */
  lemma {:induction false} ConcatCons(first: seq<string>, rest: seq<seq<string>>)
    ensures Concat([first] + rest) == first + Concat(rest)
  {
    if rest != [] {
      var all := [first] + rest;
      assert all[..|all| - 1] == [first] + rest[..|rest| - 1];
      ConcatCons(first, rest[..|rest| - 1]);
    } else {
      assert [first] + rest == [first];
      assert [first][..0] == [];
    }
  }

  /** Filtering distributes over concatenation. */
  lemma {:induction false} KeepNonBlankAppend(a: seq<string>, b: seq<string>)
    ensures KeepNonBlank(a + b) == KeepNonBlank(a) + KeepNonBlank(b)
  {
    if a != [] {
      var head: seq<string> := if IsBlank(a[0]) then [] else [a[0]];
      assert (a + b)[0] == a[0];
      assert (a + b)[1..] == a[1..] + b;
      assert KeepNonBlank(a + b) == head + KeepNonBlank(a[1..] + b);
      assert KeepNonBlank(a) == head + KeepNonBlank(a[1..]);
      KeepNonBlankAppend(a[1..], b);
    } else {
      assert a + b == b;
    }
  }

  /** A blank line contributes nothing to the filtered lines. */
  lemma KeepNonBlankBlankHead(lines: seq<string>)
    ensures KeepNonBlank([[]] + lines) == KeepNonBlank(lines)
  {
    assert IsBlank([]);
    assert ([[]] + lines)[1..] == lines;
  }

  /** At a blank-line separator the newline split has one empty piece between
      the lines before and the lines after. */
  lemma SplitLinesAtSeparator(x: string, rest: string)
    ensures Split(x + "\n\n" + rest, "\n") == Split(x, "\n") + ([[]] + Split(rest, "\n"))
  {
    assert x + "\n\n" + rest == x + ['\n'] + (['\n'] + rest);
    SplitCharAppend(x, '\n', ['\n'] + rest);
    assert ['\n'] + rest == [] + ['\n'] + rest;
    SplitCharAppend([], '\n', rest);
    assert Find([], "\n").None?;
  }

  /** The segments of a run that contains a blank-line separator: the first
      segment is the non-blank lines before it, the rest are the segments of
      what follows. */
  lemma SegmentsCons(t: string, i: nat)
    requires Find(t, "\n\n") == Some(i)
    ensures Segments(t) == [KeepNonBlank(Split(t[..i], "\n"))] + Segments(t[i + 2..])
  {
    SplitCons(t, "\n\n", i);
    SegmentsOfPieces(t, t[..i], t[i + 2..]);
  }

  /** Segments follow the pieces of the blank-line split one for one. */
  lemma SegmentsOfPieces(t: string, first: string, rest: string)
    requires Split(t, "\n\n") == [first] + Split(rest, "\n\n")
    ensures Segments(t) == [KeepNonBlank(Split(first, "\n"))] + Segments(rest)
  {
    var parts := [first] + Split(rest, "\n\n");
    assert parts[1..] == Split(rest, "\n\n");
    assert SegmentsOf(parts) == [SegmentLines(first)] + SegmentsOf(parts[1..]);
  }

  /** Cutting the run at blank lines and then at newlines, and filtering, loses
      and reorders nothing: the segments laid end to end are the non-blank
      lines of the whole run, in order. */
  lemma {:induction false} SegmentsFlatten(t: string)
    ensures Concat(Segments(t)) == KeepNonBlank(Split(t, "\n"))
    decreases |t|
  {
    match Find(t, "\n\n")
    case None =>
      assert Split(t, "\n\n") == [t];
      assert Segments(t) == [KeepNonBlank(Split(t, "\n"))];
      ConcatCons(KeepNonBlank(Split(t, "\n")), []);
    case Some(i) =>
      var x, rest := t[..i], t[i + 2..];
      var before, after := Split(x, "\n"), Split(rest, "\n");
      CutAround(t, i, "\n\n");
      SplitLinesAtSeparator(x, rest);
      assert Split(t, "\n") == before + ([[]] + after);
      KeepNonBlankAppend(before, [[]] + after);
      KeepNonBlankBlankHead(after);
      assert KeepNonBlank(Split(t, "\n")) == KeepNonBlank(before) + KeepNonBlank(after);
      SegmentsCons(t, i);
      ConcatCons(KeepNonBlank(before), Segments(rest));
      SegmentsFlatten(rest);
  }

  /** The number of lines the segments hold is the number of non-blank lines
      of the run. */
  lemma RunLineCount(t: string)
    ensures TotalLines(Segments(t)) == |KeepNonBlank(Split(t, "\n"))|
  {
    TotalLinesIsConcat(Segments(t));
    SegmentsFlatten(t);
  }

  // ---------------------------------------------------------------------------
  // The loop as written

  /** One iteration of the segment loop, on columns of any lengths. A single
      line is a debit with a "null" credit; with more lines the first is a
      debit, the credit column is padded up to the debit column, the other
      lines become credits and the debit column is padded with one "null" per
      extra line. A segment without lines changes nothing. */
  function SegmentStep(cols: Columns, lines: seq<string>): Columns
  {
    if |lines| == 1 then
      Columns(cols.credits + [Null], cols.debits + [lines[0]])
    else if |lines| > 1 then
      var debits := cols.debits + [lines[0]];
      var credits := cols.credits + Nulls(|debits| - |cols.credits|) + lines[1..];
      Columns(credits, debits + Nulls(|lines| - 1))
    else
      cols
  }

  /** The columns after the loop has processed every segment of `segs`. Both
      columns hold exactly one entry per line of the segments. */
  function Realign(segs: seq<seq<string>>): (cols: Columns)
    ensures cols.Aligned()
    ensures |cols.credits| == TotalLines(segs)
  {
    if segs == [] then Columns([], [])
    else SegmentStep(Realign(segs[..|segs| - 1]), segs[|segs| - 1])
  }

  /** The tail padding after the loop: the credit column is filled with "null"
      up to the length of the debit column. */
  function PadCredits(cols: Columns): (r: Columns)
    ensures r.debits == cols.debits
    ensures |r.credits| == if |cols.credits| < |cols.debits| then |cols.debits| else |cols.credits|
    ensures cols.credits <= r.credits
    ensures forall k :: |cols.credits| <= k < |r.credits| ==> r.credits[k] == Null
  {
    if |cols.credits| < |cols.debits| then
      Columns(cols.credits + Nulls(|cols.debits| - |cols.credits|), cols.debits)
    else
      cols
  }

  // ---------------------------------------------------------------------------
  // The layout described segment by segment

  /** What one segment of `k` lines adds: debits `[l0, null × (k-1)]` and
      credits `[null, l1, …, l(k-1)]`; nothing when `k` is 0. */
  function Contribution(lines: seq<string>): (c: Columns)
    ensures c.Aligned() && |c.credits| == |lines|
  {
    if lines == [] then Columns([], [])
    else Columns([Null] + lines[1..], [lines[0]] + Nulls(|lines| - 1))
  }

  /** The segments' contributions laid end to end. */
  function Layout(segs: seq<seq<string>>): Columns
  {
    if segs == [] then Columns([], [])
    else Layout(segs[..|segs| - 1]).Append(Contribution(segs[|segs| - 1]))
  }

  /** On aligned columns one loop iteration appends exactly the segment's
      contribution and leaves the columns aligned. */
  lemma StepAppendsContribution(cols: Columns, lines: seq<string>)
    requires cols.Aligned()
    ensures SegmentStep(cols, lines) == cols.Append(Contribution(lines))
    ensures SegmentStep(cols, lines).Aligned()
  {
    if |lines| > 1 {
      assert Nulls(|cols.debits| + 1 - |cols.credits|) == [Null];
      assert cols.credits + [Null] + lines[1..] == cols.credits + ([Null] + lines[1..]);
      assert cols.debits + [lines[0]] + Nulls(|lines| - 1)
          == cols.debits + ([lines[0]] + Nulls(|lines| - 1));
    }
  }

  /** The loop computes the segment-by-segment layout. */
  lemma {:induction false} RealignIsLayout(segs: seq<seq<string>>)
    ensures Realign(segs) == Layout(segs)
    decreases |segs|
  {
    if segs != [] {
      var init := segs[..|segs| - 1];
      RealignIsLayout(init);
      StepAppendsContribution(Realign(init), segs[|segs| - 1]);
    }
  }

  /** A segment without lines changes neither column. */
  lemma BlankSegmentChangesNothing(segs: seq<seq<string>>)
    ensures Realign(segs + [[]]) == Realign(segs)
  {
    assert (segs + [[]])[..|segs|] == segs;
  }

  /** Adding a segment at the end extends the columns by its contribution. */
  lemma RealignSnoc(segs: seq<seq<string>>, lines: seq<string>)
    ensures Realign(segs + [lines]) == Realign(segs).Append(Contribution(lines))
  {
    assert (segs + [lines])[..|segs|] == segs;
    StepAppendsContribution(Realign(segs), lines);
  }

  /** After the loop the columns are already aligned, so the tail padding
      never adds an entry. */
  lemma TailPaddingIsDead(segs: seq<seq<string>>)
    ensures PadCredits(Realign(segs)) == Realign(segs)
  {
  }

  /** Where every line ends up: segment `k` starts at offset
      `TotalLines(segs[..k])`; its first line is the debit there with a
      "null" credit, and each later line `j` is the credit at offset + j with
      a "null" debit. */
  lemma {:induction false} LayoutPositions(segs: seq<seq<string>>, k: nat, j: nat)
    requires k < |segs| && j < |segs[k]|
    ensures TotalLines(segs[..k]) + j < TotalLines(segs)
    ensures var cols := Layout(segs); var o := TotalLines(segs[..k]) + j;
      |cols.credits| == |cols.debits| == TotalLines(segs) &&
      (j == 0 ==> cols.debits[o] == segs[k][0] && cols.credits[o] == Null) &&
      (j > 0 ==> cols.credits[o] == segs[k][j] && cols.debits[o] == Null)
    decreases |segs|
  {
    RealignIsLayout(segs);
    var init := segs[..|segs| - 1];
    RealignIsLayout(init);
    if k == |segs| - 1 {
      assert segs[..k] == init;
    } else {
      assert init[..k] == segs[..k];
      LayoutPositions(init, k, j);
    }
  }

  // ---------------------------------------------------------------------------
  // The loop as an imperative method

  /** Lines 94-110 of the parser: the segment loop followed by the tail
      padding. The result is the segment-by-segment layout, one entry per line
      in each column. */
  method ReconstructColumns(segs: seq<seq<string>>) returns (credits: seq<string>, debits: seq<string>)
    ensures Columns(credits, debits) == Layout(segs)
    ensures |credits| == |debits| == TotalLines(segs)
  {
    credits := [];
    debits := [];
    var i := 0;
    while i < |segs|
      invariant 0 <= i <= |segs|
      invariant Columns(credits, debits) == Realign(segs[..i])
    {
      var lines := segs[i];
      if |lines| == 1 {
        credits := credits + [Null];
        debits := debits + [lines[0]];
      } else if |lines| > 1 {
        debits := debits + [lines[0]];
        credits := credits + Nulls(|debits| - |credits|);
        credits := credits + lines[1..];
        debits := debits + Nulls(|lines| - 1);
      }
      assert segs[..i + 1][..i] == segs[..i];
      i := i + 1;
    }
    assert segs[..i] == segs;
    if |credits| < |debits| {
      credits := credits + Nulls(|debits| - |credits|);
    }
    RealignIsLayout(segs);
  }
}
