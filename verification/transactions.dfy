/** Transaction reconstruction: the block between "Date Description" and
    "--- End of Transactions --" gives one line per transaction, the run after
    "Credit Debit" gives the credit and debit columns, and the tokens after
    "Balance" give the running balances. Rows are assembled in the order of the
    transaction lines. */
module Transactions {
  import opened Wrappers
  import opened PyText
  import opened CreditDebit
  import opened DateDescription

  /** The exceptions the parser can raise. */
  datatype ParseError =
    | IndexError  // `credits[i]` or `debits[i]` past the end of the column
    | ValueError  // `int(...)` of a string that is not an integer literal

  /** One output transaction; `None` is JSON `null`. */
  datatype Transaction = Transaction(
    date: string,
    description: string,
    credit: Option<string>,
    debit: Option<string>,
    balance: string)

  /** What the transaction-details search yields when it matches: its first
      group (the transaction lines), its second group (the credit/debit run)
      and the monetary tokens found after the first "Balance\n". */
  datatype TransactionBlock = TransactionBlock(
    body: string,
    creditDebit: string,
    balanceTokens: seq<string>)

  /** The balance a row gets when there is no token at its index. */
  const DefaultBalance: string := "0.00"

  /** A column entry as a JSON value: the placeholder is `null`, anything else
      is passed through unchanged. */
  function FromPlaceholder(s: string): (v: Option<string>)
    ensures v.None? <==> s == Null
    ensures v.Some? ==> v.value == s
  {
    if s == Null then None else Some(s)
  }

  /** The inverse direction: a JSON value written back into a column. */
  function ToPlaceholder(v: Option<string>): string
  {
    v.GetOr(Null)
  }

  /** Every column entry survives the trip to JSON and back. */
  lemma PlaceholderRoundTrip(s: string)
    ensures ToPlaceholder(FromPlaceholder(s)) == s
  {
  }

  /** The other trip loses exactly one value: a genuine line reading "null"
      cannot be told apart from the placeholder. */
  lemma PlaceholderAmbiguity(v: Option<string>)
    ensures FromPlaceholder(ToPlaceholder(v)) == v <==> v != Some(Null)
  {
  }

  /** The balance of row `i`. */
  function BalanceAt(tokens: seq<string>, i: nat): string
  {
    if i < |tokens| then Strip(tokens[i]) else DefaultBalance
  }

  /** The balance of a row is token `i` without surrounding whitespace, built
      only from that token's characters and non-empty when the token has a
      non-space character; past the last token it is "0.00". Either way it is
      already stripped. */
  lemma BalanceFromToken(tokens: seq<string>, i: nat)
    ensures Strip(BalanceAt(tokens, i)) == BalanceAt(tokens, i)
    ensures i < |tokens| ==> forall c :: c in BalanceAt(tokens, i) ==> c in tokens[i]
    ensures i < |tokens| ==> (BalanceAt(tokens, i) == [] <==> AllSpace(tokens[i]))
    ensures i >= |tokens| ==> BalanceAt(tokens, i) == DefaultBalance
  {
    if i < |tokens| {
      StripIdempotent(tokens[i]);
      forall c | c in BalanceAt(tokens, i)
        ensures c in tokens[i]
      {
        StripKeepsOnly(tokens[i], c);
      }
    } else {
      NoSpaceAtEndsIsStripped(DefaultBalance);
    }
  }

  /** What row `i` must hold, given the date and description split from its
      line: the date, the description cleaned of non-ASCII characters, the
      column entries at `i` with the placeholder turned into `None`, and
      balance token `i` (stripped) or the default. */
  predicate IsRowFor(row: Transaction, dd: DateDesc, credit: string, debit: string,
                     tokens: seq<string>, i: nat)
  {
    && row.date == dd.date
    && row.description == CleanDescription(dd.description)
    && row.credit == FromPlaceholder(credit)
    && row.debit == FromPlaceholder(debit)
    && (i < |tokens| ==> row.balance == Strip(tokens[i]))
    && (i >= |tokens| ==> row.balance == DefaultBalance)
  }

  /** The row built from the split line and the column entries at its index. */
  function MakeRow(dd: DateDesc, credit: string, debit: string, balance: string): Transaction
  {
    Transaction(dd.date, CleanDescription(dd.description), FromPlaceholder(credit),
                FromPlaceholder(debit), balance)
  }

  /** A built row holds what `IsRowFor` asks of it. */
  lemma MakeRowIsRowFor(dd: DateDesc, credit: string, debit: string, tokens: seq<string>, i: nat)
    ensures IsRowFor(MakeRow(dd, credit, debit, BalanceAt(tokens, i)), dd, credit, debit, tokens, i)
  {
  }

  /** The rows of the loop when every column has an entry at every index:
      row `i` is built from split line `i`, the entries at `i` and balance
      token `i`, in line order. */
  function Rows(dds: seq<DateDesc>, cols: Columns, tokens: seq<string>): (rows: seq<Transaction>)
    requires |dds| <= |cols.credits| && |dds| <= |cols.debits|
    ensures |rows| == |dds|
  {
    seq(|dds|, i requires 0 <= i < |dds| =>
      MakeRow(dds[i], cols.credits[i], cols.debits[i], BalanceAt(tokens, i)))
  }

  /** The row loop: it completes exactly when both columns have an entry for
      every line, and otherwise raises `IndexError` at `credits[i]` or
      `debits[i]`, discarding the rows built so far. */
  function AssembleRows(dds: seq<DateDesc>, cols: Columns, tokens: seq<string>)
    : (r: Result<seq<Transaction>, ParseError>)
    ensures r.Success? <==> |dds| <= |cols.credits| && |dds| <= |cols.debits|
    ensures r.Failure? ==> r.error == IndexError
    ensures r.Success? ==> |r.value| == |dds|
  {
    if |dds| <= |cols.credits| && |dds| <= |cols.debits| then Success(Rows(dds, cols, tokens))
    else Failure(IndexError)
  }

  /** The transaction lines: the stripped first group split at newlines. An
      empty group still gives one (empty) line. */
  function TransactionLines(body: string): (lines: seq<string>)
    ensures |lines| >= 1
    ensures Join(lines, "\n") == Strip(body)
    ensures forall k :: 0 <= k < |lines| ==> '\n' !in lines[k]
  {
    SplitJoin(Strip(body), "\n");
    SplitCharPiecesAvoid(Strip(body), '\n');
    Split(Strip(body), "\n")
  }

  /** Every transaction line split into date and description. */
  function SplitLines(lines: seq<string>): (dds: seq<DateDesc>)
    ensures |dds| == |lines|
    ensures forall i :: 0 <= i < |lines| ==> dds[i] == SplitDateDescription(lines[i])
  {
    seq(|lines|, i requires 0 <= i < |lines| => SplitDateDescription(lines[i]))
  }

  /** The credit and debit columns recovered from the credit/debit run. */
  function ColumnsOf(creditDebit: string): (cols: Columns)
    ensures cols == Layout(Segments(creditDebit))
    ensures |cols.credits| == |cols.debits| == TotalLines(Segments(creditDebit))
  {
    var segs := Segments(creditDebit);
    RealignIsLayout(segs);
    PadCredits(Realign(segs))
  }

  /** The transaction list. Without a transaction block it is empty; with one
      it has exactly one row per transaction line, and it raises when the
      credit/debit run has fewer non-blank lines than there are transaction
      lines. */
  function Reconstruct(block: Option<TransactionBlock>): (r: Result<seq<Transaction>, ParseError>)
    ensures block.None? ==> r == Success([])
    ensures block.Some? ==>
      (r.Success? <==> |TransactionLines(block.value.body)| <= TotalLines(Segments(block.value.creditDebit)))
    ensures block.Some? && r.Success? ==> |r.value| == |TransactionLines(block.value.body)|
    ensures r.Failure? ==> r.error == IndexError
  {
    match block
    case None => Success([])
    case Some(b) =>
      var dds := SplitLines(TransactionLines(b.body));
      AssembleRows(dds, ColumnsOf(b.creditDebit), b.balanceTokens)
  }

  /** The transaction list is built exactly when the credit/debit run has at
      least as many non-blank lines as there are transaction lines. */
  lemma ReconstructNeedsRunLines(b: TransactionBlock)
    ensures Reconstruct(Some(b)).Success? <==>
      |TransactionLines(b.body)| <= |KeepNonBlank(Split(b.creditDebit, "\n"))|
  {
    RunLineCount(b.creditDebit);
  }

  /** Row `i` of the transaction list is built from transaction line `i`
      (split at its delimiter, description cleaned), the entries at `i` of the
      recovered credit and debit columns, and balance token `i` or "0.00". */
  lemma RowsFromColumns(b: TransactionBlock, i: nat)
    requires Reconstruct(Some(b)).Success?
    requires i < |Reconstruct(Some(b)).value|
    ensures var lines := TransactionLines(b.body);
      var cols := ColumnsOf(b.creditDebit);
      i < |lines| && i < |cols.credits| &&
      IsRowFor(Reconstruct(Some(b)).value[i], SplitDateDescription(lines[i]),
               cols.credits[i], cols.debits[i], b.balanceTokens, i)
  {
    var dds := SplitLines(TransactionLines(b.body));
    var cols := ColumnsOf(b.creditDebit);
    assert Reconstruct(Some(b)) == AssembleRows(dds, cols, b.balanceTokens);
    MakeRowIsRowFor(dds[i], cols.credits[i], cols.debits[i], b.balanceTokens, i);
  }

  /** Where the credit/debit lines land: with the segments of the run, row
      `TotalLines(segs[..k]) + j` gets line `j` of segment `k` — as its debit
      with no credit when `j` is 0, as its credit with no debit otherwise. A
      line that reads "null" is indistinguishable from the placeholder and
      becomes `None` too. */
  lemma RowsFollowSegments(b: TransactionBlock, rows: seq<Transaction>, segs: seq<seq<string>>, k: nat, j: nat)
    requires Reconstruct(Some(b)) == Success(rows)
    requires segs == Segments(b.creditDebit)
    requires k < |segs| && j < |segs[k]| && TotalLines(segs[..k]) + j < |rows|
    ensures j == 0 ==>
      rows[TotalLines(segs[..k])].debit == FromPlaceholder(segs[k][0]) &&
      rows[TotalLines(segs[..k])].credit == None
    ensures j > 0 ==>
      rows[TotalLines(segs[..k]) + j].credit == FromPlaceholder(segs[k][j]) &&
      rows[TotalLines(segs[..k]) + j].debit == None
  {
    forall i | 0 <= i < |rows|
      ensures AmountsFrom(rows, ColumnsOf(b.creditDebit), i)
    {
      RowAmounts(b, rows, i);
    }
    AmountsFollowSegments(rows, ColumnsOf(b.creditDebit), segs, k, j);
  }

  /** The credit and debit of row `i` are the entries at `i` of the recovered
      columns, read back through the placeholder. */
  lemma RowAmounts(b: TransactionBlock, rows: seq<Transaction>, i: nat)
    requires Reconstruct(Some(b)) == Success(rows)
    requires i < |rows|
    ensures AmountsFrom(rows, ColumnsOf(b.creditDebit), i)
  {
    RowsFromColumns(b, i);
  }

  /** Row `i` carries, through the placeholder, the entries at `i` of `cols`. */
  ghost predicate AmountsFrom(rows: seq<Transaction>, cols: Columns, i: int)
  {
    0 <= i < |rows| && i < |cols.credits| && i < |cols.debits| &&
    rows[i].credit == FromPlaceholder(cols.credits[i]) &&
    rows[i].debit == FromPlaceholder(cols.debits[i])
  }

  /** Rows whose amounts come from the layout of `segs` follow the segments. */
  lemma AmountsFollowSegments(rows: seq<Transaction>, cols: Columns, segs: seq<seq<string>>, k: nat, j: nat)
    requires cols == Layout(segs)
    requires forall i | 0 <= i < |rows| :: AmountsFrom(rows, cols, i)
    requires k < |segs| && j < |segs[k]| && TotalLines(segs[..k]) + j < |rows|
    ensures j == 0 ==>
      rows[TotalLines(segs[..k])].debit == FromPlaceholder(segs[k][0]) &&
      rows[TotalLines(segs[..k])].credit == None
    ensures j > 0 ==>
      rows[TotalLines(segs[..k]) + j].credit == FromPlaceholder(segs[k][j]) &&
      rows[TotalLines(segs[..k]) + j].debit == None
  {
    var o := TotalLines(segs[..k]) + j;
    assert AmountsFrom(rows, cols, o);
    var row := rows[o];
    assert row.credit == FromPlaceholder(cols.credits[o]) && row.debit == FromPlaceholder(cols.debits[o]);
    RowAtLayout(row, cols, segs, k, j);
  }

  /** A row built from the layout at a line's position carries that line. */
  lemma RowAtLayout(row: Transaction, layout: Columns, segs: seq<seq<string>>, k: nat, j: nat)
    requires layout == Layout(segs)
    requires k < |segs| && j < |segs[k]|
    requires TotalLines(segs[..k]) + j < |layout.credits| && TotalLines(segs[..k]) + j < |layout.debits|
    requires row.credit == FromPlaceholder(layout.credits[TotalLines(segs[..k]) + j])
    requires row.debit == FromPlaceholder(layout.debits[TotalLines(segs[..k]) + j])
    ensures j == 0 ==> row.debit == FromPlaceholder(segs[k][0]) && row.credit == None
    ensures j > 0 ==> row.credit == FromPlaceholder(segs[k][j]) && row.debit == None
  {
    LayoutPositions(segs, k, j);
  }

  /** An empty transaction body is one empty line: it yields one row with an
      empty date and description when the credit/debit run has a line, and
      raises otherwise. */
  lemma EmptyBodyIsOneRow(b: TransactionBlock)
    requires Strip(b.body) == []
    ensures TransactionLines(b.body) == [[]]
    ensures Reconstruct(Some(b)).Success? <==> TotalLines(Segments(b.creditDebit)) >= 1
    ensures Reconstruct(Some(b)).Success? ==>
      |Reconstruct(Some(b)).value| == 1 &&
      Reconstruct(Some(b)).value[0].date == [] &&
      Reconstruct(Some(b)).value[0].description == []
  {
    assert Find([], "\n").None?;
    var lines := TransactionLines(b.body);
    assert lines == [[]];
    if Reconstruct(Some(b)).Success? {
      DateDescriptionByDelimiter([]);
      RowsFromColumns(b, 0);
    }
  }
}
