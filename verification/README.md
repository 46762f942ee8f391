# Bank statement parser — Dafny model

This project models `parse_bank_statement` from `bank-sample-streamlit.py`.
The function turns the OCR text of one bank statement into a JSON-shaped
record. The record holds header fields (bank address, account number,
statement date, period covered, customer name and address, branch, six
financial summary values) and an ordered list of transactions (date,
description, credit, debit, balance).

The interesting part is transaction reconstruction. OCR emits the
statement's table as three separate text runs:

- the date/description lines;
- a credit/debit run cut into blank-line separated segments;
- a run of balance tokens.

The parser deals each segment's non-blank lines into two parallel columns,
`credits` and `debits`, using the placeholder string `"null"`. It splits
every transaction line at a delimiter chosen by priority (`|`, then `—`,
then the first space). Then it zips the three columns into rows.

Every regex search of the parser is an input to the model. A search that
missed is `None`. A search that matched is given by the groups it captured.
The balance tokens found by `re.findall` are a `seq<string>`. Python
exceptions are `Failure` values of a `Result`.

Modules, one per concern:

- `Wrappers` (wrappers.dfy): `Option` and `Result`.
- `PyText` (pytext.dfy): the parts of Python's `str` the parser uses: `in`,
  `split(sep)`, `split(sep, 1)` and `strip()`. It also holds the
  leftmost-occurrence scan (`find`) that `in` and `split` perform underneath,
  and `join` as the inverse of `split`.
- `CreditDebit` (credit_debit.dfy): the segment loop and the tail padding.
  It has a functional model (`Realign`), an imperative model
  (`ReconstructColumns`), and a segment-by-segment reference layout
  (`Layout`) that both are proved equal to.
- `DateDescription` (date_description.dfy): the date/description split and
  the removal of non-ASCII characters.
- `Transactions` (transactions.dfy): row assembly and the transaction list.
- `Statement` (statement.dfy): the output record, `int()` on the transaction
  count, and the whole function.

Where the code differs from what a reader might expect of this parser, the
model follows the code:

- The credit and debit columns have equal length after every segment, so the
  tail padding after the loop never adds anything (`TailPaddingIsDead`).
- One might expect the parser never to fail. The row loop indexes
  `credits[i]` and `debits[i]` without a bound check, though. It raises
  `IndexError` when the credit/debit run has fewer non-blank lines than there
  are transaction lines. `int()` on the transaction count raises `ValueError`
  on a non-numeric group. Both are modelled as `Failure`.
- An empty transaction body still gives one (empty) transaction line, because
  `"".split('\n') == [""]`.
- The balance regex makes the two decimals optional. The tokens are an input
  here, so this does not affect the model.
- A credit or debit line that reads exactly `null` cannot be told apart from
  the placeholder, so it becomes `None` (`PlaceholderAmbiguity`).
- One might expect the header searches to be independent. They are not:
  the bank-address pattern (line 61) ends at the same `Account Number:` label
  that the account-number pattern (line 62) starts from. A text without that
  label therefore loses the bank address as well as the account number. The
  model takes every search result as a separate input, so
  `AccountNumberIndependent` holds with the other searches fixed.

## Model

| member | source | states |
|---|---|---|
| PyText.Strip | bank-sample-streamlit.py:122-123 | `strip()` returns the slice that starts at the first non-whitespace character and is followed only by whitespace. It is empty exactly when the whole string is whitespace, and otherwise starts and ends with a non-whitespace character. |
| PyText.StripIdempotent | bank-sample-streamlit.py:120-122 | Stripping twice equals stripping once, so the no-delimiter branch's double strip is a single strip. |
| PyText.StripKeepsOnly | bank-sample-streamlit.py:122-123 | Every character of a stripped string occurs in the original. |
| PyText.Find | bank-sample-streamlit.py:113-117 | The scan underneath `in` and `split`: it returns the leftmost occurrence of the separator, or reports that there is none. |
| PyText.FindChar | bank-sample-streamlit.py:113-117 | For a one-character separator, `sep in s` is membership, and the scan stops at the first occurrence of that character. |
| PyText.SplitJoin | bank-sample-streamlit.py:92 | `Split`, Python's `split(sep)`, round-trips: joining the pieces with the separator gives back the original string. |
| PyText.SplitPiecesAvoidSep | bank-sample-streamlit.py:92 | No piece produced by `split(sep)` contains the separator. |
| PyText.SplitCharPiecesAvoid | bank-sample-streamlit.py:88 | For a one-character separator such as `'\n'`, no piece of the split contains that character. |
| PyText.SplitOnce | bank-sample-streamlit.py:117-118 | `split(' ', 1)` cuts at most once, and only at the first occurrence of the separator. With two pieces, `first + sep + second` is the input and `first` is as long as the text before the first separator; otherwise the single piece is the input. |
| PyText.SplitCharAppend | bank-sample-streamlit.py:92-98 | For a one-character separator, the pieces of `x + sep + y` are the pieces of `x` followed by the pieces of `y`. |
| PyText.SplitCharHead | bank-sample-streamlit.py:114 | The first piece of `split(c)` is everything before the first `c`, or the whole string. |
| PyText.SplitCharSecond | bank-sample-streamlit.py:114 | The second piece of `split(c)` is the first piece of what follows the first `c`. |
| CreditDebit.Nulls | bank-sample-streamlit.py:105 | `['null'] * n` has `max(n, 0)` entries, all `"null"`. |
| CreditDebit.KeepNonBlank | bank-sample-streamlit.py:98 | A line is in the result exactly when it is in the input and its `strip()` is non-empty. |
| CreditDebit.KeepNonBlankIsSubsequence | bank-sample-streamlit.py:98 | The kept lines stay in their input order. |
| CreditDebit.KeepNonBlankCounts | bank-sample-streamlit.py:98 | Every non-blank line is kept as often as it occurs, and no blank line is kept. With the order lemma, this fixes the result. |
| CreditDebit.Segments | bank-sample-streamlit.py:92-98 | One segment per `'\n\n'` piece of the run. Segment k holds only non-blank lines: the non-blank lines of piece k, in order and with their counts. |
| CreditDebit.SegmentsFlatten | bank-sample-streamlit.py:92-98 | The segments laid end to end are exactly the non-blank lines of the whole run, in order. Cutting at blank lines first loses, adds and reorders nothing. |
| CreditDebit.TotalLinesIsConcat | bank-sample-streamlit.py:97-107 | The line total that sizes the columns is the length of the concatenated segments. |
| CreditDebit.RunLineCount | bank-sample-streamlit.py:92-107 | The segments hold as many lines as the run has non-blank lines. |
| CreditDebit.Realign | bank-sample-streamlit.py:97-107 | After the loop, `credits` and `debits` have equal length, and that length is the total number of non-blank lines over all segments. |
| CreditDebit.StepAppendsContribution | bank-sample-streamlit.py:100-107 | `SegmentStep`, one iteration of the loop: on aligned columns, a one-line segment appends debit `l0` and credit `"null"`. A k-line segment appends debits `[l0, null×(k−1)]` and credits `[null, l1…l(k−1)]`. A segment with no lines appends nothing. The columns stay aligned. |
| CreditDebit.RealignIsLayout | bank-sample-streamlit.py:97-107 | The loop equals the segment-by-segment reference layout (the contributions laid end to end). |
| CreditDebit.BlankSegmentChangesNothing | bank-sample-streamlit.py:98-103 | A segment without non-blank lines changes neither column. |
| CreditDebit.RealignSnoc | bank-sample-streamlit.py:97-107 | Processing one more segment extends both columns by exactly that segment's contribution. |
| CreditDebit.PadCredits | bank-sample-streamlit.py:109-110 | The tail padding leaves `debits` unchanged, extends `credits` to at least the length of `debits`, and adds only `"null"`. |
| CreditDebit.TailPaddingIsDead | bank-sample-streamlit.py:109-110 | The tail padding never changes the loop's result. |
| CreditDebit.LayoutPositions | bank-sample-streamlit.py:97-107 | Line j of segment k lands at index `TotalLines(segs[..k]) + j`. Line 0 is a debit with a `"null"` credit; a later line is a credit with a `"null"` debit. |
| CreditDebit.ReconstructColumns | bank-sample-streamlit.py:94-110 | The imperative loop plus tail padding yields the reference layout, with one entry per non-blank line in each column. |
| DateDescription.PiecesByDelimiter | bank-sample-streamlit.py:113-120 | There are always at least two pieces. With a bar (else an em dash), the pieces run up to the first delimiter and then up to the next one or the end. With only a space, the line is cut at the first space. |
| DateDescription.DateDescriptionByDelimiter | bank-sample-streamlit.py:113-123 | `SplitDateDescription`: the delimiter priority is bar, then em dash, then first space. The date and description are the stripped first and second pieces. With no delimiter, the date is the stripped line and the description is empty. |
| DateDescription.FieldsAreStripped | bank-sample-streamlit.py:122-123 | Neither the date nor the description before its non-ASCII cleanup (line 125) starts or ends with whitespace: stripping either again changes nothing. The cleaned description can end in a space, for example when a non-ASCII character followed it. |
| DateDescription.DelimiterNotInFields | bank-sample-streamlit.py:113-123 | With a bar or an em dash, neither the date nor the description contains it: only the first two pieces are used. |
| DateDescription.CleanDescription | bank-sample-streamlit.py:125 | The cleaned description holds only characters below 0x80 and is no longer than the input. |
| DateDescription.CleanKeepsAscii | bank-sample-streamlit.py:125 | Cleaning leaves an all-ASCII string unchanged. |
| DateDescription.CleanIdempotent | bank-sample-streamlit.py:125 | Cleaning twice equals cleaning once. |
| DateDescription.CleanIsSubsequence | bank-sample-streamlit.py:125 | The kept characters stay in their original order (the result is a subsequence of the input). |
| DateDescription.CleanCounts | bank-sample-streamlit.py:125 | Every ASCII character is kept as often as it occurs, and no other character survives. |
| Transactions.FromPlaceholder | bank-sample-streamlit.py:127-128 | A column entry becomes `None` exactly when it is `"null"`; any other entry passes through unchanged. |
| Transactions.PlaceholderRoundTrip | bank-sample-streamlit.py:127-128 | Turning an entry into a JSON value and writing it back gives the entry again. |
| Transactions.PlaceholderAmbiguity | bank-sample-streamlit.py:127-128 | The reverse trip fails exactly for a genuine value `"null"`. |
| Transactions.BalanceFromToken | bank-sample-streamlit.py:129 | `BalanceAt`: the balance of row i is already stripped. While tokens remain, it uses only characters of token i and is empty exactly when that token is all whitespace. Past the last token it is `"0.00"`. |
| Transactions.AssembleRows | bank-sample-streamlit.py:112-137 | The row loop completes exactly when both columns have an entry for every line, and then gives one row per line. Otherwise it raises `IndexError`. |
| Transactions.TransactionLines | bank-sample-streamlit.py:88 | There is at least one transaction line, and no line contains a newline. Joining the lines with newlines gives the stripped body, so the lines are exactly the newline-separated pieces of that body. |
| Transactions.ColumnsOf | bank-sample-streamlit.py:92-110 | The recovered columns are the reference layout of the run's segments, each as long as the run has non-blank lines. |
| Transactions.Reconstruct | bank-sample-streamlit.py:86-137 | With no block, the list is empty. With a block, it succeeds exactly when the segments hold at least as many lines as there are transaction lines, and then has one row per transaction line. The only failure is `IndexError`. |
| Transactions.ReconstructNeedsRunLines | bank-sample-streamlit.py:86-137 | The list is built exactly when the credit/debit run has at least as many non-blank lines as there are transaction lines. |
| Transactions.RowsFromColumns | bank-sample-streamlit.py:112-137 | `Rows` and `MakeRow`, the body of the row loop: row i comes from transaction line i, credit and debit entry i, and balance token i (or `"0.00"`), in source order. |
| Transactions.RowsFollowSegments | bank-sample-streamlit.py:97-137 | End to end, line j of segment k becomes the debit (j = 0) or the credit (j > 0) of row `TotalLines(segs[..k]) + j`, and the other value of that row is `None`. |
| Transactions.EmptyBodyIsOneRow | bank-sample-streamlit.py:88 | An empty transaction body is one empty line. It yields one row with an empty date and description when the run has a line, and raises otherwise. |
| Statement.IntValue | bank-sample-streamlit.py:155 | `int()` on an already stripped group: it succeeds exactly on an optionally signed ASCII digit string, and otherwise raises `ValueError`. |
| Statement.IntValueReadsDecimal | bank-sample-streamlit.py:155 | `int()` reads back every decimal numeral, with or without a sign. |
| Statement.TransactionCount | bank-sample-streamlit.py:155 | A missing or empty count is 0. Otherwise the count succeeds exactly when the group is an integer literal. |
| Statement.FinancialValues | bank-sample-streamlit.py:81-84 | When the search missed, all six values are `None`. When it matched, all six are present. |
| Statement.BuildRecord | bank-sample-streamlit.py:139-157 | Each missed search gives its own default: `None`, or `"mm/dd/yyyy"` for the statement date and both period dates. Each hit gives its (stripped, or comma-joined) groups. It raises only for a present, non-empty, non-integer count. |
| Statement.FinancialValuesTogether | bank-sample-streamlit.py:150-155 | The five financial strings are all `None` (and the count is 0) exactly when the search missed. Otherwise each is its stripped group. |
| Statement.ParseBankStatement | bank-sample-streamlit.py:60-159 | Transaction reconstruction runs first, and its `IndexError` wins. When it succeeds, the result is the record built from the searches and that list, so every header default of `BuildRecord` and its `ValueError` condition carry over. The record's list is empty without a block, and otherwise has one row per transaction line. |
| Statement.AccountNumberIndependent | bank-sample-streamlit.py:141 | Changing the account-number search changes only that field of the output. |
| Statement.TransactionBlockIndependent | bank-sample-streamlit.py:139-157 | Without a transaction block, the output is the same record with an empty transaction list. |

## Left out

- The regex engine. Each `re.search` in lines 61-79 is an input: `None`, or its captured groups. The same holds for the balance tokens of `re.findall` (line 91) and the `text.split('Balance\n', 1)[1]` slice they come from (line 90). So the model does not show which texts make which search match. The balance regex makes the decimals optional; that is also outside the model.
- `main`, the Streamlit UI and its buttons (lines 175-244). These are presentation and I/O.
- The Nanonets client, `extract_tables` and `extract_tabular_data` (lines 15-46, 162-173). These are a network service and pandas DataFrame code.
- OCR with pytesseract and pdf2image, and joining the page texts (lines 49-57, 226-229). These are foreign libraries.
- The `pdfinfo` lookup through `subprocess` (lines 212-223). This is process I/O.
- Statement.IntValue: accepts only an optional sign followed by ASCII digits. Python's `int()` also accepts surrounding whitespace, underscores between digits, and non-ASCII decimal digits; the model reports those as `ValueError`. Surrounding whitespace never reaches line 155, because line 82 strips each group first. In the other direction, CPython 3.11 and later raise `ValueError` for a literal of more than 4300 digits; the model accepts literals of any length, because that limit is an interpreter setting rather than part of the parser.
- Strings are sequences of Unicode scalar values. Python strings can also hold lone surrogates, which the model cannot represent.
- JSON serialisation (`json.dumps`) of the record is not modelled. The record is a datatype whose fields mirror the JSON keys.
