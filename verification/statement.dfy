/** The output record: the header fields taken from the individual searches,
    each with its own "not found" value, and the reconstructed transaction
    list. Every regex search of the parser is an input here: `None` when it did
    not match, otherwise the groups it captured. */
module Statement {
  import opened Wrappers
  import opened PyText
  import opened Transactions

  /** The statement date and the period dates when their search misses. */
  const DateDefault: string := "mm/dd/yyyy"

  /** The six groups of the financial-values search, in order: opening
      balance, total credit, total debit, closing balance, account type and
      number of transactions. */
  type FinancialGroups = g: seq<string> | |g| == 6 witness ["", "", "", "", "", ""]

  /** The outcome of every search over the statement text. */
  datatype Searches = Searches(
    bankAddress: Option<string>,               // group 1: text before "\nAccount Number:"
    accountNumber: Option<string>,             // group 1: ddd-ddd-ddd-ddd
    statementDate: Option<string>,             // group 1: dd/dd/dddd
    periodCovered: Option<(string, string)>,   // groups 1 and 2: start and end date
    customerName: Option<string>,              // group 1: two words on a line of their own
    customerAddress: Option<(string, string)>, // groups 1 and 2: street line, city line
    branchName: Option<string>,                // the whole match "\n<Branch Name>\n"
    financialValues: Option<FinancialGroups>,
    transactionDetails: Option<TransactionBlock>)

  datatype PeriodCovered = PeriodCovered(startDate: string, endDate: string)

  /** The JSON object the parser returns; `None` is JSON `null`. */
  datatype StatementRecord = StatementRecord(
    bankAddress: Option<string>,
    accountNumber: Option<string>,
    statementDate: string,
    periodCovered: PeriodCovered,
    customerName: Option<string>,
    customerAddress: Option<string>,
    branchName: Option<string>,
    openingBalance: Option<string>,
    totalCreditAmount: Option<string>,
    totalDebitAmount: Option<string>,
    closingBalance: Option<string>,
    accountType: Option<string>,
    numberOfTransactions: int,
    transactions: seq<Transaction>)

  // ---------------------------------------------------------------------------
  // int(...) on the transaction count

  predicate IsDigit(c: char)
  {
    '0' <= c <= '9'
  }

  predicate AllDigits(s: string)
  {
    forall k :: 0 <= k < |s| ==> IsDigit(s[k])
  }

  /** A string `int()` accepts here: an optional sign followed by at least one
      ASCII digit. */
  predicate IsIntLiteral(s: string)
  {
    if |s| > 0 && (s[0] == '+' || s[0] == '-') then |s| > 1 && AllDigits(s[1..])
    else |s| > 0 && AllDigits(s)
  }

  /** The value of a string of decimal digits. */
  function DigitsValue(s: string): nat
    requires AllDigits(s)
  {
    if s == [] then 0
    else 10 * DigitsValue(s[..|s| - 1]) + (s[|s| - 1] as int - '0' as int)
  }

  /** `int(s)`: raises `ValueError` unless `s` is an integer literal. */
  function IntValue(s: string): (r: Result<int, ParseError>)
    ensures r.Success? <==> IsIntLiteral(s)
    ensures r.Failure? ==> r.error == ValueError
  {
    if !IsIntLiteral(s) then Failure(ValueError)
    else if s[0] == '-' then Success(0 - DigitsValue(s[1..]) as int)
    else if s[0] == '+' then Success(DigitsValue(s[1..]))
    else Success(DigitsValue(s))
  }

  /** The decimal digits of `n`, without leading zeros. */
  function Decimal(n: nat): (s: string)
    ensures |s| > 0 && AllDigits(s)
  {
    var d := ['0' + (n % 10) as char];
    if n < 10 then d else Decimal(n / 10) + d
  }

  /** `int()` reads back every count written in decimal, with or without a
      sign. */
  lemma {:induction false} IntValueReadsDecimal(n: nat)
    ensures IntValue(Decimal(n)) == Success(n)
    ensures IntValue("+" + Decimal(n)) == Success(n)
    ensures IntValue("-" + Decimal(n)) == Success(0 - n as int)
  {
    DigitsValueOfDecimal(n);
    assert ("+" + Decimal(n))[1..] == Decimal(n);
    assert ("-" + Decimal(n))[1..] == Decimal(n);
  }

  lemma {:induction false} DigitsValueOfDecimal(n: nat)
    ensures DigitsValue(Decimal(n)) == n
  {
    if n >= 10 {
      DigitsValueOfDecimal(n / 10);
      var s := Decimal(n);
      assert s[..|s| - 1] == Decimal(n / 10);
    }
  }

  /** `int(v) if v else 0`: a missing or empty count is 0. */
  function TransactionCount(v: Option<string>): (r: Result<int, ParseError>)
    ensures (v.None? || v.value == []) ==> r == Success(0)
    ensures v.Some? && v.value != [] ==> (r.Success? <==> IsIntLiteral(v.value))
  {
    if v.None? || v.value == [] then Success(0) else IntValue(v.value)
  }

  // ---------------------------------------------------------------------------
  // The record

  /** The six financial values: all stripped groups when the search matched,
      all `None` when it did not. */
  function FinancialValues(m: Option<FinancialGroups>): (v: seq<Option<string>>)
    ensures |v| == 6
    ensures m.None? ==> forall k :: 0 <= k < 6 ==> v[k].None?
    ensures m.Some? ==> forall k :: 0 <= k < 6 ==> v[k].Some?
  {
    match m
    case None => [None, None, None, None, None, None]
    case Some(g) => seq(6, k requires 0 <= k < 6 => Some(Strip(g[k])))
  }

  /** The header fields taken from the searches. Each missed search gives its
      own "not found" value — `None`, or "mm/dd/yyyy" for dates — and the six
      financial values are present or absent together. Only `int()` on a
      present, non-empty, non-numeric count raises. */
  function BuildRecord(s: Searches, transactions: seq<Transaction>): (r: Result<StatementRecord, ParseError>)
    ensures r.Failure? <==>
      s.financialValues.Some? && Strip(s.financialValues.value[5]) != [] &&
      !IsIntLiteral(Strip(s.financialValues.value[5]))
    ensures r.Failure? ==> r.error == ValueError
    ensures r.Success? ==> var rec := r.value;
      && rec.transactions == transactions
      && (s.bankAddress.None? ==> rec.bankAddress == None)
      && (s.bankAddress.Some? ==> rec.bankAddress == Some(Strip(s.bankAddress.value)))
      && rec.accountNumber == s.accountNumber
      && (s.statementDate.None? ==> rec.statementDate == DateDefault)
      && (s.statementDate.Some? ==> rec.statementDate == s.statementDate.value)
      && (s.periodCovered.None? ==> rec.periodCovered == PeriodCovered(DateDefault, DateDefault))
      && (s.periodCovered.Some? ==>
            rec.periodCovered == PeriodCovered(s.periodCovered.value.0, s.periodCovered.value.1))
      && rec.customerName == s.customerName
      && (s.customerAddress.None? ==> rec.customerAddress == None)
      && (s.customerAddress.Some? ==>
            rec.customerAddress == Some(s.customerAddress.value.0 + ", " + s.customerAddress.value.1))
      && (s.branchName.None? ==> rec.branchName == None)
      && (s.branchName.Some? ==> rec.branchName == Some(Strip(s.branchName.value)))
  {
    var fin := FinancialValues(s.financialValues);
    match TransactionCount(fin[5])
    case Failure(e) => Failure(e)
    case Success(count) =>
      Success(StatementRecord(
        bankAddress := if s.bankAddress.Some? then Some(Strip(s.bankAddress.value)) else None,
        accountNumber := s.accountNumber,
        statementDate := s.statementDate.GetOr(DateDefault),
        periodCovered :=
          if s.periodCovered.Some? then PeriodCovered(s.periodCovered.value.0, s.periodCovered.value.1)
          else PeriodCovered(DateDefault, DateDefault),
        customerName := s.customerName,
        customerAddress :=
          if s.customerAddress.Some? then Some(s.customerAddress.value.0 + ", " + s.customerAddress.value.1)
          else None,
        branchName := if s.branchName.Some? then Some(Strip(s.branchName.value)) else None,
        openingBalance := fin[0],
        totalCreditAmount := fin[1],
        totalDebitAmount := fin[2],
        closingBalance := fin[3],
        accountType := fin[4],
        numberOfTransactions := count,
        transactions := transactions))
  }

  /** The six financial values collapse together: all are `None` and the count
      is 0 exactly when the search missed; when it matched, each is its
      stripped group. */
  lemma FinancialValuesTogether(s: Searches, transactions: seq<Transaction>)
    requires BuildRecord(s, transactions).Success?
    ensures var rec := BuildRecord(s, transactions).value;
      var none := rec.openingBalance.None? && rec.totalCreditAmount.None? &&
                  rec.totalDebitAmount.None? && rec.closingBalance.None? && rec.accountType.None?;
      var some := rec.openingBalance.Some? && rec.totalCreditAmount.Some? &&
                  rec.totalDebitAmount.Some? && rec.closingBalance.Some? && rec.accountType.Some?;
      && (none || some)
      && (none <==> s.financialValues.None?)
      && (s.financialValues.None? ==> rec.numberOfTransactions == 0)
      && (s.financialValues.Some? ==>
            var g := s.financialValues.value;
            && rec.openingBalance == Some(Strip(g[0]))
            && rec.totalCreditAmount == Some(Strip(g[1]))
            && rec.totalDebitAmount == Some(Strip(g[2]))
            && rec.closingBalance == Some(Strip(g[3]))
            && rec.accountType == Some(Strip(g[4]))
            && TransactionCount(Some(Strip(g[5]))) == Success(rec.numberOfTransactions))
  {
  }

  /** `parse_bank_statement`: the transaction list is reconstructed first (it
      may raise `IndexError`), then the record is built (it may raise
      `ValueError`). */
  function ParseBankStatement(s: Searches): (r: Result<StatementRecord, ParseError>)
    ensures Reconstruct(s.transactionDetails).Failure? ==> r == Failure(IndexError)
    ensures r.Success? ==> r.value.transactions == Reconstruct(s.transactionDetails).value
    ensures r.Success? && s.transactionDetails.None? ==> r.value.transactions == []
    ensures r.Success? && s.transactionDetails.Some? ==>
      |r.value.transactions| == |TransactionLines(s.transactionDetails.value.body)|
    ensures Reconstruct(s.transactionDetails).Success? ==>
      r == BuildRecord(s, Reconstruct(s.transactionDetails).value)
  {
    match Reconstruct(s.transactionDetails)
    case Failure(e) => Failure(e)
    case Success(transactions) => BuildRecord(s, transactions)
  }

  /** With the other searches fixed, changing the account-number search
      changes the account number in the output and nothing else. */
  lemma AccountNumberIndependent(s: Searches, other: Option<string>)
    ensures var r := ParseBankStatement(s);
      var r' := ParseBankStatement(s.(accountNumber := other));
      && (r.Success? <==> r'.Success?)
      && (r.Success? ==> r'.value == r.value.(accountNumber := other))
      && (r.Failure? ==> r'.error == r.error)
  {
  }

  /** Without a transaction block the transaction list is empty and every
      header field is what it is with one. */
  lemma TransactionBlockIndependent(s: Searches)
    requires ParseBankStatement(s).Success?
    ensures ParseBankStatement(s.(transactionDetails := None))
         == Success(ParseBankStatement(s).value.(transactions := []))
  {
  }
}
