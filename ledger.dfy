/**
 * The row walk of `parse_ledger`.  The raw grid of a ledger export is visited
 * once, top to bottom.  An account-header row sets the current account (name
 * and type) and emits an opening-balance record; a dated row under an account
 * emits a transaction record; every other row is skipped.
 */
module LedgerWalk {
  import opened Optional
  import opened Strings
  import opened NumberCleaning
  import opened DateFormatting

  /**
   * One row of the grid, every cell read as text (`dtype=str`); a cell pandas
   * reports as missing is `None`.  The walk reads columns up to 23.
   */
  type Row = r: seq<Option<string>> | |r| >= 24 witness seq(24, _ => None)

  /** `current_account_name` and `current_account_type`. */
  datatype Account = Account(name: Option<string>, kind: Option<string>)

  /** The context before the first header row. */
  const NoAccount := Account(None, None)

  const OpeningDate := "01/01/2025"
  const OpeningLabel := "Saldo Awal"
  const DateHeaderWord := "Tanggal"

  /** One output row: Tanggal, Nama Akun, Tipe Akun, Keterangan, Debit, Kredit, Saldo. */
  datatype LedgerRecord = LedgerRecord(
    date: string,
    accountName: string,
    accountType: Option<string>,
    description: Option<string>,
    debit: real,
    credit: real,
    balance: real)

  /** `current_account_name` is truthy: set, and not the empty string. */
  predicate HasAccount(acct: Account) {
    acct.name.Some? && acct.name.value != ""
  }

  /** Column 1 present, column 0 missing, column 6 (the account name) present. */
  predicate IsAccountHeader(row: Row) {
    row[1].Some? && row[0].None? && row[6].Some?
  }

  /** Column 2 present and not the `Tanggal` caption, under an account. */
  predicate IsTransactionRow(row: Row, acct: Account) {
    row[2].Some? && Strip(row[2].value) != DateHeaderWord && HasAccount(acct)
  }

  /** The account a header row opens: name from column 6, type from column 10. */
  function HeaderAccount(row: Row): Account
    requires IsAccountHeader(row)
  {
    Account(row[6], row[10])
  }

  /** The opening-balance record of a header row; the balance is column 14. */
  function OpeningRecord(row: Row): (r: LedgerRecord)
    requires IsAccountHeader(row)
    ensures Account(Some(r.accountName), r.accountType) == HeaderAccount(row)
    ensures r.date == OpeningDate && r.description == Some(OpeningLabel)
    ensures r.debit == 0.0 && r.credit == 0.0
    ensures r.balance == CleanNumber(row[14])
    ensures row[14].None? ==> r.balance == 0.0
    ensures row[14].Some? && '-' !in row[14].value ==> r.balance >= 0.0
  {
    LedgerRecord(OpeningDate, row[6].value, row[10], Some(OpeningLabel), 0.0, 0.0, CleanNumber(row[14]))
  }

  /**
   * The record of a transaction row: date from column 2, description from
   * column 12, debit, credit and balance from columns 19, 21 and 23.
   */
  function TransactionRecord(row: Row, acct: Account): (r: LedgerRecord)
    requires IsTransactionRow(row, acct)
    ensures Account(Some(r.accountName), r.accountType) == acct && r.accountName != ""
    ensures r.date == FormatDate(Text(row[2].value)) && r.description == row[12]
    ensures r.debit == CleanNumber(row[19]) && r.credit == CleanNumber(row[21])
    ensures r.balance == CleanNumber(row[23])
    ensures row[19].None? ==> r.debit == 0.0
    ensures row[21].None? ==> r.credit == 0.0
    ensures row[23].None? ==> r.balance == 0.0
  {
    LedgerRecord(FormatDate(Text(row[2].value)), acct.name.value, acct.kind, row[12],
                 CleanNumber(row[19]), CleanNumber(row[21]), CleanNumber(row[23]))
  }

  // ---------------------------------------------------------------------------
  // The walk as a fold
  // ---------------------------------------------------------------------------

  /** What one row emits, given the context before it; the header test comes first. */
  function Emitted(acct: Account, row: Row): (out: seq<LedgerRecord>)
    ensures |out| <= 1
    ensures out != [] <==> IsAccountHeader(row) || IsTransactionRow(row, acct)
  {
    if IsAccountHeader(row) then [OpeningRecord(row)]
    else if IsTransactionRow(row, acct) then [TransactionRecord(row, acct)]
    else []
  }

  /** The context after one row: only a header row changes it. */
  function Next(acct: Account, row: Row): (next: Account)
    ensures !IsAccountHeader(row) ==> next == acct
    ensures IsAccountHeader(row) ==> next.name == row[6] && next.kind == row[10]
  {
    if IsAccountHeader(row) then HeaderAccount(row) else acct
  }

  /** The records the walk emits for `rows`, starting from context `acct`. */
  function Walk(acct: Account, rows: seq<Row>): (records: seq<LedgerRecord>)
    ensures |records| <= |rows|
    decreases |rows|
  {
    if rows == [] then [] else Emitted(acct, rows[0]) + Walk(Next(acct, rows[0]), rows[1..])
  }

  /** The context after walking `rows` from `acct`. */
  function After(acct: Account, rows: seq<Row>): Account
    decreases |rows|
  {
    if rows == [] then acct else After(Next(acct, rows[0]), rows[1..])
  }

  /** The records `parse_ledger` collects for a grid. */
  function Records(grid: seq<Row>): seq<LedgerRecord> {
    Walk(NoAccount, grid)
  }

  /**
   * The loop of `parse_ledger`: the current account lives in two variables
   * and records are appended in place, row by row.
   */
  method ParseLedger(grid: seq<Row>) returns (records: seq<LedgerRecord>)
    ensures records == Records(grid)
  {
    records := [];
    var currentName: Option<string> := None;
    var currentType: Option<string> := None;
    var i := 0;
    assert grid[i..] == grid;
    while i < |grid|
      invariant 0 <= i <= |grid|
      invariant records + Walk(Account(currentName, currentType), grid[i..]) == Records(grid)
    {
      WalkInvariantStep(records, Account(currentName, currentType), grid, i);
      var emitted;
      emitted, currentName, currentType := VisitRow(grid[i], currentName, currentType);
      records := records + emitted;
      i := i + 1;
    }
    assert records + [] == records;
  }

  /**
   * The body of the loop for one row: a header row replaces the current
   * account and yields its opening record; a transaction row yields its
   * record; any other row yields nothing.
   */
  method VisitRow(row: Row, currentName: Option<string>, currentType: Option<string>)
    returns (emitted: seq<LedgerRecord>, name: Option<string>, kind: Option<string>)
    ensures emitted == Emitted(Account(currentName, currentType), row)
    ensures Account(name, kind) == Next(Account(currentName, currentType), row)
  {
    name, kind := currentName, currentType;
    if row[1].Some? && row[0].None? && row[6].Some? {
      name := row[6];
      kind := row[10];
      emitted := [OpeningRecord(row)];
    } else if row[2].Some? && Strip(row[2].value) != DateHeaderWord
              && currentName.Some? && currentName.value != "" {
      emitted := [TransactionRecord(row, Account(currentName, currentType))];
    } else {
      emitted := [];
    }
  }

  /** One iteration of the walk, at row `i` of the grid. */
  lemma WalkStep(acct: Account, grid: seq<Row>, i: nat)
    requires i < |grid|
    ensures Walk(acct, grid[i..]) == Emitted(acct, grid[i]) + Walk(Next(acct, grid[i]), grid[i + 1..])
  {
    assert grid[i..][1..] == grid[i + 1..];
  }

  /** The loop invariant of `ParseLedger` survives one row. */
  lemma WalkInvariantStep(before: seq<LedgerRecord>, acct: Account, grid: seq<Row>, i: nat)
    requires i < |grid|
    requires before + Walk(acct, grid[i..]) == Records(grid)
    ensures before + Emitted(acct, grid[i]) + Walk(Next(acct, grid[i]), grid[i + 1..]) == Records(grid)
  {
    WalkStep(acct, grid, i);
    var e, w := Emitted(acct, grid[i]), Walk(Next(acct, grid[i]), grid[i + 1..]);
    assert before + e + w == before + (e + w);
  }

  // ---------------------------------------------------------------------------
  // Properties of the walk
  // ---------------------------------------------------------------------------

  /** Walking two stretches of rows is walking the first, then the second from where it left off. */
  lemma {:induction false} WalkAppend(acct: Account, a: seq<Row>, b: seq<Row>)
    ensures Walk(acct, a + b) == Walk(acct, a) + Walk(After(acct, a), b)
    ensures After(acct, a + b) == After(After(acct, a), b)
    decreases |a|
  {
    if a == [] {
      assert a + b == b;
    } else {
      assert (a + b)[0] == a[0];
      assert (a + b)[1..] == a[1..] + b;
      WalkAppend(Next(acct, a[0]), a[1..], b);
    }
  }

  /** The index of the last account-header row among `rows`, or -1 when there is none. */
  function LastHeaderAt(rows: seq<Row>): (k: int)
    ensures -1 <= k < |rows|
    ensures k >= 0 ==> IsAccountHeader(rows[k])
    ensures forall j :: k < j < |rows| ==> !IsAccountHeader(rows[j])
    decreases |rows|
  {
    if rows == [] then -1
    else if IsAccountHeader(rows[|rows| - 1]) then |rows| - 1
    else LastHeaderAt(rows[..|rows| - 1])
  }

  /** The account that the last header row among `rows` opens, or no account. */
  function ContextOf(rows: seq<Row>): Account {
    var k := LastHeaderAt(rows);
    if k >= 0 then HeaderAccount(rows[k]) else NoAccount
  }

  /** The context after any prefix of the grid is the one its last header row set. */
  lemma {:induction false} ContextIsLastHeader(rows: seq<Row>)
    ensures After(NoAccount, rows) == ContextOf(rows)
    decreases |rows|
  {
    if rows != [] {
      var init, last := rows[..|rows| - 1], rows[|rows| - 1];
      assert rows == init + [last];
      WalkAppend(NoAccount, init, [last]);
      ContextIsLastHeader(init);
      assert [last][1..] == [];
      assert rows[..|rows| - 1] == init;
      var k := LastHeaderAt(init);
      assert !IsAccountHeader(last) ==> LastHeaderAt(rows) == k && (k >= 0 ==> rows[k] == init[k]);
    }
  }

  /**
   * Reference definition, row by row: what row `i` emits, judged from the
   * last header row above it.
   */
  function RowRecords(grid: seq<Row>, i: nat): seq<LedgerRecord>
    requires i < |grid|
  {
    Emitted(ContextOf(grid[..i]), grid[i])
  }

  /** The rows' outputs, concatenated in grid order. */
  function ReferenceRecords(grid: seq<Row>): seq<LedgerRecord> {
    if grid == [] then [] else ReferenceRecords(grid[..|grid| - 1]) + RowRecords(grid, |grid| - 1)
  }

  /**
   * The walk emits, in grid order, each row's own output judged from the last
   * header row above it: records keep row order, and every transaction is
   * attributed to the most recent account header.
   */
  lemma {:induction false} RecordsRowByRow(grid: seq<Row>)
    ensures Records(grid) == ReferenceRecords(grid)
    decreases |grid|
  {
    if grid != [] {
      var init, last := grid[..|grid| - 1], grid[|grid| - 1];
      assert grid == init + [last];
      WalkAppend(NoAccount, init, [last]);
      ContextIsLastHeader(init);
      RecordsRowByRow(init);
      assert grid[..|grid| - 1] == init;
      assert [last][1..] == [];
    }
  }

  /** Rows above the first account header emit nothing: the walk starts over at it. */
  lemma OrphanRowsDropped(grid: seq<Row>, k: nat)
    requires k <= |grid|
    requires forall i :: 0 <= i < k ==> !IsAccountHeader(grid[i])
    ensures Records(grid) == Records(grid[k..])
  {
    OrphansEmitNothing(grid[..k]);
    assert grid == grid[..k] + grid[k..];
    WalkAppend(NoAccount, grid[..k], grid[k..]);
  }

  lemma {:induction false} OrphansEmitNothing(rows: seq<Row>)
    requires forall i :: 0 <= i < |rows| ==> !IsAccountHeader(rows[i])
    ensures Walk(NoAccount, rows) == [] && After(NoAccount, rows) == NoAccount
    decreases |rows|
  {
    if rows != [] {
      assert !IsAccountHeader(rows[0]);
      OrphansEmitNothing(rows[1..]);
    }
  }

  /**
   * A header row resets the context whatever came before: it emits its
   * opening record, and the rows after it are walked under its account alone.
   */
  lemma HeaderResetsContext(before: seq<Row>, header: Row, after: seq<Row>)
    requires IsAccountHeader(header)
    ensures Records(before + [header] + after)
         == Records(before) + [OpeningRecord(header)] + Walk(HeaderAccount(header), after)
  {
    var ctx := After(NoAccount, before);
    WalkAppend(NoAccount, before + [header], after);
    WalkAppend(NoAccount, before, [header]);
    assert [header][1..] == [];
    assert Walk(ctx, [header]) == [OpeningRecord(header)];
    assert After(ctx, [header]) == HeaderAccount(header);
  }

  /** An opening balance written the Indonesian way is carried over exactly. */
  lemma OpeningBalanceExact(row: Row, cents: int)
    requires IsAccountHeader(row) && row[14] == Some(IndonesianAmount(cents))
    ensures OpeningRecord(row).balance == cents as real / 100.0
  {
    IndonesianAmountRoundTrip(cents);
  }

  /** Debit, credit and balance written the Indonesian way are carried over exactly. */
  lemma TransactionAmountsExact(row: Row, acct: Account, debit: int, credit: int, balance: int)
    requires IsTransactionRow(row, acct)
    requires row[19] == Some(IndonesianAmount(debit)) && row[21] == Some(IndonesianAmount(credit))
    requires row[23] == Some(IndonesianAmount(balance))
    ensures TransactionRecord(row, acct).debit == debit as real / 100.0
    ensures TransactionRecord(row, acct).credit == credit as real / 100.0
    ensures TransactionRecord(row, acct).balance == balance as real / 100.0
  {
    IndonesianAmountRoundTrip(debit);
    IndonesianAmountRoundTrip(credit);
    IndonesianAmountRoundTrip(balance);
  }

  /**
   * The header test comes first: a header row opens its account and emits
   * only its opening record, even when its column 2 would also pass the
   * transaction test.
   */
  lemma HeaderTakesPrecedence(acct: Account, row: Row)
    requires IsAccountHeader(row) && IsTransactionRow(row, acct)
    ensures Emitted(acct, row) == [OpeningRecord(row)]
    ensures Next(acct, row) == HeaderAccount(row)
  {
  }

  /**
   * The column-caption row, whose column 2 reads `Tanggal` with any
   * whitespace around it, emits nothing and keeps the context.
   */
  lemma CaptionRowIgnored(acct: Account, row: Row, lead: string, trail: string)
    requires !IsAccountHeader(row)
    requires AllSpace(lead) && AllSpace(trail) && row[2] == Some(lead + DateHeaderWord + trail)
    ensures Emitted(acct, row) == [] && Next(acct, row) == acct
  {
    StripFrame(lead, DateHeaderWord, trail);
    StripUnchanged(DateHeaderWord);
  }

  /** An empty account name is falsy: no transaction is recorded under it. */
  lemma EmptyNameRecordsNothing(kind: Option<string>, row: Row)
    requires !IsAccountHeader(row)
    ensures Emitted(Account(Some(""), kind), row) == []
  {
  }

  /** A header row on its own gives its opening record and its account. */
  lemma HeaderAlone(header: Row)
    requires IsAccountHeader(header)
    ensures Walk(NoAccount, [header]) == [OpeningRecord(header)]
    ensures After(NoAccount, [header]) == HeaderAccount(header)
  {
    assert [header][1..] == [];
  }

  /** Every row of `txs` is a transaction row under `acct`, and none is a header. */
  predicate AllTransactions(acct: Account, txs: seq<Row>)
    decreases |txs|
  {
    txs == [] || (!IsAccountHeader(txs[0]) && IsTransactionRow(txs[0], acct) && AllTransactions(acct, txs[1..]))
  }

  /** Reference definition: one transaction record per row, in row order. */
  function TransactionRecords(acct: Account, txs: seq<Row>): seq<LedgerRecord>
    requires AllTransactions(acct, txs)
    decreases |txs|
  {
    if txs == [] then [] else [TransactionRecord(txs[0], acct)] + TransactionRecords(acct, txs[1..])
  }

  /**
   * A run of rows that are all transactions under one account is walked
   * without changing the context, one record per row.
   */
  lemma {:induction false} TransactionsUnder(acct: Account, txs: seq<Row>)
    requires AllTransactions(acct, txs)
    ensures Walk(acct, txs) == TransactionRecords(acct, txs)
    ensures After(acct, txs) == acct
    decreases |txs|
  {
    if txs != [] {
      TransactionsUnder(acct, txs[1..]);
    }
  }

  /**
   * One account block: a header row followed by transaction rows gives the
   * opening-balance record and then one record per transaction, in order,
   * each under the header's account.
   */
  lemma AccountBlock(header: Row, txs: seq<Row>)
    requires IsAccountHeader(header) && AllTransactions(HeaderAccount(header), txs)
    ensures Records([header] + txs) == [OpeningRecord(header)] + TransactionRecords(HeaderAccount(header), txs)
  {
    var acct := HeaderAccount(header);
    WalkAppend(NoAccount, [header], txs);
    HeaderAlone(header);
    TransactionsUnder(acct, txs);
  }

}
