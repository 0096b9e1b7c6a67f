/** The dashboard's queries: `buscar_transacoes` with its optional filters,
    left joins and raw-text ordering, the month summary built on it, and the
    running balance drawn under it. */
module Dashboard {
  import opened Wrappers
  import opened Sums
  import opened Sorting
  import opened Tables
  import opened Filtering
  import opened Ledger
  import opened Calendar
  import opened Timestamps
  import opened Windows
  import opened Listing
  import opened Summaries

  /** One row of `buscar_transacoes`. */
  datatype DashboardRow = DashboardRow(
    id: int,
    date: string,
    kind: Kind,
    amount: real,
    sourceName: Option<string>,
    destinationName: Option<string>,
    categoryName: Option<string>,
    memo: Option<string>)

  /** A transaction with the names of its accounts and category joined in. */
  function Enrich(s: Store, t: Transaction): DashboardRow {
    DashboardRow(t.id, t.date, t.kind, t.amount,
      JoinedName(s.accounts, Some(t.source), (a: Account) => a.name),
      JoinedName(s.accounts, t.destination, (a: Account) => a.name),
      JoinedName(s.categories, t.category, (c: Category) => c.name), t.memo)
  }

  /** Python truthiness of an optional integer: `None` and 0 are false. */
  predicate Truthy(x: Option<int>) {
    x.Some? && x.value != 0
  }

  /** The `WHERE` clause `buscar_transacoes` builds: the account condition
      only when `conta_id` is truthy, the half-open month window only when
      both `ano` and `mes` are. */
  function SearchFilter(year: Option<int>, month: Option<int>, account: Option<int>): Transaction -> bool {
    (t: Transaction) =>
      && (Truthy(account) ==> Involves(t, account.value))
      && (Truthy(year) && Truthy(month) ==> InHalfOpen(HalfOpenBounds(year.value, month.value), t.date))
  }

  /** With a truthy year and month, a transaction stamped with `isoformat`
      text passes the filter exactly when it falls in that calendar month,
      and involves the account when a truthy one is given. */
  lemma SearchFilterStamped(year: int, month: int, account: Option<int>, t: Transaction, d: Date, c: Clock)
    requires 1 <= year && 1 <= month <= 12 && NextMonth(year, month).0 <= 9999
    requires ValidDate(d) && ValidClock(c) && t.date == IsoDateTime(d, c)
    ensures SearchFilter(Some(year), Some(month), account)(t) <==>
      && (Truthy(account) ==> Involves(t, account.value))
      && d.year == year && d.month == month
  {
    HalfOpenWindowDateTimes(year, month, d, c);
  }

  /** A transaction dated by the text menu (`YYYY-MM-DD`, no clock) passes
      the month filter from the 2nd of the month to the 1st of the next:
      the first day sorts below the window's `" 00:00:00"` bound. */
  lemma SearchFilterDated(year: int, month: int, t: Transaction, d: Date)
    requires 1 <= year && 1 <= month <= 12 && NextMonth(year, month).0 <= 9999
    requires ValidDate(d) && t.date == IsoDate(d)
    ensures var next := NextMonth(year, month);
      SearchFilter(Some(year), Some(month), None)(t) <==>
        (d.year == year && d.month == month && d.day >= 2) || d == Date(next.0, next.1, 1)
  {
    HalfOpenWindowDates(year, month, d);
  }

  /** `ORDER BY t.data DESC, t.id DESC` compares the raw date text. */
  function DateText(t: Transaction): string { t.date }

  function RowDate(row: DashboardRow): string { row.date }

  function RowId(row: DashboardRow): int { row.id }

  /** With no truthy filter argument every transaction is listed, each
      once. */
  lemma FalsyFiltersKeepAll(s: Store, year: Option<int>, month: Option<int>, account: Option<int>)
    requires !Truthy(account) && !(Truthy(year) && Truthy(month))
    ensures var r := SearchTransactions(s, year, month, account);
      && |r| == |s.log|
      && forall t :: t in s.log ==> Enrich(s, t) in r
  {
    FilterAll(s.log, SearchFilter(year, month, account));
  }

  /** The transactions `buscar_transacoes` selects, in its order. */
  function SearchLog(s: Store, year: Option<int>, month: Option<int>, account: Option<int>): (ts: seq<Transaction>)
    ensures forall t :: t in ts <==> t in s.log && SearchFilter(year, month, account)(t)
    ensures multiset(ts) == multiset(Filter(s.log, SearchFilter(year, month, account)))
    ensures Sorted(Descending, DateText, IdOf, ts)
  {
    var kept := Filter(s.log, SearchFilter(year, month, account));
    var ts := Sort(Descending, DateText, IdOf, kept);
    SameRows(kept, ts);
    ts
  }

  function EnrichAll(s: Store, ts: seq<Transaction>): (rows: seq<DashboardRow>)
    ensures |rows| == |ts|
    ensures forall i :: 0 <= i < |ts| ==> rows[i] == Enrich(s, ts[i])
  {
    seq(|ts|, i requires 0 <= i < |ts| => Enrich(s, ts[i]))
  }

  lemma EnrichKeepsRows(s: Store, ts: seq<Transaction>)
    ensures forall t :: t in ts ==> Enrich(s, t) in EnrichAll(s, ts)
    ensures forall row :: row in EnrichAll(s, ts) ==> exists t :: t in ts && row == Enrich(s, t)
  {
    var rows := EnrichAll(s, ts);
    forall t | t in ts
      ensures Enrich(s, t) in rows
    {
      var k :| 0 <= k < |ts| && ts[k] == t;
      assert rows[k] == Enrich(s, t);
    }
  }

  lemma EnrichKeepsOrder(s: Store, ts: seq<Transaction>)
    requires Sorted(Descending, DateText, IdOf, ts)
    ensures Sorted(Descending, RowDate, RowId, EnrichAll(s, ts))
  {
    var rows := EnrichAll(s, ts);
    forall i, j | 0 <= i < j < |rows|
      ensures !Before(Descending, RowDate, RowId, rows[j], rows[i])
    {
      assert !Before(Descending, DateText, IdOf, ts[j], ts[i]);
      assert RowDate(rows[i]) == DateText(ts[i]) && RowDate(rows[j]) == DateText(ts[j]);
    }
  }

  /** `buscar_transacoes`: one row per selected transaction, none dropped
      for a missing name, newest date text first and the larger id first on
      equal text. */
  function SearchTransactions(s: Store, year: Option<int>, month: Option<int>, account: Option<int>): (r: seq<DashboardRow>)
    ensures forall t :: t in s.log && SearchFilter(year, month, account)(t) ==> Enrich(s, t) in r
    ensures forall row :: row in r ==>
      exists t :: t in s.log && SearchFilter(year, month, account)(t) && row == Enrich(s, t)
    ensures |r| == |Filter(s.log, SearchFilter(year, month, account))|
    ensures Sorted(Descending, RowDate, RowId, r)
  {
    var ts := SearchLog(s, year, month, account);
    EnrichKeepsRows(s, ts);
    EnrichKeepsOrder(s, ts);
    assert |ts| == |multiset(ts)|;
    EnrichAll(s, ts)
  }

  function RowKind(row: DashboardRow): Kind { row.kind }

  function RowAmount(row: DashboardRow): real { row.amount }

  datatype DashboardTotals = DashboardTotals(income: real, expense: real, net: real, rows: seq<DashboardRow>)

  /** The dashboard's `resumo_mes`: the rows of the month (every row when
      `ano` or `mes` is 0) and the totals of their income and expense
      amounts. The totals equal those of the selected transactions in log
      order. */
  function DashboardSummary(s: Store, year: int, month: int): (r: DashboardTotals)
    ensures r.rows == SearchTransactions(s, Some(year), Some(month), None)
    ensures var kept := Filter(s.log, SearchFilter(Some(year), Some(month), None));
      && r.income == Total(kept, KindAmount(Income, KindOf, AmountOf))
      && r.expense == Total(kept, KindAmount(Expense, KindOf, AmountOf))
    ensures r.net == r.income - r.expense
    ensures r.net == Total(r.rows, Signed(RowKind, RowAmount))
  {
    var rows := SearchTransactions(s, Some(year), Some(month), None);
    var totals := Totals(rows, RowKind, RowAmount);
    DashboardTotalsFromLog(s, Some(year), Some(month), None);
    DashboardTotals(totals.income, totals.expense, totals.net, rows)
  }

  /** Summing the enriched rows sums the selected transactions. */
  lemma DashboardTotalsFromLog(s: Store, year: Option<int>, month: Option<int>, account: Option<int>)
    ensures var kept := Filter(s.log, SearchFilter(year, month, account));
            var rows := SearchTransactions(s, year, month, account);
      && Totals(rows, RowKind, RowAmount) == Totals(kept, KindOf, AmountOf)
  {
    var kept := Filter(s.log, SearchFilter(year, month, account));
    var ts := SearchLog(s, year, month, account);
    TotalsPermutation(kept, ts, KindOf, AmountOf);
    EnrichedTotals(s, ts);
  }

  lemma EnrichedTotals(s: Store, ts: seq<Transaction>)
    ensures Totals(EnrichAll(s, ts), RowKind, RowAmount) == Totals(ts, KindOf, AmountOf)
  {
    var rows := EnrichAll(s, ts);
    forall i | 0 <= i < |rows|
      ensures KindAmount(Income, RowKind, RowAmount)(rows[i]) == KindAmount(Income, KindOf, AmountOf)(ts[i])
      ensures KindAmount(Expense, RowKind, RowAmount)(rows[i]) == KindAmount(Expense, KindOf, AmountOf)(ts[i])
    {
      assert RowKind(rows[i]) == KindOf(ts[i]) && RowAmount(rows[i]) == AmountOf(ts[i]);
    }
    TotalPointwise(rows, KindAmount(Income, RowKind, RowAmount), ts, KindAmount(Income, KindOf, AmountOf));
    TotalPointwise(rows, KindAmount(Expense, RowKind, RowAmount), ts, KindAmount(Expense, KindOf, AmountOf));
  }

  /** The signed amount of a dashboard row. */
  function RowDelta(row: DashboardRow): real { Delta(row.kind, row.amount) }

  /** `df_plot["delta"].cumsum()`: entry `i` is the sum of the deltas of
      the first `i + 1` rows. */
  method RunningBalance(rows: seq<DashboardRow>) returns (sums: seq<real>)
    ensures |sums| == |rows|
    ensures forall i :: 0 <= i < |rows| ==> sums[i] == Total(rows[..i + 1], Signed(RowKind, RowAmount))
  {
    sums := [];
    var acc := 0.0;
    var i := 0;
    while i < |rows|
      invariant 0 <= i <= |rows|
      invariant |sums| == i
      invariant acc == Total(rows[..i], Signed(RowKind, RowAmount))
      invariant forall k :: 0 <= k < i ==> sums[k] == Total(rows[..k + 1], Signed(RowKind, RowAmount))
    {
      TotalConcat(rows[..i], [rows[i]], Signed(RowKind, RowAmount));
      assert rows[..i + 1] == rows[..i] + [rows[i]];
      assert [rows[i]][1..] == [];
      assert RowKind(rows[i]) == rows[i].kind && RowAmount(rows[i]) == rows[i].amount;
      assert Signed(RowKind, RowAmount)(rows[i]) == RowDelta(rows[i]);
      assert Total([rows[i]], Signed(RowKind, RowAmount)) == RowDelta(rows[i]);
      acc := acc + RowDelta(rows[i]);
      sums := sums + [acc];
      i := i + 1;
    }
  }

  /** The chart sorts the month's rows by date before accumulating; in
      whatever order it puts them, the last entry of the running balance
      (any `sums` meeting `RunningBalance`'s postcondition) is the month's
      net. */
  lemma RunningBalanceEndsAtNet(s: Store, year: int, month: int, chart: seq<DashboardRow>, sums: seq<real>)
    requires multiset(chart) == multiset(DashboardSummary(s, year, month).rows)
    requires |sums| == |chart| > 0
    requires forall i :: 0 <= i < |chart| ==> sums[i] == Total(chart[..i + 1], Signed(RowKind, RowAmount))
    ensures sums[|sums| - 1] == DashboardSummary(s, year, month).net
  {
    var r := DashboardSummary(s, year, month);
    assert chart[..|chart|] == chart;
    TotalPermutation(chart, r.rows, Signed(RowKind, RowAmount));
  }
}
