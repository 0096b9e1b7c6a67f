/** The listings of the command-line module: `listar_transacoes`,
    `listar_transacoes_mes`, `listar_contas` and `listar_categorias`. */
module Listing {
  import opened Wrappers
  import opened Text
  import opened Sorting
  import opened Filtering
  import opened SqlDateTime
  import opened Ledger
  import opened Windows
  import opened Balances
  import opened Tables
  import opened Timestamps
  import opened Recording

  function IdOf(t: Transaction): int { t.id }

  /** `datetime(data)`: the sort key of `listar_transacoes` and
      `listar_transacoes_mes`. */
  function TimestampKey(t: Transaction): string { DateTimeKey(t.date) }

  /** A transaction recorded without a date is stamped with the `isoformat`
      text of the clock, and sorts at exactly that instant. */
  lemma UndatedSortsAtNow(t: Transaction, date: Option<string>, d: Date, c: Clock)
    requires date.None? || date == Some("")
    requires ValidDate(d) && ValidClock(c) && t.date == RecordedDate(date, IsoDateTime(d, c))
    ensures TimestampKey(t) == Canonical(d, c)
  {
    KeyOfDateTime(d, c);
  }

  /** `conta_origem_id = ? OR conta_destino_id = ?`. */
  predicate Involves(t: Transaction, account: int) {
    t.source == account || t.destination == Some(account)
  }

  /** The account filter of `listar_transacoes`, applied when the id is not
      `None`. */
  function AccountFilter(account: Option<int>): Transaction -> bool {
    (t: Transaction) => account.None? || Involves(t, account.value)
  }

  /** `listar_transacoes`: the transactions touching `account` (all of them
      when no account is given), newest `datetime(data)` first and, among
      equal timestamps, the larger id first. */
  function ListTransactions(s: Store, account: Option<int>): (r: seq<Transaction>)
    ensures forall t :: t in r <==> t in s.log && (account.Some? ==> Involves(t, account.value))
    ensures forall t :: multiset(r)[t] == if account.None? || Involves(t, account.value) then multiset(s.log)[t] else 0
    ensures Sorted(Descending, TimestampKey, IdOf, r)
  {
    var kept := Filter(s.log, AccountFilter(account));
    var r := Sort(Descending, TimestampKey, IdOf, kept);
    SameRows(kept, r);
    r
  }

  /** Log ids increase strictly, so no transaction occurs twice. */
  lemma LogHasNoDuplicates(s: Store)
    requires Valid(s)
    ensures NoDuplicates(s.log)
  {
  }

  /** Two listed transactions with the same id are the same transaction. */
  lemma ListedIdsDistinct(s: Store, r: seq<Transaction>)
    requires Valid(s)
    requires forall t :: multiset(r)[t] <= multiset(s.log)[t]
    ensures forall i, j :: 0 <= i < j < |r| ==> r[i].id != r[j].id
  {
    LogHasNoDuplicates(s);
    forall i, j | 0 <= i < j < |r|
      ensures r[i].id != r[j].id
    {
      assert r[i] in multiset(r) && r[j] in multiset(r);
      var p :| 0 <= p < |s.log| && s.log[p] == r[i];
      var q :| 0 <= q < |s.log| && s.log[q] == r[j];
      CountAtLeastTwo(r, i, j);
      NoDuplicatesCount(s.log, r[i]);
      if p < q {
        assert s.log[p].id < s.log[q].id;
      } else if q < p {
        assert s.log[q].id < s.log[p].id;
      }
    }
  }

  /** In a listing of a valid store the later timestamp comes first, and on
      equal timestamps the larger id. */
  lemma ListedNewestFirst(s: Store, account: Option<int>)
    requires Valid(s)
    ensures var r := ListTransactions(s, account);
            forall i, j :: 0 <= i < j < |r| ==>
              TextLt(TimestampKey(r[j]), TimestampKey(r[i]))
              || (TimestampKey(r[j]) == TimestampKey(r[i]) && r[j].id < r[i].id)
  {
    var r := ListTransactions(s, account);
    ListedIdsDistinct(s, r);
    forall i, j | 0 <= i < j < |r|
      ensures TextLt(TimestampKey(r[j]), TimestampKey(r[i]))
              || (TimestampKey(r[j]) == TimestampKey(r[i]) && r[j].id < r[i].id)
    {
      assert !Before(Descending, TimestampKey, IdOf, r[j], r[i]);
      if TimestampKey(r[j]) != TimestampKey(r[i]) {
        TextLtTotal(TimestampKey(r[j]), TimestampKey(r[i]));
      }
    }
  }

  /** The listing is determined by its contract: any sequence holding the
      same transactions in the same order is the listing itself. */
  lemma ListTransactionsUnique(s: Store, account: Option<int>, xs: seq<Transaction>)
    requires Valid(s)
    requires forall t :: multiset(xs)[t] == if account.None? || Involves(t, account.value) then multiset(s.log)[t] else 0
    requires Sorted(Descending, TimestampKey, IdOf, xs)
    ensures xs == ListTransactions(s, account)
  {
    var r := ListTransactions(s, account);
    assert multiset(xs) == multiset(r) by {
      forall t
        ensures multiset(xs)[t] == multiset(r)[t]
      {
      }
    }
    ListedIdsDistinct(s, r);
    SortedUnique(Descending, TimestampKey, IdOf, r, xs);
  }

  /** One row of `listar_transacoes_mes`. */
  datatype MonthRow = MonthRow(
    id: int,
    date: string,
    kind: Kind,
    amount: real,
    categoryName: Option<string>,
    memo: Option<string>)

  function MonthRowOf(categories: map<int, Category>, t: Transaction): MonthRow {
    MonthRow(t.id, t.date, t.kind, t.amount, JoinedName(categories, t.category, (c: Category) => c.name), t.memo)
  }

  function RowKey(row: MonthRow): string { DateTimeKey(row.date) }

  function RowId(row: MonthRow): int { row.id }

  /** `WHERE t.data BETWEEN ? AND ?`. */
  function ClosedFilter(b: Bounds): Transaction -> bool {
    (t: Transaction) => InClosed(b, t.date)
  }

  /** The transactions of the closed window, newest first. */
  function ClosedMonthLog(s: Store, b: Bounds): (ts: seq<Transaction>)
    ensures forall t :: t in ts <==> t in s.log && InClosed(b, t.date)
    ensures multiset(ts) == multiset(Filter(s.log, ClosedFilter(b)))
    ensures |ts| == |Filter(s.log, ClosedFilter(b))|
    ensures Sorted(Descending, TimestampKey, IdOf, ts)
  {
    var kept := Filter(s.log, ClosedFilter(b));
    var ts := Sort(Descending, TimestampKey, IdOf, kept);
    SameRows(kept, ts);
    ts
  }

  /** Joining the category names in keeps every row, in its place. */
  function JoinCategories(categories: map<int, Category>, ts: seq<Transaction>): (rows: seq<MonthRow>)
    ensures |rows| == |ts|
    ensures forall i :: 0 <= i < |ts| ==> rows[i] == MonthRowOf(categories, ts[i])
  {
    seq(|ts|, i requires 0 <= i < |ts| => MonthRowOf(categories, ts[i]))
  }

  lemma JoinKeepsRows(categories: map<int, Category>, ts: seq<Transaction>)
    ensures forall t :: t in ts ==> MonthRowOf(categories, t) in JoinCategories(categories, ts)
  {
    var rows := JoinCategories(categories, ts);
    forall t | t in ts
      ensures MonthRowOf(categories, t) in rows
    {
      var k :| 0 <= k < |ts| && ts[k] == t;
      assert rows[k] == MonthRowOf(categories, t);
    }
  }

  lemma JoinAddsNoRows(categories: map<int, Category>, ts: seq<Transaction>)
    ensures forall row :: row in JoinCategories(categories, ts) ==>
      exists t :: t in ts && row == MonthRowOf(categories, t)
  {
  }

  lemma JoinKeepsOrder(categories: map<int, Category>, ts: seq<Transaction>)
    requires Sorted(Descending, TimestampKey, IdOf, ts)
    ensures Sorted(Descending, RowKey, RowId, JoinCategories(categories, ts))
  {
    var rows := JoinCategories(categories, ts);
    forall i, j | 0 <= i < j < |rows|
      ensures !Before(Descending, RowKey, RowId, rows[j], rows[i])
    {
      assert !Before(Descending, TimestampKey, IdOf, ts[j], ts[i]);
      assert RowKey(rows[i]) == TimestampKey(ts[i]) && RowKey(rows[j]) == TimestampKey(ts[j]);
    }
  }

  /** `listar_transacoes_mes`: one row per transaction whose date text lies
      in the closed window of the month, with the category's name joined in,
      newest first; a month outside 1..12 is an error. */
  function ListTransactionsMonth(s: Store, year: int, month: int): (r: Result<seq<MonthRow>, LedgerError>)
    ensures r.Ok? <==> 1 <= month <= 12
    ensures r.Err? ==> r.error == IllegalMonth(month)
    ensures r.Ok? ==> var b := ClosedBounds(year, month).value;
      && (forall t :: t in s.log && InClosed(b, t.date) ==> MonthRowOf(s.categories, t) in r.value)
      && (forall row :: row in r.value ==>
            exists t :: t in s.log && InClosed(b, t.date) && row == MonthRowOf(s.categories, t))
      && |r.value| == |Filter(s.log, ClosedFilter(b))|
      && Sorted(Descending, RowKey, RowId, r.value)
  {
    match ClosedBounds(year, month)
    case Err(e) => Err(e)
    case Ok(b) =>
      var ts := ClosedMonthLog(s, b);
      JoinKeepsRows(s.categories, ts);
      JoinAddsNoRows(s.categories, ts);
      JoinKeepsOrder(s.categories, ts);
      Ok(JoinCategories(s.categories, ts))
  }

  /** One row of `listar_contas`. */
  datatype AccountRow = AccountRow(id: int, name: string, initialBalance: real, currentBalance: real)

  function AccountRowName(row: AccountRow): string { row.name }

  function AccountRowId(row: AccountRow): int { row.id }

  function AccountRowOf(s: Store, a: int): AccountRow
    requires a in s.accounts
  {
    AccountRow(a, s.accounts[a].name, s.accounts[a].initialBalance, Balance(s, a).value)
  }

  /** `listar_contas`: every account once, ordered by name (and by id among
      equal names), each with its current balance. */
  method ListAccounts(s: Store) returns (r: seq<AccountRow>)
    ensures |r| == |s.accounts|
    ensures forall a :: a in s.accounts ==> AccountRowOf(s, a) in r
    ensures forall row :: row in r ==>
      && row.id in s.accounts
      && row.name == s.accounts[row.id].name
      && row.initialBalance == s.accounts[row.id].initialBalance
      && Balance(s, row.id) == Ok(row.currentBalance)
    ensures forall i, j :: 0 <= i < j < |r| ==> r[i].id != r[j].id
    ensures Sorted(Ascending, AccountRowName, AccountRowId, r)
  {
    var ids := TableIds(s.accounts);
    var rows := AccountRows(s, ids);
    r := Sort(Ascending, AccountRowName, AccountRowId, rows);
    DistinctKeysSubMultiset(rows, r, AccountRowId);
    SameRows(rows, r);
  }

  /** The rows of the accounts `ids`, in that order. */
  function AccountRows(s: Store, ids: seq<int>): (rows: seq<AccountRow>)
    requires forall k :: k in ids <==> k in s.accounts
    requires NoDuplicates(ids)
    ensures |rows| == |ids|
    ensures forall a :: a in s.accounts ==> AccountRowOf(s, a) in rows
    ensures forall row :: row in rows ==> row.id in s.accounts && row == AccountRowOf(s, row.id)
    ensures forall i, j :: 0 <= i < j < |rows| ==> rows[i].id != rows[j].id
  {
    var rows := seq(|ids|, i requires 0 <= i < |ids| => AccountRowOf(s, ids[i]));
    assert forall a :: a in s.accounts ==> AccountRowOf(s, a) in rows by {
      forall a | a in s.accounts
        ensures AccountRowOf(s, a) in rows
      {
        var k :| 0 <= k < |ids| && ids[k] == a;
        assert rows[k] == AccountRowOf(s, a);
      }
    }
    rows
  }

  /** One row of `listar_categorias`. */
  datatype CategoryRow = CategoryRow(id: int, name: string, kind: Kind)

  function CategoryRowName(row: CategoryRow): string { row.name }

  function CategoryRowId(row: CategoryRow): int { row.id }

  function CategoryRowOf(s: Store, c: int): CategoryRow
    requires c in s.categories
  {
    CategoryRow(c, s.categories[c].name, s.categories[c].kind)
  }

  /** `if tipo:` adds `WHERE tipo = ?` only for a non-empty kind text. */
  predicate KindSelected(kind: Option<string>, k: Kind) {
    kind.None? || kind.value == "" || KindText(k) == kind.value
  }

  /** `listar_categorias`: the categories of the requested kind (all of them
      when the kind is absent or empty), each once, ordered by name (and by
      id among equal names). */
  method ListCategories(s: Store, kind: Option<string>) returns (r: seq<CategoryRow>)
    ensures forall c :: c in s.categories ==>
      (CategoryRowOf(s, c) in r <==> KindSelected(kind, s.categories[c].kind))
    ensures forall row :: row in r ==>
      row.id in s.categories && s.categories[row.id] == Category(row.name, row.kind) && KindSelected(kind, row.kind)
    ensures forall i, j :: 0 <= i < j < |r| ==> r[i].id != r[j].id
    ensures Sorted(Ascending, CategoryRowName, CategoryRowId, r)
  {
    var selected := SelectCategories(s, kind);
    var rows := CategoryRows(s, selected);
    r := Sort(Ascending, CategoryRowName, CategoryRowId, rows);
    DistinctKeysSubMultiset(rows, r, CategoryRowId);
    SameRows(rows, r);
  }

  /** The ids of the categories of the requested kind, each once. */
  method SelectCategories(s: Store, kind: Option<string>) returns (selected: seq<int>)
    ensures forall c :: c in selected <==> c in s.categories && KindSelected(kind, s.categories[c].kind)
    ensures NoDuplicates(selected)
  {
    var ids := TableIds(s.categories);
    var wanted := (c: int) => c in s.categories && KindSelected(kind, s.categories[c].kind);
    selected := Filter(ids, wanted);
    NoDuplicatesSubMultiset(ids, selected);
  }

  /** The rows of the categories `ids`, in that order. */
  function CategoryRows(s: Store, ids: seq<int>): (rows: seq<CategoryRow>)
    requires forall k :: k in ids ==> k in s.categories
    requires NoDuplicates(ids)
    ensures forall c :: c in ids ==> CategoryRowOf(s, c) in rows
    ensures forall row :: row in rows ==> row.id in ids && row == CategoryRowOf(s, row.id)
    ensures forall i, j :: 0 <= i < j < |rows| ==> rows[i].id != rows[j].id
  {
    var rows := seq(|ids|, i requires 0 <= i < |ids| => CategoryRowOf(s, ids[i]));
    assert forall c :: c in ids ==> CategoryRowOf(s, c) in rows by {
      forall c | c in ids
        ensures CategoryRowOf(s, c) in rows
      {
        var k :| 0 <= k < |ids| && ids[k] == c;
        assert rows[k] == CategoryRowOf(s, c);
      }
    }
    rows
  }


}
