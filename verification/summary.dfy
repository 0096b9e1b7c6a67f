/** Month totals: income, expense and their difference over the rows of a
    month, with transfers counted in neither. The command-line `resumo_mes`
    sums the transactions of the closed window; the dashboard sums its rows. */
module Summaries {
  import opened Wrappers
  import opened Sums
  import opened Filtering
  import opened Ledger
  import opened Windows
  import opened Listing

  datatype MonthTotals = MonthTotals(income: real, expense: real, net: real)

  /** `CASE WHEN tipo = kind THEN valor END`: the amount of a row of `kind`,
      nothing for the others. */
  function KindAmount<T>(kind: Kind, kindOf: T -> Kind, amountOf: T -> real): T -> real {
    (x: T) => if kindOf(x) == kind then amountOf(x) else 0.0
  }

  /** The dashboard's per-row delta: `+valor` for income, `-valor` for
      expense, 0 for a transfer. */
  function Delta(kind: Kind, amount: real): (r: real)
    ensures r == (if kind == Income then amount else 0.0) - (if kind == Expense then amount else 0.0)
    ensures kind == Transfer ==> r == 0.0
  {
    match kind
    case Income => amount
    case Expense => -amount
    case Transfer => 0.0
  }

  function Signed<T>(kindOf: T -> Kind, amountOf: T -> real): T -> real {
    (x: T) => Delta(kindOf(x), amountOf(x))
  }

  /** Income minus expense is the sum of the signed amounts. */
  lemma {:induction false} NetIsSignedTotal<T>(s: seq<T>, kindOf: T -> Kind, amountOf: T -> real)
    ensures Total(s, KindAmount(Income, kindOf, amountOf)) - Total(s, KindAmount(Expense, kindOf, amountOf))
            == Total(s, Signed(kindOf, amountOf))
    decreases |s|
  {
    if |s| > 0 {
      NetIsSignedTotal(s[1..], kindOf, amountOf);
    }
  }

  /** The three totals of some rows: income and expense summed by kind, net
      their difference, which is also the sum of the signed amounts. */
  function Totals<T>(s: seq<T>, kindOf: T -> Kind, amountOf: T -> real): (r: MonthTotals)
    ensures r.income == Total(s, KindAmount(Income, kindOf, amountOf))
    ensures r.expense == Total(s, KindAmount(Expense, kindOf, amountOf))
    ensures r.net == r.income - r.expense
    ensures r.net == Total(s, Signed(kindOf, amountOf))
  {
    var income := Total(s, KindAmount(Income, kindOf, amountOf));
    var expense := Total(s, KindAmount(Expense, kindOf, amountOf));
    NetIsSignedTotal(s, kindOf, amountOf);
    MonthTotals(income, expense, income - expense)
  }

  /** Appending a row adds its amount to the total of its kind and its
      signed amount to the net. */
  lemma TotalsAppend<T>(s: seq<T>, x: T, kindOf: T -> Kind, amountOf: T -> real)
    ensures var before, after := Totals(s, kindOf, amountOf), Totals(s + [x], kindOf, amountOf);
      && after.income == before.income + (if kindOf(x) == Income then amountOf(x) else 0.0)
      && after.expense == before.expense + (if kindOf(x) == Expense then amountOf(x) else 0.0)
      && after.net == before.net + Delta(kindOf(x), amountOf(x))
  {
    TotalConcat(s, [x], KindAmount(Income, kindOf, amountOf));
    TotalConcat(s, [x], KindAmount(Expense, kindOf, amountOf));
    TotalConcat(s, [x], Signed(kindOf, amountOf));
  }

  /** Totals do not depend on the order of the rows. */
  lemma TotalsPermutation<T>(a: seq<T>, b: seq<T>, kindOf: T -> Kind, amountOf: T -> real)
    requires multiset(a) == multiset(b)
    ensures Totals(a, kindOf, amountOf) == Totals(b, kindOf, amountOf)
  {
    TotalPermutation(a, b, KindAmount(Income, kindOf, amountOf));
    TotalPermutation(a, b, KindAmount(Expense, kindOf, amountOf));
  }

  /** `resumo_mes`: income, expense and net of the transactions in the
      closed window of the month; a month outside 1..12 is an error. The
      totals are those of the rows `listar_transacoes_mes` lists. */
  function MonthSummary(s: Store, year: int, month: int): (r: Result<MonthTotals, LedgerError>)
    ensures r.Ok? <==> 1 <= month <= 12
    ensures r.Err? ==> r.error == IllegalMonth(month)
    ensures r.Ok? ==> var listed := ClosedMonthLog(s, ClosedBounds(year, month).value);
      && r.value.income == Total(listed, KindAmount(Income, KindOf, AmountOf))
      && r.value.expense == Total(listed, KindAmount(Expense, KindOf, AmountOf))
      && r.value.net == r.value.income - r.value.expense
      && r.value.net == Total(listed, Signed(KindOf, AmountOf))
  {
    match ClosedBounds(year, month)
    case Err(e) => Err(e)
    case Ok(b) =>
      var kept := Filter(s.log, ClosedFilter(b));
      TotalsPermutation(kept, ClosedMonthLog(s, b), KindOf, AmountOf);
      Ok(Totals(kept, KindOf, AmountOf))
  }

  /** A transaction counts in the month summary exactly when its date text
      is in the window, and then only in the total of its own kind; a
      transfer changes no total. */
  lemma MonthSummaryAppend(s: Store, t: Transaction, year: int, month: int)
    requires 1 <= month <= 12
    ensures var before, after := MonthSummary(s, year, month).value, MonthSummary(s.(log := s.log + [t]), year, month).value;
      var counted := InClosed(ClosedBounds(year, month).value, t.date);
      && after.income == before.income + (if counted && t.kind == Income then t.amount else 0.0)
      && after.expense == before.expense + (if counted && t.kind == Expense then t.amount else 0.0)
      && after.net == before.net + (if counted then Delta(t.kind, t.amount) else 0.0)
  {
    var b := ClosedBounds(year, month).value;
    var s' := s.(log := s.log + [t]);
    var kept := Filter(s.log, ClosedFilter(b));
    FilterAppend(s.log, t, ClosedFilter(b));
    TotalsPermutation(kept, ClosedMonthLog(s, b), KindOf, AmountOf);
    TotalsPermutation(Filter(s'.log, ClosedFilter(b)), ClosedMonthLog(s', b), KindOf, AmountOf);
    if InClosed(b, t.date) {
      TotalsAppend(kept, t, KindOf, AmountOf);
    } else {
      assert kept + [] == kept;
    }
  }

  /** Transfers count in neither total: recording one leaves the summary of
      every month as it was. */
  lemma MonthSummaryIgnoresTransfers(s: Store, t: Transaction, year: int, month: int)
    requires t.kind == Transfer
    ensures MonthSummary(s.(log := s.log + [t]), year, month) == MonthSummary(s, year, month)
  {
    if 1 <= month <= 12 {
      MonthSummaryAppend(s, t, year, month);
      var before, after := MonthSummary(s, year, month).value, MonthSummary(s.(log := s.log + [t]), year, month).value;
      assert after.income == before.income && after.expense == before.expense && after.net == before.net;
    }
  }
}
