/** `saldo_atual`: the balance of an account, recomputed from the whole log. */
module Balances {
  import opened Wrappers
  import opened Sums
  import opened Filtering
  import opened Ledger
  import opened Validation
  import opened Recording

  /** `_total_por_tipo`: the amounts of `kind` whose source is `account`. */
  function SourceTotal(log: seq<Transaction>, account: int, kind: Kind): real {
    Total(log, (t: Transaction) => if t.source == account && t.kind == kind then t.amount else 0.0)
  }

  /** `_total_transferencias_entrando`: transfers whose destination is `account`. */
  function IncomingTransfers(log: seq<Transaction>, account: int): real {
    Total(log, (t: Transaction) => if t.kind == Transfer && t.destination == Some(account) then t.amount else 0.0)
  }

  /** `WHERE conta_origem_id = ? AND tipo = ?`. */
  function FromAccount(account: int, kind: Kind): Transaction -> bool {
    (t: Transaction) => t.source == account && t.kind == kind
  }

  /** `WHERE conta_destino_id = ? AND tipo = 'transferencia'`. */
  function IntoAccount(account: int): Transaction -> bool {
    (t: Transaction) => t.kind == Transfer && t.destination == Some(account)
  }

  /** `_total_por_tipo` is the sum of the amounts of exactly the rows its
      `WHERE` clause selects, 0 when there are none (`COALESCE`), and never
      negative when no amount is (`CHECK(valor >= 0)`). */
  lemma SourceTotalWhere(log: seq<Transaction>, account: int, kind: Kind)
    ensures SourceTotal(log, account, kind) == Total(Filter(log, FromAccount(account, kind)), AmountOf)
    ensures (forall t :: t in log ==> !FromAccount(account, kind)(t)) ==> SourceTotal(log, account, kind) == 0.0
    ensures (forall i :: 0 <= i < |log| ==> log[i].amount >= 0.0) ==> SourceTotal(log, account, kind) >= 0.0
  {
    var keep := FromAccount(account, kind);
    var summand := (t: Transaction) => if t.source == account && t.kind == kind then t.amount else 0.0;
    assert forall i :: 0 <= i < |log| ==> summand(log[i]) == Masked(keep, AmountOf)(log[i]);
    TotalPointwise(log, summand, log, Masked(keep, AmountOf));
    TotalOfFilter(log, keep, AmountOf);
    if forall i :: 0 <= i < |log| ==> log[i].amount >= 0.0 {
      TotalNonNegative(log, summand);
    }
  }

  /** `_total_transferencias_entrando`, likewise: the amounts of exactly the
      transfers into the account. */
  lemma IncomingTransfersWhere(log: seq<Transaction>, account: int)
    ensures IncomingTransfers(log, account) == Total(Filter(log, IntoAccount(account)), AmountOf)
    ensures (forall t :: t in log ==> !IntoAccount(account)(t)) ==> IncomingTransfers(log, account) == 0.0
    ensures (forall i :: 0 <= i < |log| ==> log[i].amount >= 0.0) ==> IncomingTransfers(log, account) >= 0.0
  {
    var keep := IntoAccount(account);
    var summand := (t: Transaction) => if t.kind == Transfer && t.destination == Some(account) then t.amount else 0.0;
    assert forall i :: 0 <= i < |log| ==> summand(log[i]) == Masked(keep, AmountOf)(log[i]);
    TotalPointwise(log, summand, log, Masked(keep, AmountOf));
    TotalOfFilter(log, keep, AmountOf);
    if forall i :: 0 <= i < |log| ==> log[i].amount >= 0.0 {
      TotalNonNegative(log, summand);
    }
  }

  /** What one transaction does to one account: income adds to its source,
      expense and transfer take from their source, and a transfer alone also
      adds to its destination. */
  function Effect(t: Transaction, account: int): real {
    var out :=
      if t.source != account then 0.0
      else match t.kind
        case Income => t.amount
        case Expense => -t.amount
        case Transfer => -t.amount;
    var into := if t.kind == Transfer && t.destination == Some(account) then t.amount else 0.0;
    out + into
  }

  function NetEffect(log: seq<Transaction>, account: int): real {
    Total(log, (t: Transaction) => Effect(t, account))
  }

  /** The four SQL totals of `saldo_atual` add up to the net effect of the log. */
  lemma {:induction false} TotalsAreNetEffect(log: seq<Transaction>, account: int)
    ensures SourceTotal(log, account, Income) - SourceTotal(log, account, Expense)
            - SourceTotal(log, account, Transfer) + IncomingTransfers(log, account)
            == NetEffect(log, account)
    decreases |log|
  {
    if |log| > 0 {
      TotalsAreNetEffect(log[1..], account);
    }
  }

  /** `saldo_atual`: initial balance + income − expense − transfers out +
      transfers in; an unknown account is an error. */
  function Balance(s: Store, account: int): (r: Result<real, LedgerError>)
    ensures r.Ok? <==> account in s.accounts
    ensures r.Err? ==> r.error == AccountNotFound
    ensures r.Ok? ==> r.value == s.accounts[account].initialBalance + NetEffect(s.log, account)
  {
    if account !in s.accounts then Err(AccountNotFound)
    else
      TotalsAreNetEffect(s.log, account);
      Ok(s.accounts[account].initialBalance
         + SourceTotal(s.log, account, Income)
         - SourceTotal(s.log, account, Expense)
         - SourceTotal(s.log, account, Transfer)
         + IncomingTransfers(s.log, account))
  }

  lemma NetEffectAppend(log: seq<Transaction>, t: Transaction, account: int)
    ensures NetEffect(log + [t], account) == NetEffect(log, account) + Effect(t, account)
  {
    TotalConcat(log, [t], (t: Transaction) => Effect(t, account));
  }

  /** A transaction that names the account nowhere leaves it untouched. */
  lemma {:induction false} NetEffectUnreferenced(log: seq<Transaction>, account: int)
    requires forall i :: 0 <= i < |log| ==> log[i].source != account && log[i].destination != Some(account)
    ensures NetEffect(log, account) == 0.0
    decreases |log|
  {
    if |log| > 0 {
      NetEffectUnreferenced(log[1..], account);
    }
  }

  /** After a successful `registrar_transacao`, every account's balance moves
      by exactly the new transaction's effect on it. */
  lemma RecordMovesBalances(s: Store, p: Proposal, date: Option<string>, memo: Option<string>, now: string, account: int)
    requires RecordTransaction(s, p, date, memo, now).result.Ok?
    ensures var r := RecordTransaction(s, p, date, memo, now);
            var t := r.store.log[|r.store.log| - 1];
            && t.kind == ParseKind(p.kind).value && t.amount == p.amount
            && t.source == p.source && t.destination == p.destination
            && (Balance(r.store, account).Ok? <==> Balance(s, account).Ok?)
            && (Balance(s, account).Ok? ==>
                  Balance(r.store, account).value == Balance(s, account).value + Effect(t, account))
  {
    var r := RecordTransaction(s, p, date, memo, now);
    NetEffectAppend(s.log, r.store.log[|r.store.log| - 1], account);
  }

  /** A transfer of v from A to a different B lowers A by v, raises B by v
      and leaves every other balance as it was. */
  lemma TransferMovesAmount(s: Store, p: Proposal, date: Option<string>, memo: Option<string>, now: string, other: int)
    requires p.kind == "transferencia" && p.destination.Some? && p.destination.value != p.source
    requires RecordTransaction(s, p, date, memo, now).result.Ok?
    requires other != p.source && other != p.destination.value
    ensures var after := RecordTransaction(s, p, date, memo, now).store;
            && Balance(after, p.source).value == Balance(s, p.source).value - p.amount
            && Balance(after, p.destination.value).value == Balance(s, p.destination.value).value + p.amount
            && Balance(after, other) == Balance(s, other)
  {
    RecordMovesBalances(s, p, date, memo, now, p.source);
    RecordMovesBalances(s, p, date, memo, now, p.destination.value);
    RecordMovesBalances(s, p, date, memo, now, other);
  }

  /** A transfer from an account to itself changes nothing. */
  lemma SelfTransferNeutral(s: Store, p: Proposal, date: Option<string>, memo: Option<string>, now: string)
    requires p.kind == "transferencia" && p.destination == Some(p.source)
    requires RecordTransaction(s, p, date, memo, now).result.Ok?
    ensures Balance(RecordTransaction(s, p, date, memo, now).store, p.source) == Balance(s, p.source)
  {
    RecordMovesBalances(s, p, date, memo, now, p.source);
  }

  /** Income and expense move only their source: a destination given with
      them is stored but its balance does not change. */
  lemma DestinationIgnoredOutsideTransfers(s: Store, p: Proposal, date: Option<string>, memo: Option<string>, now: string)
    requires p.kind != "transferencia" && p.destination.Some? && p.destination.value != p.source
    requires RecordTransaction(s, p, date, memo, now).result.Ok?
    ensures var after := RecordTransaction(s, p, date, memo, now).store;
            Balance(after, p.destination.value) == Balance(s, p.destination.value)
  {
    RecordMovesBalances(s, p, date, memo, now, p.destination.value);
  }

  /** A rejected `registrar_transacao` leaves every balance as it was. */
  lemma RejectionKeepsBalances(s: Store, p: Proposal, date: Option<string>, memo: Option<string>, now: string, account: int)
    requires RecordTransaction(s, p, date, memo, now).result.Err?
    ensures Balance(RecordTransaction(s, p, date, memo, now).store, account) == Balance(s, account)
  {
  }

  /** A freshly created account's balance is its initial balance, and no
      other balance changes. */
  lemma NewAccountBalance(s: Store, name: string, initialBalance: real, other: int)
    requires Valid(s)
    ensures var r := CreateAccount(s, name, initialBalance);
            && Balance(r.store, r.result.value) == Ok(initialBalance)
            && (other != r.result.value ==> Balance(r.store, other) == Balance(s, other))
  {
    var r := CreateAccount(s, name, initialBalance);
    NetEffectUnreferenced(s.log, r.result.value);
  }
}
