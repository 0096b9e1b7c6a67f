/** The rule chain `_validar_transacao` runs before a transaction is written:
    the first failing rule decides the error. */
module Validation {
  import opened Wrappers
  import opened Ledger

  /** A transaction as the caller proposes it: the kind is still text. */
  datatype Proposal = Proposal(
    kind: string,
    amount: real,
    source: int,
    category: Option<int>,
    destination: Option<int>)

  /** The checks every kind goes through: a known kind, a non-negative amount
      (zero is accepted), an existing source account, and an existing
      destination account whenever one is given, whatever the kind. */
  predicate CommonChecksPass(s: Store, p: Proposal) {
    && ParseKind(p.kind).Some?
    && p.amount >= 0.0
    && p.source in s.accounts
    && (p.destination.Some? ==> p.destination.value in s.accounts)
  }

  /** The kind-specific checks: a transfer needs a destination and nothing
      else; an income or expense needs an existing category of its own kind. */
  predicate KindChecksPass(s: Store, p: Proposal, k: Kind) {
    if k == Transfer then p.destination.Some?
    else p.category.Some? && p.category.value in s.categories && s.categories[p.category.value].kind == k
  }

  /** Acceptance stated without regard to the order of the checks. */
  predicate Acceptable(s: Store, p: Proposal) {
    CommonChecksPass(s, p) && KindChecksPass(s, p, ParseKind(p.kind).value)
  }

  function Validate(s: Store, p: Proposal): (r: Result<Kind, LedgerError>)
    ensures r.Ok? <==> Acceptable(s, p)
    ensures r.Ok? ==> ParseKind(p.kind) == Some(r.value)
    // the first rule: an unknown kind
    ensures r == Err(InvalidTransactionKind) <==> ParseKind(p.kind).None?
    // then a negative amount
    ensures r == Err(NegativeAmount) <==> ParseKind(p.kind).Some? && p.amount < 0.0
    // then a missing source account
    ensures r == Err(UnknownSource) <==>
      ParseKind(p.kind).Some? && p.amount >= 0.0 && p.source !in s.accounts
    // then a missing destination account, for every kind
    ensures r == Err(UnknownDestination) <==>
      ParseKind(p.kind).Some? && p.amount >= 0.0 && p.source in s.accounts
      && p.destination.Some? && p.destination.value !in s.accounts
    // then the kind-specific rules
    ensures r == Err(MissingDestination) <==>
      CommonChecksPass(s, p) && ParseKind(p.kind) == Some(Transfer) && p.destination.None?
    ensures r == Err(MissingCategory) <==>
      CommonChecksPass(s, p) && ParseKind(p.kind) != Some(Transfer) && p.category.None?
    ensures r == Err(UnknownCategory) <==>
      CommonChecksPass(s, p) && ParseKind(p.kind) != Some(Transfer)
      && p.category.Some? && p.category.value !in s.categories
    ensures r == Err(CategoryKindMismatch) <==>
      CommonChecksPass(s, p) && ParseKind(p.kind) != Some(Transfer)
      && p.category.Some? && p.category.value in s.categories
      && Some(s.categories[p.category.value].kind) != ParseKind(p.kind)
  {
    match ParseKind(p.kind)
    case None => Err(InvalidTransactionKind)
    case Some(k) =>
      if p.amount < 0.0 then Err(NegativeAmount)
      else if p.source !in s.accounts then Err(UnknownSource)
      else if p.destination.Some? && p.destination.value !in s.accounts then Err(UnknownDestination)
      else if k == Transfer then
        if p.destination.None? then Err(MissingDestination) else Ok(k)
      else if p.category.None? then Err(MissingCategory)
      else if p.category.value !in s.categories then Err(UnknownCategory)
      else if s.categories[p.category.value].kind != k then Err(CategoryKindMismatch)
      else Ok(k)
  }

  /** A transfer's category is never examined. */
  lemma TransferIgnoresCategory(s: Store, p: Proposal, other: Option<int>)
    requires p.kind == "transferencia"
    ensures Validate(s, p) == Validate(s, p.(category := other))
  {
  }

  /** Only the accounts and categories, never the log, decide acceptance. */
  lemma ValidationIgnoresLog(s: Store, p: Proposal, log: seq<Transaction>)
    ensures Validate(s, p) == Validate(s.(log := log), p)
  {
  }
}
