/** The three tables of the store, held in memory: accounts (`conta`),
    categories (`categoria`) and the append-only transaction log
    (`transacao`). The table constraints of the schema become the store's
    validity invariant. */
module Ledger {
  import opened Wrappers

  /** `receita`, `despesa`, `transferencia`. */
  datatype Kind = Income | Expense | Transfer

  function KindText(k: Kind): string {
    match k
    case Income => "receita"
    case Expense => "despesa"
    case Transfer => "transferencia"
  }

  /** Reads a transaction kind; only the three kind names are accepted. */
  function ParseKind(text: string): (r: Option<Kind>)
    ensures forall k :: r == Some(k) <==> KindText(k) == text
  {
    if text == "receita" then Some(Income)
    else if text == "despesa" then Some(Expense)
    else if text == "transferencia" then Some(Transfer)
    else None
  }

  /** Reads a category kind; a category is either `receita` or `despesa`. */
  function ParseCategoryKind(text: string): (r: Option<Kind>)
    ensures forall k :: r == Some(k) <==> k != Transfer && KindText(k) == text
  {
    if text == "receita" then Some(Income)
    else if text == "despesa" then Some(Expense)
    else None
  }

  datatype Account = Account(name: string, initialBalance: real)

  datatype Category = Category(name: string, kind: Kind)

  datatype Transaction = Transaction(
    id: int,
    kind: Kind,
    date: string,
    amount: real,
    category: Option<int>,
    source: int,
    destination: Option<int>,
    memo: Option<string>)

  function KindOf(t: Transaction): Kind { t.kind }

  function AmountOf(t: Transaction): real { t.amount }

  /** The store. `lastAccountId`, `lastCategoryId` and `lastTransactionId` are
      the AUTOINCREMENT counters of `sqlite_sequence`: the largest id each
      table has drawn, counting ids drawn by an insert that was then
      ignored. */
  datatype Store = Store(
    accounts: map<int, Account>,
    categories: map<int, Category>,
    log: seq<Transaction>,
    lastAccountId: nat,
    lastCategoryId: nat,
    lastTransactionId: nat)

  const EmptyStore := Store(map[], map[], [], 0, 0, 0)

  datatype LedgerError =
    | InvalidTransactionKind
    | NegativeAmount
    | UnknownSource
    | UnknownDestination
    | MissingDestination
    | MissingCategory
    | UnknownCategory
    | CategoryKindMismatch
    | ConstraintViolation
    | InvalidCategoryKind
    | AccountNotFound
    | IllegalMonth(month: int)

  /** The CHECK and FOREIGN KEY constraints of `transacao`: a non-negative
      amount, an existing source account, and an existing destination account
      and category whenever they are given. */
  predicate RowAdmissible(accounts: map<int, Account>, categories: map<int, Category>, t: Transaction) {
    && t.amount >= 0.0
    && t.source in accounts
    && (t.destination.Some? ==> t.destination.value in accounts)
    && (t.category.Some? ==> t.category.value in categories)
  }

  /** UNIQUE(nome, tipo) on `categoria`. */
  predicate CategoriesUnique(categories: map<int, Category>) {
    forall i, j :: i in categories && j in categories && categories[i] == categories[j] ==> i == j
  }

  /** What the schema and AUTOINCREMENT guarantee of every reachable store. */
  predicate Valid(s: Store) {
    && (forall a :: a in s.accounts ==> 1 <= a <= s.lastAccountId)
    && (forall c :: c in s.categories ==> 1 <= c <= s.lastCategoryId && s.categories[c].kind != Transfer)
    && CategoriesUnique(s.categories)
    && (forall i :: 0 <= i < |s.log| ==>
          RowAdmissible(s.accounts, s.categories, s.log[i]) && 1 <= s.log[i].id <= s.lastTransactionId)
    && (forall i, j :: 0 <= i < j < |s.log| ==> s.log[i].id < s.log[j].id)
  }

  lemma EmptyStoreValid()
    ensures Valid(EmptyStore)
  {
  }
}
