/** The write operations: `criar_conta`, `criar_categoria` and
    `registrar_transacao`. A write returns the store after the call together
    with its outcome; a failed write returns the store it was given. */
module Recording {
  import opened Wrappers
  import opened Ledger
  import opened Validation

  datatype Step<T> = Step(store: Store, result: Result<T, LedgerError>)

  /** `criar_conta`: always inserts, under the next AUTOINCREMENT id. Names
      need not be unique. */
  function CreateAccount(s: Store, name: string, initialBalance: real): (r: Step<int>)
    ensures r.result.Ok? && r.result.value == s.lastAccountId + 1
    ensures r.store.accounts == s.accounts[r.result.value := Account(name, initialBalance)]
    ensures r.store.categories == s.categories && r.store.log == s.log
    ensures Valid(s) ==> r.result.value !in s.accounts && Valid(r.store)
  {
    var id := s.lastAccountId + 1;
    Step(s.(accounts := s.accounts[id := Account(name, initialBalance)], lastAccountId := id), Ok(id))
  }

  /** The id, among 1..n, of a category equal to `c`, searched from the top. */
  function FindCategory(categories: map<int, Category>, c: Category, n: nat): (r: Option<int>)
    ensures r.Some? ==> 1 <= r.value <= n && r.value in categories && categories[r.value] == c
    ensures r.None? ==> forall i :: 1 <= i <= n && i in categories ==> categories[i] != c
  {
    if n == 0 then None
    else if n in categories && categories[n] == c then Some(n)
    else FindCategory(categories, c, n - 1)
  }

  /** `criar_categoria`: rejects a kind other than `receita`/`despesa`;
      otherwise returns the id of the category with this (name, kind),
      inserting it first when there is none (`INSERT OR IGNORE`). SQLite
      draws the AUTOINCREMENT id before it checks `UNIQUE(nome, tipo)` and
      records it in `sqlite_sequence` even when the row is then ignored, so
      a repeated pair leaves a gap in the ids. */
  function CreateCategory(s: Store, name: string, kindText: string): (r: Step<int>)
    requires Valid(s)
    ensures ParseCategoryKind(kindText).None? ==> r == Step(s, Err(InvalidCategoryKind))
    ensures r.result.Err? ==> r.result.error == InvalidCategoryKind && r.store == s
    ensures r.result.Ok? ==>
      && ParseCategoryKind(kindText).Some?
      && r.store.lastCategoryId == s.lastCategoryId + 1
      && r.result.value in r.store.categories
      && r.store.categories[r.result.value] == Category(name, ParseCategoryKind(kindText).value)
      && r.store.accounts == s.accounts && r.store.log == s.log
    // an existing (name, kind) pair: its id; the ignored insert still draws
    // an id, so only the AUTOINCREMENT counter moves
    ensures forall id ::
              (ParseCategoryKind(kindText).Some? && id in s.categories
               && s.categories[id] == Category(name, ParseCategoryKind(kindText).value))
              ==> r == Step(s.(lastCategoryId := s.lastCategoryId + 1), Ok(id))
    // a new pair: exactly one category added, under a fresh id
    ensures ParseCategoryKind(kindText).Some?
      && (forall id :: id in s.categories ==> s.categories[id] != Category(name, ParseCategoryKind(kindText).value))
      ==> r.result.Ok? && r.result.value !in s.categories
          && r.store.categories == s.categories[r.result.value := Category(name, ParseCategoryKind(kindText).value)]
    ensures Valid(r.store)
  {
    match ParseCategoryKind(kindText)
    case None => Step(s, Err(InvalidCategoryKind))
    case Some(k) =>
      var c := Category(name, k);
      match FindCategory(s.categories, c, s.lastCategoryId)
      case Some(id) => Step(s.(lastCategoryId := s.lastCategoryId + 1), Ok(id))
      case None =>
        var id := s.lastCategoryId + 1;
        var s' := s.(categories := s.categories[id := c], lastCategoryId := id);
        assert CategoriesUnique(s'.categories);
        Step(s', Ok(id))
  }

  /** `data or datetime.now()`: an absent or empty date means "now". */
  function RecordedDate(date: Option<string>, now: string): (r: string)
    ensures date.Some? && date.value != "" ==> r == date.value
    ensures r == now || date == Some(r)
    ensures r == "" <==> (date.None? || date.value == "") && now == ""
  {
    if date.Some? && date.value != "" then date.value else now
  }

  /** The row `registrar_transacao` inserts for an accepted proposal. */
  function NewRow(s: Store, p: Proposal, k: Kind, date: Option<string>, memo: Option<string>, now: string): Transaction {
    Transaction(s.lastTransactionId + 1, k, RecordedDate(date, now), p.amount, p.category, p.source, p.destination, memo)
  }

  /** `registrar_transacao`: validation, then the INSERT, which the table's
      constraints can still refuse: a transfer's category id is not
      validated, so a dangling one trips the foreign key. */
  function RecordTransaction(s: Store, p: Proposal, date: Option<string>, memo: Option<string>, now: string): (r: Step<int>)
    ensures r.result.Err? ==> r.store == s
    ensures r.result.Ok? <==>
      Acceptable(s, p) && (p.category.Some? ==> p.category.value in s.categories)
    ensures Validate(s, p).Err? ==> r.result == Err(Validate(s, p).error)
    ensures r.result == Err(ConstraintViolation) <==>
      Acceptable(s, p) && ParseKind(p.kind) == Some(Transfer)
      && p.category.Some? && p.category.value !in s.categories
    ensures r.result.Ok? ==>
      && r.result.value == s.lastTransactionId + 1
      && r.store.accounts == s.accounts && r.store.categories == s.categories
      && r.store.log == s.log + [Transaction(r.result.value, ParseKind(p.kind).value, RecordedDate(date, now),
                                             p.amount, p.category, p.source, p.destination, memo)]
    ensures Valid(s) ==> Valid(r.store)
    ensures Valid(s) && r.result.Ok? ==> forall t :: t in s.log ==> t.id < r.result.value
  {
    match Validate(s, p)
    case Err(e) => Step(s, Err(e))
    case Ok(k) =>
      var t := NewRow(s, p, k, date, memo, now);
      if !RowAdmissible(s.accounts, s.categories, t) then Step(s, Err(ConstraintViolation))
      else
        var s' := s.(log := s.log + [t], lastTransactionId := t.id);
        assert forall i :: 0 <= i < |s.log| ==> s'.log[i] == s.log[i];
        Step(s', Ok(t.id))
  }

  /** Calling `criar_categoria` twice with the same pair returns the same id;
      the second call adds no category and leaves accounts and log alone,
      but it uses up one id. */
  lemma CreateCategoryIdempotent(s: Store, name: string, kindText: string)
    requires Valid(s)
    requires CreateCategory(s, name, kindText).result.Ok?
    ensures var first := CreateCategory(s, name, kindText);
            var second := CreateCategory(first.store, name, kindText);
            && second.result == first.result
            && second.store.categories == first.store.categories
            && second.store.accounts == first.store.accounts
            && second.store.log == first.store.log
            && second.store.lastCategoryId == first.store.lastCategoryId + 1
  {
    var first := CreateCategory(s, name, kindText);
    assert first.store.categories[first.result.value] == Category(name, ParseCategoryKind(kindText).value);
  }

  /** The same name under the other kind is a different category. */
  lemma KindsKeepCategoriesApart(s: Store, name: string)
    requires Valid(s)
    ensures var first := CreateCategory(s, name, "receita");
            var second := CreateCategory(first.store, name, "despesa");
            first.result.Ok? && second.result.Ok? && first.result.value != second.result.value
            && second.store.categories[first.result.value] == Category(name, Income)
            && second.store.categories[second.result.value] == Category(name, Expense)
  {
    var first := CreateCategory(s, name, "receita");
    var second := CreateCategory(first.store, name, "despesa");
    assert ParseCategoryKind("receita") == Some(Income);
    assert ParseCategoryKind("despesa") == Some(Expense);
    if exists id :: id in first.store.categories && first.store.categories[id] == Category(name, Expense) {
      var id :| id in first.store.categories && first.store.categories[id] == Category(name, Expense);
      assert second == Step(first.store.(lastCategoryId := first.store.lastCategoryId + 1), Ok(id));
    } else {
      assert second.result.value !in first.store.categories;
    }
    // both keys are present after the second call and hold different kinds
    assert second.store.categories[first.result.value] == Category(name, Income);
  }

  /** Ids skip the value an ignored insert drew: creating a new pair, then
      the same pair again, then another new pair gives ids n + 1, n + 1 and
      n + 3 after a counter at n. */
  lemma IgnoredInsertLeavesGap(s: Store, a: string, b: string)
    requires Valid(s)
    requires forall id :: id in s.categories ==> s.categories[id] != Category(a, Income)
    requires forall id :: id in s.categories ==> s.categories[id] != Category(b, Expense)
    ensures var first := CreateCategory(s, a, "receita");
            var again := CreateCategory(first.store, a, "receita");
            var other := CreateCategory(again.store, b, "despesa");
            && first.result == Ok(s.lastCategoryId + 1)
            && again.result == Ok(s.lastCategoryId + 1)
            && other.result == Ok(s.lastCategoryId + 3)
  {
    assert ParseCategoryKind("receita") == Some(Income);
    assert ParseCategoryKind("despesa") == Some(Expense);
    var first := CreateCategory(s, a, "receita");
    var again := CreateCategory(first.store, a, "receita");
    assert again.store.categories == first.store.categories;
    assert forall id :: id in again.store.categories ==> again.store.categories[id] != Category(b, Expense);
  }
}
