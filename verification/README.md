# Ledger engine of a personal-finance tool, in Dafny

This project models the ledger core of a small personal-finance program
written in Python over SQLite: a command-line module (`financas.py`) and a
dashboard (`app.py`). The ledger is an append-only log of transactions of
three kinds — `receita` (income), `despesa` (expense) and `transferencia`
(transfer) — over a set of accounts and categories. Balances, listings and
month summaries are all derived from that log.

The database becomes an immutable `Ledger.Store`: a map of accounts, a map of
categories, a sequence of transactions in insertion order, and the three
AUTOINCREMENT counters. The schema's `CHECK`, `UNIQUE` and `FOREIGN KEY`
constraints become the `Ledger.Valid` invariant. Every write operation
preserves it and the empty store satisfies it. A write returns a
`Recording.Step`: the new store and either the new id or a `LedgerError`.

Dates are stored as text, and SQLite compares TEXT byte by byte, so the
model keeps them as `string` with `Text.TextLt`, the lexicographic order.
Typed dates (`Timestamps.Date`, `Timestamps.Clock`) are used only to explain
what that order means for well-formed ISO text. Two components need extra
care:

- `datetime(data)`, the sort key of the command-line listings, is
  `SqlDateTime.DateTimeKey`.
- Python's `f"{n:04d}"` is `Formatting.FormatInt`.

Module layout, following the program:

- `Text`, `Formatting`, `Calendar`, `Timestamps`, `SqlDateTime`: TEXT
  order, number formatting, the Gregorian calendar of `calendar.monthrange`,
  and ISO date text.
- `Sums`, `Filtering`, `Sorting`, `Tables`: `SUM`, `WHERE`, `ORDER BY` and
  a full table scan.
- `Ledger`, `Validation`, `Recording`, `Balances`: the store,
  `_validar_transacao`, the insert operations and `saldo_atual`.
- `Windows`, `Listing`, `Summaries`: the two month windows, the
  command-line listings and `resumo_mes`.
- `Dashboard`: the dashboard's `buscar_transacoes`, its `resumo_mes` and the
  running balance of its chart.

## Model

| member | source | states |
|---|---|---|
| Ledger.ParseKind | financas.py:145-146 | a kind text is accepted exactly when it is one of the three kind names, and it maps to that kind |
| Ledger.ParseCategoryKind | financas.py:119-120 | a category kind text is accepted exactly for `receita` and `despesa`, never for `transferencia` |
| Ledger.EmptyStoreValid | financas.py:32-74 | the empty database satisfies every table constraint |
| Text.TextLtIsMemcmp | app.py:137-140 | the TEXT order used by `>=`, `<`, `BETWEEN` and `ORDER BY` is SQLite's BINARY collation: the first differing character decides, and when one string is a prefix of the other the shorter comes first |
| Text.TextLtTransitive | app.py:140 | the TEXT order is transitive |
| Text.TextLtTotal | app.py:140 | any two different texts are ordered one way or the other |
| Text.TextLeNotGreater | financas.py:290 | `a <= b` holds exactly when `b < a` fails |
| Calendar.DaysInMonth | financas.py:280 | the month length is 28..31: 29 exactly for February of a leap year, 28 for other Februaries, 30 for April, June, September and November, 31 for the rest |
| Calendar.YearLength | financas.py:280 | a year has 366 days when it is leap and 365 otherwise |
| Calendar.FourHundredYearCycle | financas.py:280 | month lengths repeat every 400 years |
| Calendar.NextMonth | app.py:133-136 | the month after month m of a year is m + 1 of the same year, and the month after December is January of the next year |
| Formatting.FormatIsFixed | financas.py:281-282 | zero-padded formatting of a number that fits in the width gives exactly that many digits |
| Formatting.FixedOrder | financas.py:290 | fixed-width digit strings compare as text exactly as their numbers compare, and are equal only for equal numbers |
| Timestamps.IsoDateOrder | financas.py:290 | ISO dates compare as text exactly in calendar order |
| Timestamps.IsoDateTimeOrder | app.py:137 | ISO date-times compare as text by date and then by clock time |
| Timestamps.DateAgainstDateTime | financas.py:290 | a date-only text sorts before every date-time of its own day or a later day, and after every date-time of an earlier day |
| SqlDateTime.DateTimeKey | financas.py:259 | `datetime()` gives NULL or a 19-character canonical `YYYY-MM-DD HH:MM:SS` text of a valid date and a time whose hour may be 24 |
| SqlDateTime.NextDay | financas.py:259 | the day after a valid date is a later valid date; only 9999-12-31 has none |
| SqlDateTime.RollOverCountsDays | financas.py:259 | day d of a month, up to 31, is d - 1 days after the first, so a day past the month's end lands in the next month |
| SqlDateTime.Normalize | financas.py:259 | the time is printed as read; a date with a day up to 28 is printed as read, any other date and a bare time's 2000-01-01 are the date of the instant, rolled over and moved a day on by hour 24; NULL exactly when hour 24 falls after 9999-12-31 |
| SqlDateTime.KeyOfDate | financas.py:259 | `datetime()` of a date-only text is that date at midnight |
| SqlDateTime.KeyOfDateTime | financas.py:259 | `datetime()` of a `T`-separated date-time is the same instant in canonical form |
| SqlDateTime.KeyOfOverflowingDay | financas.py:259 | `datetime()` of a date-only text whose day exceeds its month is the date that many days after the first of the month, at midnight |
| SqlDateTime.KeyOfHour24 | financas.py:259 | hour 24 is printed as 24: on the same date when the day is at most 28, on the next date otherwise, and NULL on 9999-12-31 |
| SqlDateTime.Hour24SortsOnItsDay | financas.py:259 | hour 24 of a day up to the 28th sorts before every time of the next day |
| SqlDateTime.Hour24SortsAfterNextDay | financas.py:259 | hour 24 of a day from the 29th on sorts after every time of the next day |
| SqlDateTime.KeyOfClock | financas.py:259 | `datetime()` of a bare `HH:MM:SS` is that time on 2000-01-01 |
| SqlDateTime.KeyOfShortClock | financas.py:259 | `datetime()` of a bare `HH:MM` is that time on 2000-01-01 |
| SqlDateTime.KeyOfBareHour24 | financas.py:259 | a bare time at hour 24 is hour 24 of 2000-01-02 |
| SqlDateTime.KeyOfDateAndSeparators | financas.py:259 | a date followed only by `T`s and whitespace is that day at midnight |
| SqlDateTime.KeyOfSeparatedTime | financas.py:259 | a date, any run of `T`s and whitespace (none included), a time and trailing whitespace is that date and time |
| SqlDateTime.CanonicalOrder | financas.py:259 | canonical `datetime()` keys compare in chronological order |
| SqlDateTime.DateOnlyTiesMidnight | financas.py:259 | a date and that date at midnight tie under `datetime()`, although as raw text the date sorts first |
| Sums.TotalPermutation | app.py:153-154 | a sum does not depend on the order of the rows |
| Filtering.Filter | financas.py:255-257 | a `WHERE` keeps exactly the rows that satisfy it: each such row as often as it occurs in the table, no row that fails it, and never more rows than the table holds |
| Sorting.Sort | financas.py:259 | the result is a permutation of the input, ordered by key and then by id |
| Sorting.SortedUnique | financas.py:259 | with distinct ids there is only one sorted order of a set of rows |
| Tables.TableIds | financas.py:227 | a table scan returns every key exactly once |
| Validation.Validate | financas.py:137-164 | a proposal is accepted exactly when every rule holds; otherwise the first failing rule in source order decides the error: unknown kind, negative amount (zero passes), unknown source, unknown destination when one is given, transfer without destination, then, for income and expense, missing, unknown or wrong-kind category |
| Validation.TransferIgnoresCategory | financas.py:154-156 | the category of a transfer never affects validation |
| Validation.ValidationIgnoresLog | financas.py:137-164 | validation reads accounts and categories only, never the transactions |
| Recording.CreateAccount | financas.py:109-115 | creating an account always succeeds, under the next AUTOINCREMENT id, and adds exactly that account |
| Recording.FindCategory | financas.py:129-132 | the lookup of an existing (name, kind) pair finds an id holding that pair, or reports that none exists |
| Recording.CreateCategory | financas.py:118-134 | an invalid kind is rejected with nothing changed; an existing (name, kind) pair returns its id with the tables unchanged, although the ignored insert still draws an AUTOINCREMENT id; a new pair is added under the next id; the store stays valid |
| Recording.CreateCategoryIdempotent | financas.py:124-133 | a second identical call returns the same id and leaves accounts, categories and transactions as the first call left them; only the category counter moves, by one |
| Recording.IgnoredInsertLeavesGap | financas.py:124 | creating a new income pair, repeating it and then creating a new expense pair gives ids n+1, n+1 and n+3: the ignored insert leaves a gap in the ids |
| Recording.KindsKeepCategoriesApart | financas.py:53 | the same name as income and as expense gives two distinct categories |
| Recording.RecordTransaction | financas.py:167-192 | the store changes only on success; success is exactly acceptance plus an existing category when one is given; a validation error is passed through unchanged; a transfer with an unknown category fails the foreign key; success appends exactly one row with the given fields, the date or the current time, and a fresh id larger than every earlier id; validity is preserved |
| Recording.RecordedDate | financas.py:181 | `data or now`: a non-empty date is stored as given; an absent or empty date is replaced by the current time; the stored text is empty only when both are |
| Balances.SourceTotalWhere | financas.py:195-200 | `_total_por_tipo` is the sum of the amounts of the rows from the account with that kind; 0 when there is none; never negative when no amount is |
| Balances.IncomingTransfersWhere | financas.py:203-208 | `_total_transferencias_entrando` is the sum of the amounts of the transfers into the account; 0 when there is none; never negative when no amount is |
| Balances.TotalsAreNetEffect | financas.py:195-222 | the four SQL sums of the balance formula add up to the sum of each transaction's effect on the account |
| Balances.Balance | financas.py:211-222 | the balance exists exactly for a known account and is its initial balance plus income, minus expense, minus transfers out, plus transfers in; an unknown account is an error |
| Balances.NetEffectAppend | financas.py:195-222 | appending a transaction adds its own effect and nothing else |
| Balances.RecordMovesBalances | financas.py:183-192 | after a successful recording every balance moves by exactly the new row's effect on that account |
| Balances.TransferMovesAmount | financas.py:218-221 | a transfer of v between two different accounts lowers the source by v, raises the destination by v and leaves every other account unchanged |
| Balances.SelfTransferNeutral | financas.py:218-221 | a transfer from an account to itself leaves its balance unchanged |
| Balances.DestinationIgnoredOutsideTransfers | financas.py:203-208 | a destination given with an income or expense never changes that account's balance |
| Balances.RejectionKeepsBalances | financas.py:183-184 | a rejected recording changes no balance |
| Balances.NewAccountBalance | financas.py:109-115 | a new account's balance is its initial balance and every other balance stays as it was |
| Windows.ClosedBounds | financas.py:280-282 | the `BETWEEN` bounds exist exactly for months 1..12; they are the first and the last ISO date of the month |
| Windows.HalfOpenBounds | app.py:131-136 | the dashboard bounds are midnight of the first of the month and midnight of the first of the next month, December rolling into January of the next year |
| Windows.InClosed | financas.py:290 | `BETWEEN` holds exactly when the text is neither below the low bound nor above the high bound in TEXT order |
| Windows.InHalfOpen | app.py:137 | `>= low AND < high` holds exactly when the text is not below the low bound and is below the high bound in TEXT order |
| Windows.ClosedWindowDates | financas.py:290 | a date-only text is in the closed window exactly when it is a day of that month |
| Windows.ClosedWindowDateTimes | financas.py:290 | a date-time is in the closed window exactly when it falls on a day of that month before the last one, so the last day's date-times are left out |
| Windows.HalfOpenWindowDateTimes | app.py:137 | a date-time is in the half-open window exactly when it falls in that month |
| Windows.HalfOpenWindowDates | app.py:137 | a date-only text is in the half-open window exactly when it is a day of the month after the first, or the first of the next month |
| Windows.ClosedWindowLastDate | financas.py:290 | `2025-01-31` is in January's closed window |
| Windows.ClosedWindowLastDayTime | financas.py:290 | `2025-01-31T10:00:00` is not in January's closed window |
| Windows.HalfOpenWindowLastSecond | app.py:137 | `2025-01-31T23:59:59` is in January's half-open window |
| Windows.HalfOpenWindowNextMidnight | app.py:137 | `2025-02-01T00:00:00` is not in January's half-open window |
| Windows.HalfOpenWindowDecember | app.py:133-134 | December's window ends at the next year's first midnight and still holds 31 December at 23:59:59 |
| Windows.HalfOpenWindowFirstDayOut | app.py:131-137 | date-only `2025-01-01` falls outside January's half-open window |
| Windows.HalfOpenWindowNextFirstIn | app.py:131-137 | date-only `2025-02-01` falls inside January's half-open window |
| Listing.ListTransactions | financas.py:253-275 | the listing holds exactly the transactions whose source or destination is the account (all of them without an account), with their multiplicities, ordered by `datetime(data)` descending and then id descending |
| Listing.ListedNewestFirst | financas.py:259 | in a valid store each listed transaction has a later timestamp than the next one, or the same timestamp and a larger id |
| Listing.UndatedSortsAtNow | financas.py:181 | a transaction recorded without a date sorts at the instant of the current time |
| Listing.ListTransactionsUnique | financas.py:253-275 | any sequence with the listing's rows and order is the listing |
| Listing.ListTransactionsMonth | financas.py:278-305 | month 1..12 is required; every transaction in the closed window gives a row with its category name joined, no other row appears, the count matches, and rows are newest first |
| Listing.ListAccounts | financas.py:225-234 | every account appears once with its name, initial balance and current balance, ordered by name |
| Listing.ListCategories | financas.py:237-250 | a category appears exactly when its kind is the one requested, or when no non-empty kind is given; each appears once, ordered by name |
| Summaries.Delta | app.py:216-218 | a row's delta is its share of the income total minus its share of the expense total, so a transfer's is 0 |
| Summaries.NetIsSignedTotal | app.py:216-220 | income minus expense equals the sum of the per-row deltas |
| Summaries.Totals | financas.py:317-326 | income and expense are summed by kind, and net is their difference and also the sum of the signed amounts |
| Summaries.TotalsPermutation | app.py:153-154 | month totals do not depend on row order |
| Summaries.MonthSummary | financas.py:308-327 | month 1..12 is required; the totals are those of exactly the rows the month listing shows, and net is income minus expense |
| Summaries.MonthSummaryAppend | financas.py:317-321 | a new transaction counts exactly when its date text is in the closed window, and then only in the total of its kind |
| Summaries.MonthSummaryIgnoresTransfers | financas.py:318-319 | a transfer changes no month's totals |
| Dashboard.FalsyFiltersKeepAll | app.py:126-130 | when no filter argument is truthy, every transaction is listed once |
| Dashboard.SearchFilterStamped | app.py:126-138 | with a truthy year and month, an `isoformat` date-time passes exactly when it falls in that month and, given a truthy account, involves it |
| Dashboard.SearchFilterDated | app.py:130-137 | with a truthy year and month, a date-only row passes exactly from the 2nd of the month to the 1st of the next month |
| Dashboard.SearchTransactions | app.py:110-148 | every transaction passing the truthy filters gives a row with names joined, however many names are missing; no other row appears; the count matches; rows are ordered by raw date text descending and then id descending |
| Dashboard.DashboardSummary | app.py:151-156 | the totals are the income and expense sums of the selected transactions, and net is their difference and the sum of the row deltas |
| Dashboard.DashboardTotalsFromLog | app.py:151-156 | the totals of the joined and sorted rows equal those of the selected transactions in log order |
| Dashboard.RunningBalance | app.py:216-220 | entry i of the cumulative sum is the sum of the deltas of the first i + 1 rows |
| Dashboard.RunningBalanceEndsAtNet | app.py:213-220 | in any order of the month's rows, the last entry of the running balance is the month's net |

## Left out

- SQLite plumbing (`conectar`, `criar_tabelas`, `seed_basico`, `tabelas_existem`, `criar_tabelas_se_precisar`, the f-string query of `_registro_existente`) is replaced by the in-memory store. The store is modelled as already open and built, without the seeded default rows.
- The dashboard's own insert helpers (`inserir_conta`, `inserir_categoria`, `inserir_transacao`) and its `listar_contas` and `listar_categorias` are not modelled. They do no validation, and `app.py` declares a slightly different schema.
- The command-line parser, the interactive menu, the Streamlit pages, pandas, the charts other than the running balance, and the `R$` number formatting are user interface and are not modelled.
- The clock reads (`datetime.now()`, `date.today()`) are not modelled. The current time is the `now` parameter of `Recording.RecordTransaction`.
- Amounts are Dafny `real`: the model has no floating-point rounding, NaN or infinities.
- Transactions, atomicity, `check_same_thread` and concurrent writers are not modelled. Each operation is one atomic step on the store.
- SqlDateTime.DateTimeKey: recognises `YYYY-MM-DD`, followed by any run of `T`s and whitespace (space, tab, line feed, vertical tab, form feed, carriage return), none included, and then optionally `HH:MM` or `HH:MM:SS` followed by whitespace with at most one `Z`. It also recognises such a time alone, which is placed on 2000-01-01. The fields must be year 0000..9999, month 1..12, day 1..31, hour 0..24, minutes and seconds 0..59. Every other text maps to NULL, which sorts below every timestamp. SQLite also accepts fractional seconds, `+HH:MM` and `-HH:MM` offsets, Julian day numbers, `now` and negative years.
- Listing.ListAccounts: `ORDER BY nome` leaves the order of equal names unspecified; the model breaks such ties by ascending id. Listing.ListCategories does the same.
- Recording.CreateCategory: requires the store invariant, which the `UNIQUE(nome, tipo)` constraint guarantees for every store the program can reach.
- AUTOINCREMENT ids are unbounded integers. SQLite's AUTOINCREMENT fails with SQLITE_FULL once an id would exceed 2^63 - 1; no reachable store here comes near that, so the error is not modelled.
- Account names are not unique, and the model has no duplicate-name error, because the `conta` table has no such constraint.
- Validation keeps "unknown source" and "unknown destination" as two distinct errors, as the code raises two different messages.
- Recording.RecordTransaction: a transfer with a category id passes validation, and the row is then checked by the foreign keys (`PRAGMA foreign_keys = ON`). A dangling category on a transfer is therefore a `ConstraintViolation`, and a valid one is stored.
- Dashboard.SearchTransactions: the dashboard limits the year to 2000..2100 and the month to 1..12. The model accepts any integer, because `buscar_transacoes` itself checks nothing. The chart's `pd.to_datetime` parse is not modelled; it can fail on malformed dates and, under pandas' format inference, on a column that mixes date-only and `isoformat` texts.
