# Expense store model

A Dafny model of the expense record store of a small expense-tracking app
(`src/db/db.ts`). The store keeps one SQLite table, `expenses`, with the
columns `id` (INTEGER PRIMARY KEY AUTOINCREMENT), `title`, `amount`,
`category` (nullable), `paid` (integer, default 1) and `created_at` (unix
seconds). It exports six functions. Each one issues a single SQL statement
(`initTable` issues a short fixed sequence of them).

The model treats the database as a value. `Database` holds the `expenses`
table, which may not exist yet. A `Table` is its rows in rowid order plus
the AUTOINCREMENT counter `nextId`. Each exported function becomes a pure
function from one database value to the next. Statements against a missing
table return `Err(NoSuchTable)`, the way SQLite fails and the store passes
the failure on. The wall clock (`Math.floor(Date.now() / 1000)`) is a
`now` parameter.

Files and modules:

- `results.dfy` (`Results`): `Option` and `Result`.
- `expense.dfy` (`Expenses`): the `Expense` record from `src/types/expense.d.ts`.
  The paid flag is an `int`, and `IsPaidFlag` says it is 0 or 1.
- `table.dfy` (`ExpenseTable`): the table invariant and the row-level effect
  of `INSERT`, `UPDATE ... WHERE id = ?` and `DELETE ... WHERE id = ?`.
- `listing.dfy` (`Listing`): `ORDER BY created_at DESC`.
- `db.dfy` (`ExpenseDb`): the six exported functions.
- `laws.dfy` (`StoreLaws`): properties that link several calls.
- `form.dfy` (`ExpenseForm`): the add-expense form's input check. It is used
  only as an assumption about callers.
- `history.dfy` (`History`): any sequence of calls, and the invariants that
  hold along it.

The table invariant (`ExpenseTable.Valid`) says four things:
- ids are strictly increasing in storage order, so they are distinct;
- ids are positive;
- ids are below the counter;
- every `paid` value is 0 or 1.

Every operation preserves it. The counter never decreases, so AUTOINCREMENT
never hands out an id twice, even after a delete.

Two facts about the code shape the model:

- `paid` is stored as the integer 0 or 1, and the toggle writes
  `currentPaid === 1 ? 0 : 1`.
- The store never checks that amounts are positive; only the add form does
  (`src/app/index.tsx:77-81`).

## Model

| member | source | states |
|---|---|---|
| ExpenseTable.Find | src/db/db.ts:107 | the row `WHERE id = ?` selects carries that id and is stored; there is none exactly when no row has the id |
| ExpenseTable.FindRow | src/db/db.ts:20 | with distinct ids, looking up a stored row's id gives back that row |
| ExpenseTable.Insert | src/db/db.ts:75-78 | an INSERT keeps every earlier row, appends one row with the supplied values under the counter's id, which no stored row has, advances the counter and keeps the table valid |
| ExpenseTable.UpdateWhere | src/db/db.ts:92-95 | an UPDATE rewrites exactly the rows whose id matches and keeps every other row in place |
| ExpenseTable.DeleteWhere | src/db/db.ts:116 | a DELETE keeps exactly the rows with another id, removes that id from the id set, and changes nothing when the id is absent |
| ExpenseTable.DeleteKeepsAscending | src/db/db.ts:116 | after a delete, the surviving rows are still in ascending id order |
| ExpenseTable.DeleteRemovesOne | src/db/db.ts:116 | with distinct ids, deleting an id that is present removes exactly one row |
| Listing.InsertNewestFirst | src/db/db.ts:64 | putting one row into a newest-first list gives a newest-first list holding the old rows plus that row |
| Listing.SortNewestFirst | src/db/db.ts:63-65 | the listing is a permutation of the stored rows with non-increasing `created_at` |
| Listing.ListingsAgreeOnTimestamps | src/db/db.ts:64 | two newest-first orderings of the same rows have equal length and the same `created_at` at every position |
| ExpenseDb.NullIfEmpty | src/db/db.ts:77 | `category \|\| null` stores NULL exactly for an absent or empty category, and any other category as given |
| ExpenseDb.Seed | src/db/db.ts:43-50 | inserting the two sample rows keeps the table valid |
| ExpenseDb.InitTable | src/db/db.ts:13-56 | afterwards the table exists; a table with rows is left unchanged; an absent or empty table gets exactly the two sample rows ("Cà phê" 30000 and "Ăn trưa" 50000, both paid, both stamped `now`, consecutive fresh ids); validity is kept |
| ExpenseDb.GetAllExpenses | src/db/db.ts:58-66 | fails only when the table is missing; otherwise returns a permutation of exactly the stored rows, newest `created_at` first |
| ExpenseDb.CreateExpense | src/db/db.ts:68-79 | fails only when the table is missing; keeps every existing row; adds exactly one row with the given title and amount, the normalised category, `paid = 1`, `created_at = now` and an id not used before; keeps validity |
| ExpenseDb.FlipPaid | src/db/db.ts:90 | the new flag is 0 or 1; it is 0 exactly when the caller passes 1; for a 0/1 argument it is the complement |
| ExpenseDb.TogglePaidState | src/db/db.ts:84-96 | only the `paid` field of the row with `id` changes, to the flip of the caller's value (the stored flag is not read); other rows, the counter and an absent id are left unchanged; validity is kept |
| ExpenseDb.UpdateExpense | src/db/db.ts:101-110 | the matching row gets the new title, amount and normalised category and keeps its id, paid flag and `created_at`; other rows are unchanged; an absent id changes nothing and is not an error; validity is kept |
| ExpenseDb.DeleteExpense | src/db/db.ts:114-117 | removes the row with `id` and keeps every other row; the counter is untouched; an absent id is a no-op; with a valid table exactly one row goes; validity is kept |
| StoreLaws.InitTableIdempotent | src/db/db.ts:34-54 | running the bootstrap twice gives the same database as once, so an empty store ends with exactly the two sample rows |
| StoreLaws.ListingFixedUpToTies | src/db/db.ts:63-65 | the listing agrees, position by position in `created_at`, with every newest-first ordering of the stored rows, so only rows created in the same second can appear in another order |
| StoreLaws.CreatedExpenseIsListed | src/db/db.ts:73-78 | after a create, the listing contains a row with the input's title, amount and normalised category, `paid = 1`, `created_at = now` and an id that was not in use |
| StoreLaws.CreateThenFind | src/db/db.ts:75-78 | after a create, the new id finds the new row and every other id finds what it found before |
| StoreLaws.FindAppend | src/db/db.ts:75-77 | appending a row with another id does not change what an id lookup finds |
| StoreLaws.ToggleThenFind | src/db/db.ts:87-95 | after a toggle, the record differs from the original only in `paid`, which is the flip of the caller's value |
| StoreLaws.ToggleRoundTrip | src/db/db.ts:87-95 | toggling with the stored flag and then with the flag just written restores the original database (1 then 0, or 0 then 1) |
| StoreLaws.StaleToggleChangesNothing | src/db/db.ts:87-95 | a caller value that is the complement of the stored flag makes the toggle write back the stored value, so the database does not change |
| StoreLaws.UpdateThenFind | src/db/db.ts:106-109 | the updated record keeps id, paid and `created_at` and carries the new title, amount and normalised category |
| StoreLaws.UpdateIdempotent | src/db/db.ts:106-109 | repeating an update changes nothing further |
| StoreLaws.DeleteIdempotent | src/db/db.ts:114-116 | repeating a delete changes nothing further |
| StoreLaws.DeleteAfterCreate | src/db/db.ts:19-20 | deleting the record just created gives back the earlier rows, while the counter stays above the deleted id |
| StoreLaws.DeleteAppended | src/db/db.ts:116 | deleting the id of an appended row with a new id removes just that row |
| History.RunPreservesValid | src/db/db.ts:19-20 | every sequence of store calls keeps ids distinct, positive and below the counter, and paid flags in {0, 1} |
| History.RunKeepsCounter | src/db/db.ts:20 | once the table exists it stays, and its AUTOINCREMENT counter never decreases |
| History.IdsNeverReused | src/db/db.ts:20 | an id stored now is never given to a row created after any later sequence of calls, deletes included |
| History.StepKeepsRowsAccepted | src/app/index.tsx:70-81 | one call whose input passed the form check keeps every row's amount positive and title non-blank |
| History.RunKeepsRowsAccepted | src/app/index.tsx:70-81 | if the form checked every create and update, every stored row keeps a positive amount and a non-blank title |

## Left out

- The screens (`src/app/index.tsx`, `src/app/_layout.tsx`): rendering, the modal, navigation, and currency formatting through `Intl.NumberFormat`.
- Asynchrony, `console.log`, and I/O or storage failures other than a missing table. A failed call is modelled as leaving the database unchanged.
- The SQLite engine itself: SQL parsing, the `sqlite_sequence` table and the connection. Only the effect of each statement is modelled.
- Id exhaustion: SQLite's AUTOINCREMENT fails once the largest rowid (2^63 - 1) has been used. Ids here are unbounded integers.
- Floating point: amounts are exact reals, which are only copied. `parseFloat`, `NaN` and `Infinity` from the form are not modelled, so an amount of `Infinity` passing the form check is outside the model.
- Listing.SortNewestFirst: the query leaves the order of rows with equal `created_at` open. The model keeps them in storage order, but its contract promises only the permutation and the newest-first order.
- History.RunKeepsRowsAccepted: no code in `src/app/index.tsx` calls `updateExpense`; the lemma assumes a caller that validates updates the way the add form validates creates.
- ExpenseDb.TogglePaidState: `currentPaid` is typed `0 | 1` in the source. The model accepts any integer and follows the literal `=== 1 ? 0 : 1`.
- The `countResult &&` guard in `initTable`: `SELECT COUNT(*)` always returns one row, so seeding is modelled as happening exactly when the count is 0.
