/** The exported functions of the expense store (src/db/db.ts), each as the
    transition its one SQL statement makes on the database. Statements on a
    database whose `expenses` table does not exist fail with SQLite's
    "no such table" error, which the store propagates to its caller. */
module ExpenseDb {
  import opened Results
  import opened Expenses
  import opened ExpenseTable
  import opened Listing

  /** The database file as far as the store sees it: the `expenses` table,
      present or not. */
  datatype Database = Database(expenses: Option<Table>)

  datatype DbError = NoSuchTable

  /** The data the store invariant asks of a database. */
  predicate ValidDb(db: Database)
  {
    db.expenses.Some? ==> Valid(db.expenses.value)
  }

  /** The fields a caller supplies to create an expense (`category` may be
      absent). */
  datatype CreateExpenseInput = CreateExpenseInput(title: string, amount: real, category: Option<string>)

  /** The fields a caller supplies to update an expense. */
  datatype UpdateExpenseInput = UpdateExpenseInput(id: int, title: string, amount: real, category: Option<string>)

  /** `data.category || null`: absent and empty categories are stored as NULL,
      any other string as itself. */
  function NullIfEmpty(category: Option<string>): (r: Option<string>)
    ensures r.None? <==> (category.None? || category.value == "")
    ensures r.Some? ==> r == category
  {
    if category.Some? && category.value != "" then category else None
  }

  /** `CREATE TABLE IF NOT EXISTS expenses (...)`: the existing table, or a new
      empty one. */
  function CreateTableIfNotExists(db: Database): Table
  {
    if db.expenses.Some? then db.expenses.value else EmptyTable
  }

  /** The two sample rows, inserted one after the other with the same timestamp. */
  function Seed(t: Table, now: int): (r: Table)
    ensures Valid(t) ==> Valid(r)
  {
    var t1 := Insert(t, "Cà phê", 30000.0, Some("Đồ uống"), 1, now);
    Insert(t1, "Ăn trưa", 50000.0, Some("Ăn uống"), 1, now)
  }

  /** `initTable`: makes sure the table exists and seeds it exactly when it
      holds no row; a table with rows is left as it is. */
  function InitTable(db: Database, now: int): (r: Database)
    ensures r.expenses.Some?
    ensures db.expenses.Some? && |db.expenses.value.rows| > 0 ==> r == db
    ensures
      var t := CreateTableIfNotExists(db);
      |t.rows| == 0 ==>
        && r.expenses.value.rows == [
             Expense(t.nextId, "Cà phê", 30000.0, Some("Đồ uống"), 1, now),
             Expense(t.nextId + 1, "Ăn trưa", 50000.0, Some("Ăn uống"), 1, now)]
        && r.expenses.value.nextId == t.nextId + 2
    ensures ValidDb(db) ==> ValidDb(r)
  {
    var t := CreateTableIfNotExists(db);
    if |t.rows| == 0 then Database(Some(Seed(t, now))) else Database(Some(t))
  }

  /** `getAllExpenses`: exactly the stored rows, newest first. */
  function GetAllExpenses(db: Database): (r: Result<seq<Expense>, DbError>)
    ensures r.Err? <==> db.expenses.None?
    ensures r.Ok? ==> multiset(r.value) == multiset(db.expenses.value.rows)
    ensures r.Ok? ==> NewestFirst(r.value)
  {
    match db.expenses
    case None => Err(NoSuchTable)
    case Some(t) => Ok(SortNewestFirst(t.rows))
  }

  /** `createExpense`: appends one paid row stamped `now` under a fresh id;
      every existing row is kept as it was. */
  function CreateExpense(db: Database, data: CreateExpenseInput, now: int): (r: Result<Database, DbError>)
    ensures r.Err? <==> db.expenses.None?
    ensures r.Ok? ==> r.value.expenses.Some?
    ensures r.Ok? ==>
      var t, u := db.expenses.value, r.value.expenses.value;
      && |u.rows| == |t.rows| + 1
      && u.rows[..|t.rows|] == t.rows
      && var e := u.rows[|t.rows|];
         && e.title == data.title && e.amount == data.amount
         && e.category == NullIfEmpty(data.category)
         && e.paid == 1 && e.createdAt == now
         && e.id >= t.nextId && e.id < u.nextId
         && (Valid(t) ==> e.id !in Ids(t.rows))
    ensures ValidDb(db) ==> r.Ok? ==> ValidDb(r.value)
  {
    match db.expenses
    case None => Err(NoSuchTable)
    case Some(t) =>
      Ok(Database(Some(Insert(t, data.title, data.amount, NullIfEmpty(data.category), 1, now))))
  }

  /** The new flag `togglePaidState` writes: 0 when the caller says 1, and 1
      for anything else. */
  function FlipPaid(currentPaid: int): (p: int)
    ensures IsPaidFlag(p)
    ensures p == 0 <==> currentPaid == 1
    ensures IsPaidFlag(currentPaid) ==> p == 1 - currentPaid
  {
    if currentPaid == 1 then 0 else 1
  }

  /** `togglePaidState`: writes the complement of the caller's `currentPaid`
      into the row with `id`, without reading the stored flag; nothing but that
      flag changes, and an absent id changes nothing. */
  function TogglePaidState(db: Database, id: int, currentPaid: int): (r: Result<Database, DbError>)
    ensures r.Err? <==> db.expenses.None?
    ensures r.Ok? ==> r.value.expenses.Some?
    ensures r.Ok? ==>
      var t, u := db.expenses.value, r.value.expenses.value;
      && u.nextId == t.nextId
      && |u.rows| == |t.rows|
      && (forall i :: 0 <= i < |t.rows| ==> u.rows[i] == t.rows[i].(paid := u.rows[i].paid))
      && (forall i :: 0 <= i < |t.rows| && t.rows[i].id == id ==> u.rows[i].paid == FlipPaid(currentPaid))
      && (forall i :: 0 <= i < |t.rows| && t.rows[i].id != id ==> u.rows[i] == t.rows[i])
      && (id !in Ids(t.rows) ==> u == t)
    ensures ValidDb(db) ==> r.Ok? ==> ValidDb(r.value)
  {
    match db.expenses
    case None => Err(NoSuchTable)
    case Some(t) =>
      var p := FlipPaid(currentPaid);
      var u := Table(UpdateWhere(t.rows, id, (e: Expense) => e.(paid := p)), t.nextId);
      assert id !in Ids(t.rows) ==> u.rows == t.rows by {
        if id !in Ids(t.rows) {
          assert forall i :: 0 <= i < |t.rows| ==> t.rows[i].id != id by {
            forall i | 0 <= i < |t.rows| ensures t.rows[i].id != id {
              assert t.rows[i] in t.rows;
            }
          }
        }
      }
      Ok(Database(Some(u)))
  }

  /** `updateExpense`: rewrites title, amount and category of the row with
      `data.id`, keeping its id, paid flag and timestamp; every other row is
      kept, and an absent id changes nothing and is no error. */
  function UpdateExpense(db: Database, data: UpdateExpenseInput): (r: Result<Database, DbError>)
    ensures r.Err? <==> db.expenses.None?
    ensures r.Ok? ==> r.value.expenses.Some?
    ensures r.Ok? ==>
      var t, u := db.expenses.value, r.value.expenses.value;
      && u.nextId == t.nextId
      && |u.rows| == |t.rows|
      && (forall i :: 0 <= i < |t.rows| ==>
            && u.rows[i].id == t.rows[i].id
            && u.rows[i].paid == t.rows[i].paid
            && u.rows[i].createdAt == t.rows[i].createdAt)
      && (forall i :: 0 <= i < |t.rows| && t.rows[i].id == data.id ==>
            && u.rows[i].title == data.title
            && u.rows[i].amount == data.amount
            && u.rows[i].category == NullIfEmpty(data.category))
      && (forall i :: 0 <= i < |t.rows| && t.rows[i].id != data.id ==> u.rows[i] == t.rows[i])
      && (data.id !in Ids(t.rows) ==> u == t)
    ensures ValidDb(db) ==> r.Ok? ==> ValidDb(r.value)
  {
    match db.expenses
    case None => Err(NoSuchTable)
    case Some(t) =>
      var category := NullIfEmpty(data.category);
      var u := Table(UpdateWhere(t.rows, data.id,
                                 (e: Expense) => e.(title := data.title, amount := data.amount, category := category)),
                     t.nextId);
      assert data.id !in Ids(t.rows) ==> u.rows == t.rows by {
        if data.id !in Ids(t.rows) {
          assert forall i :: 0 <= i < |t.rows| ==> t.rows[i].id != data.id by {
            forall i | 0 <= i < |t.rows| ensures t.rows[i].id != data.id {
              assert t.rows[i] in t.rows;
            }
          }
        }
      }
      Ok(Database(Some(u)))
  }

  /** `deleteExpense`: removes the row with `id` and keeps every other row;
      an absent id changes nothing. The counter is untouched, so the id is
      never handed out again. */
  function DeleteExpense(db: Database, id: int): (r: Result<Database, DbError>)
    ensures r.Err? <==> db.expenses.None?
    ensures r.Ok? ==> r.value.expenses.Some?
    ensures r.Ok? ==>
      var t, u := db.expenses.value, r.value.expenses.value;
      && u.nextId == t.nextId
      && (forall e :: e in u.rows <==> e in t.rows && e.id != id)
      && Ids(u.rows) == Ids(t.rows) - {id}
      && (id !in Ids(t.rows) ==> u == t)
      && (Valid(t) && id in Ids(t.rows) ==> |u.rows| == |t.rows| - 1)
    ensures ValidDb(db) ==> r.Ok? ==> ValidDb(r.value)
  {
    match db.expenses
    case None => Err(NoSuchTable)
    case Some(t) =>
      var u := Table(DeleteWhere(t.rows, id), t.nextId);
      DeleteKeepsAscending(t.rows, id);
      DeleteRemovesOne(t.rows, id);
      assert Valid(t) ==> Valid(u);
      Ok(Database(Some(u)))
  }
}
