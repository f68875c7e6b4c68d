/** Any sequence of store calls, as the screen issues them one after another,
    and the invariants that hold along it: the table stays valid (distinct ids
    below the counter, 0/1 flags), the counter never goes back so no id is
    handed out twice, and rows written from validated input keep a positive
    amount and a non-blank title. */
module History {
  import opened Results
  import opened Expenses
  import opened ExpenseTable
  import opened ExpenseDb
  import ExpenseForm

  /** One call into the store. */
  datatype Call =
    | Init(startedAt: int)
    | Create(input: CreateExpenseInput, at: int)
    | Toggle(id: int, currentPaid: int)
    | Update(changes: UpdateExpenseInput)
    | Delete(id: int)
    | ListAll

  /** The database after one call; a call that fails leaves it as it was, and
      listing only reads. */
  function Step(db: Database, c: Call): Database
  {
    var r := match c
      case Init(now) => Ok(InitTable(db, now))
      case Create(data, now) => CreateExpense(db, data, now)
      case Toggle(id, p) => TogglePaidState(db, id, p)
      case Update(data) => UpdateExpense(db, data)
      case Delete(id) => DeleteExpense(db, id)
      case ListAll => Ok(db);
    if r.Ok? then r.value else db
  }

  /** The database after the calls, in order. */
  function Run(db: Database, calls: seq<Call>): Database
    decreases |calls|
  {
    if |calls| == 0 then db else Run(Step(db, calls[0]), calls[1..])
  }

  /** Every call keeps the table invariant, whatever the order of calls. */
  lemma {:induction false} RunPreservesValid(db: Database, calls: seq<Call>)
    requires ValidDb(db)
    ensures ValidDb(Run(db, calls))
    decreases |calls|
  {
    if |calls| > 0 {
      RunPreservesValid(Step(db, calls[0]), calls[1..]);
    }
  }

  /** Once the table exists it stays, and its counter never decreases. */
  lemma {:induction false} RunKeepsCounter(db: Database, calls: seq<Call>)
    requires db.expenses.Some?
    ensures Run(db, calls).expenses.Some?
    ensures Run(db, calls).expenses.value.nextId >= db.expenses.value.nextId
    decreases |calls|
  {
    if |calls| > 0 {
      RunKeepsCounter(Step(db, calls[0]), calls[1..]);
    }
  }

  /** An id that is stored now is never given to a later row, even after that
      row has been deleted in between. */
  lemma IdsNeverReused(db: Database, calls: seq<Call>, id: int, data: CreateExpenseInput, now: int)
    requires db.expenses.Some? && Valid(db.expenses.value)
    requires id in Ids(db.expenses.value.rows)
    ensures var later := Run(db, calls);
      && later.expenses.Some?
      && var t := later.expenses.value;
         CreateExpense(later, data, now).value.expenses.value.rows[|t.rows|].id != id
  {
    var e :| e in db.expenses.value.rows && e.id == id;
    var k :| 0 <= k < |db.expenses.value.rows| && db.expenses.value.rows[k] == e;
    RunKeepsCounter(db, calls);
  }

  /** Every row has a positive amount and a non-blank title. */
  predicate RowsAccepted(db: Database)
  {
    db.expenses.Some? ==>
      forall e :: e in db.expenses.value.rows ==> ExpenseForm.Accepted(e.title, e.amount)
  }

  /** A create or update carries input the form accepts; other calls carry none. */
  predicate CallAccepted(c: Call)
  {
    match c
    case Create(data, _) => ExpenseForm.Accepted(data.title, data.amount)
    case Update(data) => ExpenseForm.Accepted(data.title, data.amount)
    case _ => true
  }

  /** Every create and update carries input the form accepts. */
  predicate CallsAccepted(calls: seq<Call>)
  {
    forall i :: 0 <= i < |calls| ==> CallAccepted(calls[i])
  }

  /** One call with accepted input keeps every row accepted. */
  lemma StepKeepsRowsAccepted(db: Database, c: Call)
    requires RowsAccepted(db)
    requires CallAccepted(c)
    ensures RowsAccepted(Step(db, c))
  {
    match c
    case Init(now) =>
      var t := CreateTableIfNotExists(db);
      if |t.rows| == 0 {
        assert !ExpenseForm.IsBlank("Cà phê") by {
          assert !ExpenseForm.IsJsWhitespace("Cà phê"[0]);
        }
        assert !ExpenseForm.IsBlank("Ăn trưa") by {
          assert !ExpenseForm.IsJsWhitespace("Ăn trưa"[0]);
        }
      }
    case Create(data, now) =>
      if db.expenses.Some? {
        var t := db.expenses.value;
        var u := Step(db, c).expenses.value;
        forall e | e in u.rows
          ensures ExpenseForm.Accepted(e.title, e.amount)
        {
          var k :| 0 <= k < |u.rows| && u.rows[k] == e;
          if k < |t.rows| {
            assert u.rows[..|t.rows|][k] == e;
            assert e in t.rows;
          }
        }
      }
    case Toggle(id, p) =>
      if db.expenses.Some? {
        var t := db.expenses.value;
        var u := Step(db, c).expenses.value;
        forall e | e in u.rows
          ensures ExpenseForm.Accepted(e.title, e.amount)
        {
          var k :| 0 <= k < |u.rows| && u.rows[k] == e;
          assert t.rows[k] in t.rows;
        }
      }
    case Update(data) =>
      if db.expenses.Some? {
        var t := db.expenses.value;
        var u := Step(db, c).expenses.value;
        forall e | e in u.rows
          ensures ExpenseForm.Accepted(e.title, e.amount)
        {
          var k :| 0 <= k < |u.rows| && u.rows[k] == e;
          assert t.rows[k] in t.rows;
        }
      }
    case Delete(id) =>
    case ListAll =>
  }

  /** When the form has checked every create and update, every stored row
      keeps a positive amount and a non-blank title. */
  lemma {:induction false} RunKeepsRowsAccepted(db: Database, calls: seq<Call>)
    requires RowsAccepted(db)
    requires CallsAccepted(calls)
    ensures RowsAccepted(Run(db, calls))
    decreases |calls|
  {
    if |calls| > 0 {
      StepKeepsRowsAccepted(db, calls[0]);
      assert CallsAccepted(calls[1..]) by {
        forall i | 0 <= i < |calls[1..]|
          ensures calls[1..][i] == calls[i + 1]
        {
        }
      }
      RunKeepsRowsAccepted(Step(db, calls[0]), calls[1..]);
    }
  }
}
