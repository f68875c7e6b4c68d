/** Properties that relate several calls of the store: bootstrap idempotence,
    the toggle round trip and its stale-value hazard, idempotence of update
    and delete, and what the listing shows after a create. */
module StoreLaws {
  import opened Results
  import opened Expenses
  import opened ExpenseTable
  import opened Listing
  import opened ExpenseDb

  /** Running the bootstrap a second time, at any later time, changes nothing:
      the sample rows are never inserted twice. */
  lemma InitTableIdempotent(db: Database, now1: int, now2: int)
    ensures InitTable(InitTable(db, now1), now2) == InitTable(db, now1)
    ensures CreateTableIfNotExists(db).rows == [] ==>
              |InitTable(InitTable(db, now1), now2).expenses.value.rows| == 2
  {
  }

  /** Any newest-first ordering of the stored rows has the same timestamp as
      the listing at every position: the listing is fixed up to the order of
      rows created in the same second. */
  lemma ListingFixedUpToTies(db: Database, ordering: seq<Expense>)
    requires db.expenses.Some?
    requires multiset(ordering) == multiset(db.expenses.value.rows)
    requires NewestFirst(ordering)
    ensures var listed := GetAllExpenses(db).value;
      && |listed| == |ordering|
      && forall i :: 0 <= i < |listed| ==> listed[i].createdAt == ordering[i].createdAt
  {
    ListingsAgreeOnTimestamps(GetAllExpenses(db).value, ordering);
  }

  /** After a create, the listing holds a row with the given title and amount,
      the normalised category, the paid flag set, the creation time and an id
      no earlier row carries. */
  lemma CreatedExpenseIsListed(db: Database, data: CreateExpenseInput, now: int)
    requires db.expenses.Some? && Valid(db.expenses.value)
    ensures var listed := GetAllExpenses(CreateExpense(db, data, now).value);
      && listed.Ok?
      && exists e :: e in listed.value
           && e.title == data.title && e.amount == data.amount
           && e.category == NullIfEmpty(data.category)
           && e.paid == 1 && e.createdAt == now
           && e.id !in Ids(db.expenses.value.rows)
  {
    var t := db.expenses.value;
    var u := CreateExpense(db, data, now).value.expenses.value;
    var listed := GetAllExpenses(CreateExpense(db, data, now).value).value;
    var e := u.rows[|t.rows|];
    assert e in multiset(u.rows);
    assert e in listed;
  }

  /** Looking the new record up by its id finds it, and every other id finds
      what it found before the create. */
  lemma CreateThenFind(db: Database, data: CreateExpenseInput, now: int, other: int)
    requires db.expenses.Some? && Valid(db.expenses.value)
    requires other != db.expenses.value.nextId
    ensures var t := db.expenses.value;
      var u := CreateExpense(db, data, now).value.expenses.value;
      && Find(u.rows, t.nextId) == Some(u.rows[|t.rows|])
      && Find(u.rows, other) == Find(t.rows, other)
  {
    var t := db.expenses.value;
    var u := CreateExpense(db, data, now).value.expenses.value;
    FindRow(u.rows, |t.rows|);
    FindAppend(t.rows, u.rows[|t.rows|], other);
    assert u.rows == t.rows + [u.rows[|t.rows|]];
  }

  /** Appending a row with a different id does not change what an id finds. */
  lemma {:induction false} FindAppend(rows: seq<Expense>, e: Expense, id: int)
    requires e.id != id
    ensures Find(rows + [e], id) == Find(rows, id)
  {
    if |rows| > 0 {
      assert (rows + [e])[1..] == rows[1..] + [e];
      FindAppend(rows[1..], e, id);
    }
  }

  /** After a toggle, the record differs from the original only in `paid`,
      which becomes `FlipPaid(currentPaid)`, whatever the caller passes. */
  lemma ToggleThenFind(db: Database, id: int, currentPaid: int, e: Expense)
    requires db.expenses.Some? && Valid(db.expenses.value)
    requires Find(db.expenses.value.rows, id) == Some(e)
    ensures Find(TogglePaidState(db, id, currentPaid).value.expenses.value.rows, id)
            == Some(e.(paid := FlipPaid(currentPaid)))
  {
    var t := db.expenses.value;
    var u := TogglePaidState(db, id, currentPaid).value.expenses.value;
    var i := IndexOf(t.rows, e);
    FindRow(t.rows, i);
    FindRow(u.rows, i);
  }

  /** The position of a stored row. */
  lemma IndexOf(rows: seq<Expense>, e: Expense) returns (i: int)
    requires e in rows
    ensures 0 <= i < |rows| && rows[i] == e
  {
    i :| 0 <= i < |rows| && rows[i] == e;
  }

  /** Toggling with the stored flag and then with the flag just written gives
      back the original table: 1 then 0 restores a paid record, 0 then 1 an
      unpaid one. */
  lemma ToggleRoundTrip(db: Database, id: int, e: Expense)
    requires db.expenses.Some? && Valid(db.expenses.value)
    requires Find(db.expenses.value.rows, id) == Some(e)
    ensures var once := TogglePaidState(db, id, e.paid);
      once.Ok? && TogglePaidState(once.value, id, 1 - e.paid) == Ok(db)
  {
    var t := db.expenses.value;
    var once := TogglePaidState(db, id, e.paid).value;
    var u := once.expenses.value;
    var w := TogglePaidState(once, id, 1 - e.paid).value.expenses.value;
    StoredFlag(t, id, e);
    assert forall i :: 0 <= i < |t.rows| ==> w.rows[i] == t.rows[i].(paid := w.rows[i].paid);
    RestoredFlags(t.rows, w.rows, id, e.paid);
  }

  /** Every stored row with the looked-up id is that record, whose flag is 0 or 1. */
  lemma StoredFlag(t: Table, id: int, e: Expense)
    requires Valid(t) && Find(t.rows, id) == Some(e)
    ensures IsPaidFlag(e.paid)
    ensures forall i :: 0 <= i < |t.rows| && t.rows[i].id == id ==> t.rows[i] == e
  {
    var k := IndexOf(t.rows, e);
    forall i | 0 <= i < |t.rows| && t.rows[i].id == id
      ensures t.rows[i] == e
    {
      FindRow(t.rows, i);
    }
  }

  /** Rows that differ at most in `paid`, and agree on it wherever `id` is
      stored with flag `p`, are the same rows. */
  lemma RestoredFlags(rows: seq<Expense>, rows': seq<Expense>, id: int, p: int)
    requires |rows'| == |rows|
    requires forall i :: 0 <= i < |rows| ==> rows'[i] == rows[i].(paid := rows'[i].paid)
    requires forall i :: 0 <= i < |rows| && rows[i].id == id ==> rows[i].paid == p && rows'[i].paid == p
    requires forall i :: 0 <= i < |rows| && rows[i].id != id ==> rows'[i] == rows[i]
    ensures rows' == rows
  {
    assert forall i :: 0 <= i < |rows| ==> rows'[i] == rows[i];
  }

  /** A stale `currentPaid` (the complement of the stored flag) makes the toggle
      write back the value already stored: the table does not change and the
      user's toggle is lost. */
  lemma StaleToggleChangesNothing(db: Database, id: int, e: Expense)
    requires db.expenses.Some? && Valid(db.expenses.value)
    requires Find(db.expenses.value.rows, id) == Some(e)
    ensures TogglePaidState(db, id, 1 - e.paid) == Ok(db)
  {
    var t := db.expenses.value;
    var u := TogglePaidState(db, id, 1 - e.paid).value.expenses.value;
    StoredFlag(t, id, e);
    RestoredFlags(t.rows, u.rows, id, e.paid);
  }

  /** The updated record keeps id, flag and timestamp and carries the new
      title, amount and normalised category. */
  lemma UpdateThenFind(db: Database, data: UpdateExpenseInput, e: Expense)
    requires db.expenses.Some? && Valid(db.expenses.value)
    requires Find(db.expenses.value.rows, data.id) == Some(e)
    ensures Find(UpdateExpense(db, data).value.expenses.value.rows, data.id)
            == Some(e.(title := data.title, amount := data.amount,
                       category := NullIfEmpty(data.category)))
  {
    var t := db.expenses.value;
    var u := UpdateExpense(db, data).value.expenses.value;
    var i := IndexOf(t.rows, e);
    FindRow(t.rows, i);
    FindRow(u.rows, i);
  }

  /** Repeating an update changes nothing further. */
  lemma UpdateIdempotent(db: Database, data: UpdateExpenseInput)
    requires db.expenses.Some?
    ensures var once := UpdateExpense(db, data);
      once.Ok? && UpdateExpense(once.value, data) == once
  {
    var u := UpdateExpense(db, data).value.expenses.value;
    var w := UpdateExpense(Database(Some(u)), data).value.expenses.value;
    assert w.rows == u.rows;
  }

  /** Repeating a delete changes nothing further. */
  lemma DeleteIdempotent(db: Database, id: int)
    requires db.expenses.Some?
    ensures var once := DeleteExpense(db, id);
      once.Ok? && DeleteExpense(once.value, id) == once
  {
  }

  /** Deleting the record just created gives back the earlier rows, but the
      counter stays advanced: the deleted id is not handed out again. */
  lemma DeleteAfterCreate(db: Database, data: CreateExpenseInput, now: int)
    requires db.expenses.Some? && Valid(db.expenses.value)
    ensures var t := db.expenses.value;
      var created := CreateExpense(db, data, now).value;
      var newId := created.expenses.value.rows[|t.rows|].id;
      var back := DeleteExpense(created, newId).value.expenses.value;
      && back.rows == t.rows
      && back.nextId > newId
  {
    var t := db.expenses.value;
    var u := CreateExpense(db, data, now).value.expenses.value;
    var e := u.rows[|t.rows|];
    assert u.rows == t.rows + [e];
    DeleteAppended(t.rows, e);
  }

  /** Deleting the id of an appended row whose id is new removes just that row. */
  lemma {:induction false} DeleteAppended(rows: seq<Expense>, e: Expense)
    requires e.id !in Ids(rows)
    ensures DeleteWhere(rows + [e], e.id) == rows
  {
    if |rows| > 0 {
      assert rows == [rows[0]] + rows[1..];
      assert rows[0] in rows;
      assert (rows + [e])[1..] == rows[1..] + [e];
      DeleteAppended(rows[1..], e);
    }
  }
}
