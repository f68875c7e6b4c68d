/** The `expenses` table as a value: its rows in rowid order and the
    AUTOINCREMENT counter, with the row-level effect of each SQL statement
    the store issues (INSERT, UPDATE ... WHERE id = ?, DELETE ... WHERE id = ?). */
module ExpenseTable {
  import opened Results
  import opened Expenses

  /** `nextId` is the id AUTOINCREMENT hands to the next INSERT: one more than
      the largest id the table has ever issued, deleted rows included. */
  datatype Table = Table(rows: seq<Expense>, nextId: int)

  /** The table as `CREATE TABLE` leaves it: no rows, first id 1. */
  const EmptyTable := Table([], 1)

  /** Ids of the stored rows. */
  function Ids(rows: seq<Expense>): set<int>
  {
    set e | e in rows :: e.id
  }

  /** Rows appear in strictly increasing id order; in particular ids are distinct. */
  predicate IdsAscending(rows: seq<Expense>)
  {
    forall i, j :: 0 <= i < j < |rows| ==> rows[i].id < rows[j].id
  }

  /** The table invariant: ids are distinct, positive and below the counter
      (so the counter never hands out an id in use or used before), and every
      `paid` value is 0 or 1. */
  predicate Valid(t: Table)
  {
    && 1 <= t.nextId
    && IdsAscending(t.rows)
    && (forall i :: 0 <= i < |t.rows| ==> 1 <= t.rows[i].id < t.nextId)
    && (forall i :: 0 <= i < |t.rows| ==> IsPaidFlag(t.rows[i].paid))
  }

  /** The row a `WHERE id = ?` clause selects, if any. */
  function Find(rows: seq<Expense>, id: int): (r: Option<Expense>)
    ensures r.Some? ==> r.value in rows && r.value.id == id
    ensures r.None? <==> id !in Ids(rows)
  {
    if |rows| == 0 then None
    else if rows[0].id == id then Some(rows[0])
    else
      assert Ids(rows) == {rows[0].id} + Ids(rows[1..]) by {
        assert rows == [rows[0]] + rows[1..];
      }
      Find(rows[1..], id)
  }

  /** With distinct ids, the row found for an id is the one that carries it. */
  lemma {:induction false} FindRow(rows: seq<Expense>, i: int)
    requires IdsAscending(rows)
    requires 0 <= i < |rows|
    ensures Find(rows, rows[i].id) == Some(rows[i])
  {
    if i > 0 {
      assert rows[0].id < rows[i].id;
      FindRow(rows[1..], i - 1);
    }
  }

  /** `INSERT INTO expenses (...) VALUES (...)` with an AUTOINCREMENT key: the
      new row is appended under the counter's id and the counter advances. */
  function Insert(t: Table, title: string, amount: real, category: Option<string>,
                  paid: int, createdAt: int): (r: Table)
    ensures |r.rows| == |t.rows| + 1
    ensures r.rows[..|t.rows|] == t.rows
    ensures var e := r.rows[|t.rows|];
      && e.id == t.nextId && e.title == title && e.amount == amount
      && e.category == category && e.paid == paid && e.createdAt == createdAt
    ensures Valid(t) ==> t.nextId !in Ids(t.rows)
    ensures t.nextId < r.nextId
    ensures Valid(t) && IsPaidFlag(paid) ==> Valid(r)
  {
    Table(t.rows + [Expense(t.nextId, title, amount, category, paid, createdAt)], t.nextId + 1)
  }

  /** `UPDATE expenses SET ... WHERE id = ?`: every row carrying `id` is
      rewritten by `f`, every other row is kept, and the order is unchanged. */
  function UpdateWhere(rows: seq<Expense>, id: int, f: Expense -> Expense): (r: seq<Expense>)
    ensures |r| == |rows|
    ensures forall i :: 0 <= i < |rows| && rows[i].id == id ==> r[i] == f(rows[i])
    ensures forall i :: 0 <= i < |rows| && rows[i].id != id ==> r[i] == rows[i]
  {
    if |rows| == 0 then []
    else [if rows[0].id == id then f(rows[0]) else rows[0]] + UpdateWhere(rows[1..], id, f)
  }

  /** `DELETE FROM expenses WHERE id = ?`: the rows carrying `id` go, all
      others stay in their order. */
  function DeleteWhere(rows: seq<Expense>, id: int): (r: seq<Expense>)
    ensures forall e :: e in r <==> e in rows && e.id != id
    ensures Ids(r) == Ids(rows) - {id}
    ensures id !in Ids(rows) ==> r == rows
    ensures |r| <= |rows|
  {
    if |rows| == 0 then []
    else
      assert Ids(rows) == {rows[0].id} + Ids(rows[1..]) by {
        assert rows == [rows[0]] + rows[1..];
      }
      var rest := DeleteWhere(rows[1..], id);
      if rows[0].id == id then rest else [rows[0]] + rest
  }

  /** Deleting keeps the surviving rows in ascending id order. */
  lemma {:induction false} DeleteKeepsAscending(rows: seq<Expense>, id: int)
    ensures IdsAscending(rows) ==> IdsAscending(DeleteWhere(rows, id))
  {
    if |rows| > 0 && IdsAscending(rows) {
      var rest := DeleteWhere(rows[1..], id);
      DeleteKeepsAscending(rows[1..], id);
      if rows[0].id != id {
        forall e | e in rest
          ensures rows[0].id < e.id
        {
          assert e in rows[1..];
          var k :| 0 <= k < |rows[1..]| && rows[1..][k] == e;
          assert rows[k + 1] == e;
        }
        AscendingCons(rows[0], rest);
      }
    }
  }

  /** A row below every id of an ascending sequence may be put in front of it. */
  lemma AscendingCons(x: Expense, s: seq<Expense>)
    requires IdsAscending(s)
    requires forall e :: e in s ==> x.id < e.id
    ensures IdsAscending([x] + s)
  {
    var r := [x] + s;
    forall i, j | 0 <= i < j < |r|
      ensures r[i].id < r[j].id
    {
      assert r[j] == s[j - 1];
      if i == 0 {
        assert r[j] in s;
      } else {
        assert r[i] == s[i - 1];
      }
    }
  }

  /** With distinct ids, deleting an id that is present removes exactly one row. */
  lemma {:induction false} DeleteRemovesOne(rows: seq<Expense>, id: int)
    ensures IdsAscending(rows) && id in Ids(rows) ==> |DeleteWhere(rows, id)| == |rows| - 1
  {
    if !(IdsAscending(rows) && id in Ids(rows)) {
      return;
    }
    assert rows == [rows[0]] + rows[1..];
    assert Ids(rows) == {rows[0].id} + Ids(rows[1..]);
    if rows[0].id == id {
      assert id !in Ids(rows[1..]);
    } else {
      DeleteRemovesOne(rows[1..], id);
    }
  }
}
