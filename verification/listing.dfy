/** `SELECT * FROM expenses ORDER BY created_at DESC`: every stored row,
    newest first. SQL leaves the order of equal timestamps open; this model
    keeps such rows in storage (rowid) order, and its contract promises only
    what the query promises. */
module Listing {
  import opened Expenses

  /** Non-increasing `created_at` from front to back. */
  predicate NewestFirst(s: seq<Expense>)
  {
    forall i, j :: 0 <= i < j < |s| ==> s[i].createdAt >= s[j].createdAt
  }

  /** Places `x` ahead of the first row that is not newer than it. */
  function InsertNewestFirst(x: Expense, s: seq<Expense>): (r: seq<Expense>)
    requires NewestFirst(s)
    ensures NewestFirst(r)
    ensures multiset(r) == multiset(s) + multiset{x}
  {
    if |s| == 0 then [x]
    else if x.createdAt >= s[0].createdAt then
      assert forall e :: e in s ==> x.createdAt >= e.createdAt by {
        NewestFirstHead(s);
      }
      NewestCons(x, s);
      [x] + s
    else
      var rest := InsertNewestFirst(x, s[1..]);
      InsertBehindHead(x, s, rest);
      [s[0]] + rest
  }

  /** When `x` is older than the head, the head followed by `x` merged into
      the tail is newest-first and holds the same rows. */
  lemma InsertBehindHead(x: Expense, s: seq<Expense>, rest: seq<Expense>)
    requires NewestFirst(s) && |s| > 0 && x.createdAt < s[0].createdAt
    requires NewestFirst(rest) && multiset(rest) == multiset(s[1..]) + multiset{x}
    ensures NewestFirst([s[0]] + rest)
    ensures multiset([s[0]] + rest) == multiset(s) + multiset{x}
  {
    assert s == [s[0]] + s[1..];
    NewestFirstHead(s);
    forall e | e in rest
      ensures s[0].createdAt >= e.createdAt
    {
      assert e in multiset(rest);
    }
    NewestCons(s[0], rest);
  }

  /** The head of a newest-first sequence is at least as new as every row in it. */
  lemma NewestFirstHead(s: seq<Expense>)
    requires NewestFirst(s) && |s| > 0
    ensures forall e :: e in s ==> s[0].createdAt >= e.createdAt
  {
    forall e | e in s
      ensures s[0].createdAt >= e.createdAt
    {
      var k :| 0 <= k < |s| && s[k] == e;
    }
  }

  /** A row at least as new as every row of a newest-first sequence may lead it. */
  lemma NewestCons(x: Expense, s: seq<Expense>)
    requires NewestFirst(s)
    requires forall e :: e in s ==> x.createdAt >= e.createdAt
    ensures NewestFirst([x] + s)
  {
    var r := [x] + s;
    forall i, j | 0 <= i < j < |r|
      ensures r[i].createdAt >= r[j].createdAt
    {
      assert r[j] == s[j - 1];
      if i == 0 {
        assert r[j] in s;
      } else {
        assert r[i] == s[i - 1];
      }
    }
  }

  /** The rows of the table, newest first: the result of the listing query. */
  function SortNewestFirst(s: seq<Expense>): (r: seq<Expense>)
    ensures NewestFirst(r)
    ensures multiset(r) == multiset(s)
  {
    if |s| == 0 then []
    else
      assert s == [s[0]] + s[1..];
      InsertNewestFirst(s[0], SortNewestFirst(s[1..]))
  }

  /** Taking one row out of a newest-first list leaves a newest-first list
      of the other rows. */
  lemma RemoveAt(s: seq<Expense>, j: int)
    requires NewestFirst(s) && 0 <= j < |s|
    ensures NewestFirst(s[..j] + s[j + 1..])
    ensures multiset(s[..j] + s[j + 1..]) + multiset{s[j]} == multiset(s)
  {
    var s' := s[..j] + s[j + 1..];
    assert s == s[..j] + [s[j]] + s[j + 1..];
    forall x, y | 0 <= x < y < |s'|
      ensures s'[x].createdAt >= s'[y].createdAt
    {
      var x' := if x < j then x else x + 1;
      var y' := if y < j then y else y + 1;
      assert s'[x] == s[x'] && s'[y] == s[y'];
    }
  }

  /** Two newest-first orderings of the same non-empty rows start with the
      same timestamp, the newest one. */
  lemma HeadsAgree(a: seq<Expense>, b: seq<Expense>)
    requires NewestFirst(a) && NewestFirst(b)
    requires multiset(a) == multiset(b) && |a| > 0
    ensures |b| > 0 && a[0].createdAt == b[0].createdAt
  {
    assert a[0] in multiset(b);
    assert b[0] in multiset(a);
    var j :| 0 <= j < |b| && b[j] == a[0];
    var k :| 0 <= k < |a| && a[k] == b[0];
  }

  /** The same element taken from two equal multisets leaves equal multisets. */
  lemma CancelOne(m1: multiset<Expense>, m2: multiset<Expense>, x: Expense)
    requires m1 + multiset{x} == m2 + multiset{x}
    ensures m1 == m2
  {
    forall y
      ensures m1[y] == m2[y]
    {
      assert (m1 + multiset{x})[y] == (m2 + multiset{x})[y];
    }
  }

  /** Any two newest-first orderings of the same rows agree on the timestamp
      at every position: the query fixes the listing up to the order of rows
      that share a `created_at`. */
  lemma {:induction false} ListingsAgreeOnTimestamps(a: seq<Expense>, b: seq<Expense>)
    requires NewestFirst(a) && NewestFirst(b)
    requires multiset(a) == multiset(b)
    ensures |a| == |b|
    ensures forall i :: 0 <= i < |a| ==> a[i].createdAt == b[i].createdAt
    decreases |a|
  {
    assert |a| == |multiset(a)| == |multiset(b)| == |b|;
    if |a| > 0 {
      HeadsAgree(a, b);
      assert a[0] in multiset(b);
      var j :| 0 <= j < |b| && b[j] == a[0];
      var b' := b[..j] + b[j + 1..];
      RemoveAt(b, j);
      assert a == [a[0]] + a[1..];
      CancelOne(multiset(b'), multiset(a[1..]), a[0]);
      ListingsAgreeOnTimestamps(a[1..], b');
      PutBack(a, b, j);
    }
  }

  /** If the rest of `a` matches `b` without its row `j` position by position,
      and `a` starts with that row, `a` matches all of `b`. */
  lemma PutBack(a: seq<Expense>, b: seq<Expense>, j: int)
    requires NewestFirst(b) && |a| == |b| && 0 <= j < |b|
    requires a[0] == b[j] && b[0].createdAt == a[0].createdAt
    requires var b' := b[..j] + b[j + 1..];
      forall i :: 0 <= i < |a[1..]| ==> a[1..][i].createdAt == b'[i].createdAt
    ensures forall i :: 0 <= i < |a| ==> a[i].createdAt == b[i].createdAt
  {
    var b' := b[..j] + b[j + 1..];
    forall i | 0 < i < |a|
      ensures a[i].createdAt == b[i].createdAt
    {
      assert a[1..][i - 1] == a[i];
      if i <= j {
        assert b'[i - 1] == b[i - 1];
        assert b[0].createdAt >= b[i - 1].createdAt >= b[i].createdAt >= b[j].createdAt;
      } else {
        assert b'[i - 1] == b[i];
      }
    }
  }
}
