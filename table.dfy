/** The requisition table as the persistence context holds it: a sequence
    of rows, in the order an unsorted query returns them, keyed by `Id`. */
module Table {
  import opened Results
  import opened Entities

  /** No two rows share a primary key. */
  predicate UniqueIds(rows: seq<Entity>)
  {
    forall i, j :: 0 <= i < j < |rows| ==> rows[i].Id != rows[j].Id
  }

  /** The position of the first row keyed `id`, or `|rows|` if there is none. */
  function IndexOf(rows: seq<Entity>, id: Guid): (i: nat)
    ensures i <= |rows|
    ensures i < |rows| ==> rows[i].Id == id
    ensures forall j :: 0 <= j < i ==> rows[j].Id != id
  {
    if rows == [] then 0
    else if rows[0].Id == id then 0
    else 1 + IndexOf(rows[1..], id)
  }

  /** The row `FirstOrDefault(entity => entity.Id == id)` returns. */
  function FindById(rows: seq<Entity>, id: Guid): (r: Option<Entity>)
    ensures r.None? <==> forall e :: e in rows ==> e.Id != id
    ensures r.Some? ==> r.value in rows && r.value.Id == id
  {
    var i := IndexOf(rows, id);
    if i < |rows| then Some(rows[i]) else None
  }

  /** The table after the row keyed `e.Id` is overwritten with `e`. */
  function Replace(rows: seq<Entity>, e: Entity): seq<Entity>
  {
    var i := IndexOf(rows, e.Id);
    if i < |rows| then rows[i := e] else rows
  }

  /** The table after the row keyed `id` is removed. */
  function Without(rows: seq<Entity>, id: Guid): seq<Entity>
  {
    var i := IndexOf(rows, id);
    if i < |rows| then rows[..i] + rows[i + 1..] else rows
  }

  /** In a table with unique keys, a row is found by its own key. */
  lemma FindByIdUnique(rows: seq<Entity>, e: Entity)
    requires UniqueIds(rows) && e in rows
    ensures FindById(rows, e.Id) == Some(e)
  {
    var k :| 0 <= k < |rows| && rows[k] == e;
    var i := IndexOf(rows, e.Id);
    assert i <= k;
  }

  /** Two tables with unique keys that hold the same rows keyed `id` give
      the same answer to a lookup of `id`. */
  lemma FindByIdAgrees(a: seq<Entity>, b: seq<Entity>, id: Guid)
    requires UniqueIds(a) && UniqueIds(b)
    requires forall e: Entity :: e.Id == id ==> (e in a <==> e in b)
    ensures FindById(a, id) == FindById(b, id)
  {
    var r := FindById(a, id);
    if r.Some? {
      FindByIdUnique(b, r.value);
    }
  }

  /** Appending a row whose key is new keeps keys unique, makes the row
      findable by its key, and changes no other lookup. */
  lemma AppendFrame(rows: seq<Entity>, m: Entity)
    requires UniqueIds(rows) && FindById(rows, m.Id).None?
    ensures UniqueIds(rows + [m])
    ensures FindById(rows + [m], m.Id) == Some(m)
    ensures forall id :: id != m.Id ==> FindById(rows + [m], id) == FindById(rows, id)
    ensures forall e :: e in rows + [m] <==> e in rows || e == m
  {
    var r := rows + [m];
    assert forall i :: 0 <= i < |rows| ==> rows[i] in rows;
    FindByIdUnique(r, m);
    forall id | id != m.Id
      ensures FindById(r, id) == FindById(rows, id)
    {
      FindByIdAgrees(r, rows, id);
    }
  }

  lemma ReplacedAt(rows: seq<Entity>, e: Entity)
    requires UniqueIds(rows) && FindById(rows, e.Id).Some?
    ensures |Replace(rows, e)| == |rows|
    ensures forall j :: 0 <= j < |rows| ==> Replace(rows, e)[j] == if rows[j].Id == e.Id then e else rows[j]
    ensures UniqueIds(Replace(rows, e))
  {
    var i := IndexOf(rows, e.Id);
    var r := rows[i := e];
    assert Replace(rows, e) == r;
    assert forall j :: 0 <= j < |rows| && rows[j].Id == e.Id ==> j == i;
    forall a, b | 0 <= a < b < |r|
      ensures r[a].Id != r[b].Id
    {
      if a != i && b != i { assert r[a] == rows[a] && r[b] == rows[b]; }
    }
  }

  lemma ReplacedMember(rows: seq<Entity>, e: Entity, r: seq<Entity>, x: Entity)
    requires |r| == |rows|
    requires forall j :: 0 <= j < |rows| ==> r[j] == if rows[j].Id == e.Id then e else rows[j]
    requires x.Id != e.Id
    ensures x in r <==> x in rows
  {
    if x in r {
      var j :| 0 <= j < |r| && r[j] == x;
      assert rows[j] == x;
    }
    if x in rows {
      var j :| 0 <= j < |rows| && rows[j] == x;
      assert r[j] == x;
    }
  }

  /** Overwriting the row keyed `e.Id` keeps the table's length and its
      keys unique, puts `e` in place of exactly that row, and changes no
      other row. */
  lemma ReplaceFrame(rows: seq<Entity>, e: Entity)
    requires UniqueIds(rows) && FindById(rows, e.Id).Some?
    ensures UniqueIds(Replace(rows, e))
    ensures |Replace(rows, e)| == |rows|
    ensures forall j :: 0 <= j < |rows| ==> Replace(rows, e)[j] == if rows[j].Id == e.Id then e else rows[j]
    ensures FindById(Replace(rows, e), e.Id) == Some(e)
    ensures forall id :: id != e.Id ==> FindById(Replace(rows, e), id) == FindById(rows, id)
  {
    var r := Replace(rows, e);
    ReplacedAt(rows, e);
    var i := IndexOf(rows, e.Id);
    assert r[i] == e;
    FindByIdUnique(r, e);
    forall id | id != e.Id
      ensures FindById(r, id) == FindById(rows, id)
    {
      forall x: Entity | x.Id == id
        ensures x in r <==> x in rows
      {
        ReplacedMember(rows, e, r, x);
      }
      FindByIdAgrees(r, rows, id);
    }
  }

  /** The rows left after removing the row at `i`, in order. */
  lemma RemovedAt(rows: seq<Entity>, i: nat, r: seq<Entity>)
    requires i < |rows| && r == rows[..i] + rows[i + 1..]
    ensures |r| == |rows| - 1
    ensures forall j :: 0 <= j < |r| ==> r[j] == rows[if j < i then j else j + 1]
  {
  }

  lemma WithoutMembers(rows: seq<Entity>, id: Guid)
    requires UniqueIds(rows) && FindById(rows, id).Some?
    ensures UniqueIds(Without(rows, id))
    ensures |Without(rows, id)| == |rows| - 1
    ensures forall e :: e in Without(rows, id) <==> e in rows && e.Id != id
  {
    var i := IndexOf(rows, id);
    var r := rows[..i] + rows[i + 1..];
    assert Without(rows, id) == r;
    RemovedAt(rows, i, r);
    assert forall j :: 0 <= j < |rows| && rows[j].Id == id ==> j == i;
    forall e
      ensures e in r <==> e in rows && e.Id != id
    {
      RemovedMember(rows, i, r, e);
    }
    RemovedUnique(rows, i, r);
  }

  lemma RemovedMember(rows: seq<Entity>, i: nat, r: seq<Entity>, e: Entity)
    requires i < |rows| && |r| == |rows| - 1
    requires forall j :: 0 <= j < |r| ==> r[j] == rows[if j < i then j else j + 1]
    requires forall j :: 0 <= j < |rows| && rows[j].Id == rows[i].Id ==> j == i
    ensures e in r <==> e in rows && e.Id != rows[i].Id
  {
    if e in r {
      var j :| 0 <= j < |r| && r[j] == e;
      var k := if j < i then j else j + 1;
      assert rows[k] == e && k != i;
    }
    if e in rows && e.Id != rows[i].Id {
      var k :| 0 <= k < |rows| && rows[k] == e;
      var j := if k < i then k else k - 1;
      assert r[j] == e;
    }
  }

  lemma RemovedUnique(rows: seq<Entity>, i: nat, r: seq<Entity>)
    requires UniqueIds(rows) && i < |rows| && |r| == |rows| - 1
    requires forall j :: 0 <= j < |r| ==> r[j] == rows[if j < i then j else j + 1]
    ensures UniqueIds(r)
  {
    forall a, b | 0 <= a < b < |r|
      ensures r[a].Id != r[b].Id
    {
      var a', b' := if a < i then a else a + 1, if b < i then b else b + 1;
      assert r[a] == rows[a'] && r[b] == rows[b'];
    }
  }

  /** Removing the row keyed `id` from a table that holds one shortens it
      by one, keeps the other rows in order and their keys unique, and
      changes no other lookup; `id` is then no longer found. */
  lemma WithoutFrame(rows: seq<Entity>, id: Guid)
    requires UniqueIds(rows) && FindById(rows, id).Some?
    ensures UniqueIds(Without(rows, id))
    ensures |Without(rows, id)| == |rows| - 1
    ensures forall e :: e in Without(rows, id) <==> e in rows && e.Id != id
    ensures FindById(Without(rows, id), id).None?
    ensures forall other :: other != id ==> FindById(Without(rows, id), other) == FindById(rows, other)
  {
    var r := Without(rows, id);
    WithoutMembers(rows, id);
    forall other | other != id
      ensures FindById(r, other) == FindById(rows, other)
    {
      FindByIdAgrees(r, rows, other);
    }
  }

  /** A slice of a table with unique keys has unique keys. */
  lemma UniqueIdsSlice(rows: seq<Entity>, lo: int, hi: int)
    requires UniqueIds(rows) && 0 <= lo <= hi <= |rows|
    ensures UniqueIds(rows[lo..hi])
  {
    var r := rows[lo..hi];
    forall i, j | 0 <= i < j < |r|
      ensures r[i].Id != r[j].Id
    {
      assert r[i] == rows[lo + i] && r[j] == rows[lo + j];
    }
  }

  /** When two tables together have unique keys, they share no key. */
  lemma UniqueIdsSplit(a: seq<Entity>, b: seq<Entity>)
    requires UniqueIds(a + b)
    ensures forall x, y :: x in a && y in b ==> x.Id != y.Id
  {
    var both := a + b;
    forall x, y | x in a && y in b
      ensures x.Id != y.Id
    {
      var i :| 0 <= i < |a| && a[i] == x;
      var j :| 0 <= j < |b| && b[j] == y;
      assert both[i] == x && both[|a| + j] == y;
    }
  }

  /** A row whose key no other row has can be put in front. */
  lemma UniqueIdsCons(e: Entity, rows: seq<Entity>)
    requires UniqueIds(rows) && forall j :: 0 <= j < |rows| ==> rows[j].Id != e.Id
    ensures UniqueIds([e] + rows)
  {
    var r := [e] + rows;
    forall i, j | 0 <= i < j < |r|
      ensures r[i].Id != r[j].Id
    {
      assert r[j] == rows[j - 1];
      if i > 0 { assert r[i] == rows[i - 1]; }
    }
  }
}
