/** `OrderBy` and `OrderByDescending` on a sort key. The database runs the
    sort; the model fixes its tie order as a stable sort, so rows with equal
    keys keep the order they arrived in. */
module Ordering {
  import opened Entities
  import opened Table

  datatype Direction = Ascending | Descending

  /** Whether a row with key `a` must come strictly before one with key `b`. */
  predicate Before(d: Direction, a: int, b: int)
  {
    match d
    case Ascending => a < b
    case Descending => a > b
  }

  /** Keys are non-decreasing (ascending) or non-increasing (descending). */
  predicate Sorted(s: seq<Entity>, p: Property, d: Direction)
  {
    forall i, j :: 0 <= i < j < |s| ==> !Before(d, KeyOf(p, s[j]), KeyOf(p, s[i]))
  }

  /** Any slice of a sorted sequence is sorted. */
  lemma SliceSorted(s: seq<Entity>, lo: int, hi: int, p: Property, d: Direction)
    requires 0 <= lo <= hi <= |s| && Sorted(s, p, d)
    ensures Sorted(s[lo..hi], p, d)
  {
    var r := s[lo..hi];
    forall i, j | 0 <= i < j < |r|
      ensures !Before(d, KeyOf(p, r[j]), KeyOf(p, r[i]))
    {
      assert r[i] == s[lo + i] && r[j] == s[lo + j];
    }
  }

  /** A row whose key need not follow any key of a sorted sequence can be
      put in front of it. */
  lemma SortedCons(e: Entity, s: seq<Entity>, p: Property, d: Direction)
    requires Sorted(s, p, d)
    requires forall j :: 0 <= j < |s| ==> !Before(d, KeyOf(p, s[j]), KeyOf(p, e))
    ensures Sorted([e] + s, p, d)
  {
    var r := [e] + s;
    forall i, j | 0 <= i < j < |r|
      ensures !Before(d, KeyOf(p, r[j]), KeyOf(p, r[i]))
    {
      assert r[j] == s[j - 1];
      if i > 0 { assert r[i] == s[i - 1]; }
    }
  }

  /** Inserts `x` ahead of the first row that need not precede it. */
  function Insert(x: Entity, t: seq<Entity>, p: Property, d: Direction): seq<Entity>
  {
    if t == [] then [x]
    else if Before(d, KeyOf(p, t[0]), KeyOf(p, x)) then [t[0]] + Insert(x, t[1..], p, d)
    else [x] + t
  }

  /** The rows ordered by the key of `p` in direction `d`, by insertion. */
  function SortBy(s: seq<Entity>, p: Property, d: Direction): seq<Entity>
  {
    if s == [] then [] else Insert(s[0], SortBy(s[1..], p, d), p, d)
  }

  /** An insertion adds exactly the one row. */
  lemma {:induction false} InsertPermutes(x: Entity, t: seq<Entity>, p: Property, d: Direction)
    ensures multiset(Insert(x, t, p, d)) == multiset(t) + multiset{x}
  {
    if t != [] && Before(d, KeyOf(p, t[0]), KeyOf(p, x)) {
      InsertPermutes(x, t[1..], p, d);
      assert t == [t[0]] + t[1..];
    }
  }

  /** `SortBy` returns a permutation of its input. */
  lemma {:induction false} SortByPermutes(s: seq<Entity>, p: Property, d: Direction)
    ensures multiset(SortBy(s, p, d)) == multiset(s)
  {
    if s != [] {
      SortByPermutes(s[1..], p, d);
      InsertPermutes(s[0], SortBy(s[1..], p, d), p, d);
      assert s == [s[0]] + s[1..];
    }
  }

  /** The rows of `s` whose key under `p` is `k`, in their order in `s`. */
  function WithKey(s: seq<Entity>, p: Property, k: int): seq<Entity>
  {
    if s == [] then []
    else if KeyOf(p, s[0]) == k then [s[0]] + WithKey(s[1..], p, k)
    else WithKey(s[1..], p, k)
  }

  lemma {:induction false} WithKeyConcat(a: seq<Entity>, b: seq<Entity>, p: Property, k: int)
    ensures WithKey(a + b, p, k) == WithKey(a, p, k) + WithKey(b, p, k)
  {
    if a == [] {
      assert a + b == b;
    } else {
      var ab := a + b;
      assert ab[0] == a[0];
      assert ab[1..] == a[1..] + b;
      WithKeyConcat(a[1..], b, p, k);
      if KeyOf(p, a[0]) == k {
        assert WithKey(ab, p, k) == [a[0]] + WithKey(a[1..] + b, p, k);
        assert WithKey(a, p, k) == [a[0]] + WithKey(a[1..], p, k);
      }
    }
  }

  lemma WithKeySingle(e: Entity, p: Property, k: int)
    ensures WithKey([e], p, k) == if KeyOf(p, e) == k then [e] else []
  {
    assert [e][1..] == [];
  }

  /** No key of `s` must come before `v`. */
  predicate NoneBefore(s: seq<Entity>, p: Property, d: Direction, v: int)
  {
    forall j :: 0 <= j < |s| ==> !Before(d, KeyOf(p, s[j]), v)
  }

  lemma {:induction false} InsertKeepsBound(x: Entity, t: seq<Entity>, p: Property, d: Direction, v: int)
    requires NoneBefore(t, p, d, v) && !Before(d, KeyOf(p, x), v)
    ensures NoneBefore(Insert(x, t, p, d), p, d, v)
  {
    if t != [] && Before(d, KeyOf(p, t[0]), KeyOf(p, x)) {
      var rest := Insert(x, t[1..], p, d);
      assert NoneBefore(t[1..], p, d, v) by {
        forall j | 0 <= j < |t[1..]| ensures !Before(d, KeyOf(p, t[1..][j]), v) {
          assert t[1..][j] == t[j + 1];
        }
      }
      InsertKeepsBound(x, t[1..], p, d, v);
      var r := [t[0]] + rest;
      assert Insert(x, t, p, d) == r;
      forall j | 0 <= j < |r| ensures !Before(d, KeyOf(p, r[j]), v) {
        if j > 0 { assert r[j] == rest[j - 1]; }
      }
    } else if t != [] {
      var r := [x] + t;
      assert Insert(x, t, p, d) == r;
      forall j | 0 <= j < |r| ensures !Before(d, KeyOf(p, r[j]), v) {
        if j > 0 { assert r[j] == t[j - 1]; }
      }
    }
  }

  lemma {:induction false} InsertSorted(x: Entity, t: seq<Entity>, p: Property, d: Direction)
    requires Sorted(t, p, d)
    ensures Sorted(Insert(x, t, p, d), p, d)
  {
    if t != [] && Before(d, KeyOf(p, t[0]), KeyOf(p, x)) {
      var head, tail := t[0], t[1..];
      var rest := Insert(x, tail, p, d);
      SliceSorted(t, 1, |t|, p, d);
      InsertSorted(x, tail, p, d);
      assert NoneBefore(tail, p, d, KeyOf(p, head)) by {
        forall j | 0 <= j < |tail| ensures !Before(d, KeyOf(p, tail[j]), KeyOf(p, head)) {
          assert tail[j] == t[j + 1];
        }
      }
      InsertKeepsBound(x, tail, p, d, KeyOf(p, head));
      SortedCons(head, rest, p, d);
      assert Insert(x, t, p, d) == [head] + rest;
    } else if t != [] {
      assert NoneBefore(t, p, d, KeyOf(p, x)) by {
        forall j | 0 <= j < |t| ensures !Before(d, KeyOf(p, t[j]), KeyOf(p, x)) {
          if j > 0 { assert !Before(d, KeyOf(p, t[j]), KeyOf(p, t[0])); }
        }
      }
      SortedCons(x, t, p, d);
      assert Insert(x, t, p, d) == [x] + t;
    }
  }

  /** `SortBy` yields rows in `d` order of their keys. */
  lemma {:induction false} SortBySorted(s: seq<Entity>, p: Property, d: Direction)
    ensures Sorted(SortBy(s, p, d), p, d)
  {
    if s != [] {
      SortBySorted(s[1..], p, d);
      InsertSorted(s[0], SortBy(s[1..], p, d), p, d);
    }
  }

  lemma SwapAroundEmpty(h: seq<Entity>, y: seq<Entity>, w: seq<Entity>)
    requires h == [] || y == []
    ensures h + (y + w) == y + (h + w)
  {
    if h == [] { assert h + (y + w) == y + w; assert h + w == w; }
    else { assert y + w == w; assert y + (h + w) == h + w; }
  }

  lemma {:induction false} InsertStable(x: Entity, t: seq<Entity>, p: Property, d: Direction, k: int)
    ensures WithKey(Insert(x, t, p, d), p, k) == WithKey([x] + t, p, k)
  {
    if t != [] && Before(d, KeyOf(p, t[0]), KeyOf(p, x)) {
      var head, tail := t[0], t[1..];
      var rest := Insert(x, tail, p, d);
      assert Insert(x, t, p, d) == [head] + rest;
      assert t == [head] + tail;
      var h, y, w := WithKey([head], p, k), WithKey([x], p, k), WithKey(tail, p, k);
      InsertStable(x, tail, p, d, k);
      WithKeyConcat([x], tail, p, k);
      assert WithKey(rest, p, k) == y + w;
      WithKeyConcat([head], rest, p, k);
      assert WithKey([head] + rest, p, k) == h + (y + w);
      WithKeySingle(x, p, k);
      WithKeySingle(head, p, k);
      SwapAroundEmpty(h, y, w);
      WithKeyConcat([head], tail, p, k);
      assert WithKey(t, p, k) == h + w;
      WithKeyConcat([x], t, p, k);
    }
  }

  /** `SortBy` is stable: the rows sharing any one key come out in the
      order they went in. */
  lemma {:induction false} SortByStable(s: seq<Entity>, p: Property, d: Direction, k: int)
    ensures WithKey(SortBy(s, p, d), p, k) == WithKey(s, p, k)
  {
    if s != [] {
      var rest := SortBy(s[1..], p, d);
      InsertStable(s[0], rest, p, d, k);
      WithKeyConcat([s[0]], rest, p, k);
      SortByStable(s[1..], p, d, k);
      WithKeyConcat([s[0]], s[1..], p, k);
      assert s == [s[0]] + s[1..];
    }
  }

  lemma {:induction false} InsertAvoidsId(x: Entity, t: seq<Entity>, p: Property, d: Direction, id: Guid)
    requires x.Id != id && forall j :: 0 <= j < |t| ==> t[j].Id != id
    ensures forall j :: 0 <= j < |Insert(x, t, p, d)| ==> Insert(x, t, p, d)[j].Id != id
  {
    if t != [] && Before(d, KeyOf(p, t[0]), KeyOf(p, x)) {
      var rest := Insert(x, t[1..], p, d);
      assert forall j :: 0 <= j < |t[1..]| ==> t[1..][j] == t[j + 1];
      InsertAvoidsId(x, t[1..], p, d, id);
      var r := [t[0]] + rest;
      assert Insert(x, t, p, d) == r;
      forall j | 0 <= j < |r| ensures r[j].Id != id {
        if j > 0 { assert r[j] == rest[j - 1]; }
      }
    } else if t != [] {
      var r := [x] + t;
      assert Insert(x, t, p, d) == r;
      forall j | 0 <= j < |r| ensures r[j].Id != id {
        if j > 0 { assert r[j] == t[j - 1]; }
      }
    }
  }

  lemma {:induction false} InsertUniqueIds(x: Entity, t: seq<Entity>, p: Property, d: Direction)
    requires UniqueIds(t) && forall j :: 0 <= j < |t| ==> t[j].Id != x.Id
    ensures UniqueIds(Insert(x, t, p, d))
  {
    if t != [] && Before(d, KeyOf(p, t[0]), KeyOf(p, x)) {
      var head, tail := t[0], t[1..];
      var rest := Insert(x, tail, p, d);
      assert forall j :: 0 <= j < |tail| ==> tail[j] == t[j + 1];
      UniqueIdsSlice(t, 1, |t|);
      InsertUniqueIds(x, tail, p, d);
      InsertAvoidsId(x, tail, p, d, head.Id);
      UniqueIdsCons(head, rest);
      assert Insert(x, t, p, d) == [head] + rest;
    } else if t != [] {
      UniqueIdsCons(x, t);
      assert Insert(x, t, p, d) == [x] + t;
    }
  }

  /** Sorting keeps the keys of a table unique. */
  lemma {:induction false} SortByUniqueIds(s: seq<Entity>, p: Property, d: Direction)
    requires UniqueIds(s)
    ensures UniqueIds(SortBy(s, p, d))
  {
    if s != [] {
      var rest := SortBy(s[1..], p, d);
      SortByUniqueIds(s[1..], p, d);
      SortByPermutes(s[1..], p, d);
      forall j | 0 <= j < |rest|
        ensures rest[j].Id != s[0].Id
      {
        var e := rest[j];
        assert e in multiset(rest);
        assert e in multiset(s[1..]);
        var m :| 0 <= m < |s[1..]| && s[1..][m] == e;
        assert s[m + 1] == e;
      }
      InsertUniqueIds(s[0], rest, p, d);
    }
  }
}
