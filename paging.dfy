/** `Skip((pageNumber - 1) * pageSize).Take(pageSize)`: the page arithmetic
    of a list request. */
module Paging {

  function Min(a: int, b: int): int
  {
    if a <= b then a else b
  }

  /** LINQ `Skip`: drops the first `n` elements; a count that is not
      positive drops none. */
  function Skip<T>(s: seq<T>, n: int): seq<T>
  {
    if n <= 0 then s else if n >= |s| then [] else s[n..]
  }

  /** LINQ `Take`: keeps the first `n` elements; a count that is not
      positive keeps none. */
  function Take<T>(s: seq<T>, n: int): seq<T>
  {
    if n <= 0 then [] else if n >= |s| then s else s[..n]
  }

  /** How many elements precede page `number`. */
  function Offset(number: int, size: int): int
  {
    (number - 1) * size
  }

  /** Where the first `count` pages of `s` end. */
  function Bound<T>(s: seq<T>, count: int, size: int): int
  {
    Min(|s|, count * size)
  }

  /** Page `number` of `s` in pages of `size` elements: the elements at
      positions `Offset(number, size)` onwards, at most `size` of them,
      and none once the offset reaches past the end. */
  function Page<T>(s: seq<T>, number: int, size: int): (r: seq<T>)
    requires number >= 1 && size >= 1
    ensures |r| <= size
    ensures r == [] <==> |s| <= Offset(number, size)
    ensures |r| == size || Offset(number, size) + |r| == |s| || r == []
    ensures forall i :: 0 <= i < |r| ==> Offset(number, size) + i < |s| && r[i] == s[Offset(number, size) + i]
  {
    Take(Skip(s, Offset(number, size)), size)
  }

  lemma OffsetStep(number: int, size: int)
    ensures Offset(number + 1, size) == Offset(number, size) + size
  {
  }

  lemma BoundMonotone<T>(s: seq<T>, a: int, b: int, size: int)
    requires 0 <= a <= b && size >= 1
    ensures 0 <= Bound(s, a, size) <= Bound(s, b, size) <= |s|
  {
    assert a * size <= b * size by {
      assert (b - a) * size >= 0;
    }
  }

  /** Page `number` is exactly the slice between where `number - 1` pages
      end and where `number` pages end. */
  lemma PageIsSlice<T>(s: seq<T>, number: int, size: int)
    requires number >= 1 && size >= 1
    ensures 0 <= Bound(s, number - 1, size) <= Bound(s, number, size) <= |s|
    ensures Page(s, number, size) == s[Bound(s, number - 1, size)..Bound(s, number, size)]
  {
    BoundMonotone(s, number - 1, number, size);
    OffsetStep(number - 1, size);
    assert number * size == (number - 1) * size + size;
    var r := Page(s, number, size);
    var lo, hi := Bound(s, number - 1, size), Bound(s, number, size);
    assert |r| == hi - lo;
    assert forall i :: 0 <= i < |r| ==> r[i] == s[lo..hi][i];
  }

  /** Pages `number` and `number + 1` are adjacent slices: together they are
      the slice from where page `number` starts to where page `number + 1`
      ends, with no element shared or skipped; a page that is not full is
      followed by an empty one. */
  lemma ConsecutivePages<T>(s: seq<T>, number: int, size: int)
    requires number >= 1 && size >= 1
    ensures 0 <= Bound(s, number - 1, size) <= Bound(s, number + 1, size) <= |s|
    ensures Page(s, number, size) + Page(s, number + 1, size) == s[Bound(s, number - 1, size)..Bound(s, number + 1, size)]
    ensures |Page(s, number, size)| < size ==> Page(s, number + 1, size) == []
  {
    PageIsSlice(s, number, size);
    PageIsSlice(s, number + 1, size);
    var a, b, c := Bound(s, number - 1, size), Bound(s, number, size), Bound(s, number + 1, size);
    assert s[a..b] + s[b..c] == s[a..c];
    assert number * size == (number + 1 - 1) * size;
  }

  /** Pages `1` to `count`, concatenated in order. */
  function Pages<T>(s: seq<T>, count: nat, size: int): seq<T>
    requires size >= 1
  {
    if count == 0 then [] else Pages(s, count - 1, size) + Page(s, count, size)
  }

  lemma PrefixStep<T>(s: seq<T>, b: int, c: int, x: seq<T>, y: seq<T>)
    requires 0 <= b <= c <= |s| && x == s[..b] && y == s[b..c]
    ensures x + y == s[..c]
  {
    assert s[..c] == s[..b] + s[b..c];
  }

  /** The first `count` pages together are the first `count * size`
      elements of `s`, or all of `s` if it is shorter. */
  lemma {:induction false} PagesArePrefix<T>(s: seq<T>, count: nat, size: int)
    requires size >= 1
    ensures 0 <= Bound(s, count, size) <= |s|
    ensures Pages(s, count, size) == s[..Bound(s, count, size)]
  {
    if count == 0 {
    } else {
      PagesArePrefix(s, count - 1, size);
      PageIsSlice(s, count, size);
      PrefixStep(s, Bound(s, count - 1, size), Bound(s, count, size),
                 Pages(s, count - 1, size), Page(s, count, size));
    }
  }

  /** Enough pages cover all of `s`. */
  lemma PagesCoverAll<T>(s: seq<T>, count: nat, size: int)
    requires size >= 1 && count * size >= |s|
    ensures Pages(s, count, size) == s
  {
    PagesArePrefix(s, count, size);
  }
}
