/** The list request: validate the page, filter, optionally order by one
    property, and cut out the requested page. */
module Listing {
  import opened Results
  import opened Text
  import opened Entities
  import opened Table
  import opened Ordering
  import opened Paging
  import opened Errors

  /** The rows `FilterService.ApplyFilter` lets through, in table order.
      `keep` stands for the filter criteria together with the search term;
      what they select is not part of this model. */
  function Filter(rows: seq<Entity>, keep: Entity -> bool): (r: seq<Entity>)
    ensures |r| <= |rows|
    ensures forall e :: e in r <==> e in rows && keep(e)
    ensures UniqueIds(rows) ==> UniqueIds(r)
  {
    if rows == [] then []
    else
      var rest := Filter(rows[1..], keep);
      assert forall e :: e in rows <==> e == rows[0] || e in rows[1..];
      assert UniqueIds(rows) ==> UniqueIds(rows[1..]) && forall e :: e in rest ==> e.Id != rows[0].Id;
      (if keep(rows[0]) then [rows[0]] else []) + rest
  }

  /** A filter that keeps every row changes nothing. */
  lemma {:induction false} FilterKeepingAll(rows: seq<Entity>, keep: Entity -> bool)
    requires forall e :: keep(e)
    ensures Filter(rows, keep) == rows
  {
    if rows != [] {
      FilterKeepingAll(rows[1..], keep);
    }
  }

  /** Reads the sort order as `Equals(..., OrdinalIgnoreCase)` does. */
  function ParseSortOrder(order: string): (r: Result<Direction, Error>)
    ensures r == Ok(Ascending) <==> EqualsIgnoreCase(order, "asc")
    ensures r == Ok(Descending) <==> EqualsIgnoreCase(order, "desc")
    ensures r.Err? <==> r == Err(InvalidSortOrder)
  {
    if EqualsIgnoreCase(order, "asc") then Ok(Ascending)
    else if EqualsIgnoreCase(order, "desc") then Ok(Descending)
    else Err(InvalidSortOrder)
  }

  /** The filtered rows in the order the request asks for, before paging.
      An empty sort field keeps table order and leaves the sort order
      unread; otherwise the field must name a property and the order must
      read as "asc" or "desc". */
  function Arrange(rows: seq<Entity>, properties: seq<string>, keep: Entity -> bool,
                   sortField: string, sortOrder: string): (r: Result<seq<Entity>, Error>)
    ensures r.Ok? ==> multiset(r.value) == multiset(Filter(rows, keep))
    ensures r.Err? <==> sortField != "" && (LookupProperty(properties, sortField).None? || ParseSortOrder(sortOrder).Err?)
  {
    var filtered := Filter(rows, keep);
    if sortField == "" then Ok(filtered)
    else
      match LookupProperty(properties, sortField)
      case None => Err(UnknownProperty(sortField))
      case Some(p) =>
        match ParseSortOrder(sortOrder)
        case Err(e) => Err(e)
        case Ok(d) =>
          SortByPermutes(filtered, p, d);
          Ok(SortBy(filtered, p, d))
  }

  lemma ArrangeRows(rows: seq<Entity>, properties: seq<string>, keep: Entity -> bool,
                    sortField: string, sortOrder: string)
    requires Arrange(rows, properties, keep, sortField, sortOrder).Ok?
    ensures forall e :: e in Arrange(rows, properties, keep, sortField, sortOrder).value ==> e in rows && keep(e)
    ensures UniqueIds(rows) ==> UniqueIds(Arrange(rows, properties, keep, sortField, sortOrder).value)
  {
    var s := Arrange(rows, properties, keep, sortField, sortOrder).value;
    var filtered := Filter(rows, keep);
    forall e | e in s
      ensures e in rows && keep(e)
    {
      assert e in multiset(s);
      assert e in multiset(filtered);
    }
    if UniqueIds(rows) && sortField != "" {
      var p := LookupProperty(properties, sortField).value;
      var d := ParseSortOrder(sortOrder).value;
      SortByUniqueIds(filtered, p, d);
    }
  }

  /** `GetRequisition`: a page of the arranged rows, after checking the page
      size and then the page number before anything else. */
  function GetRequisition(rows: seq<Entity>, properties: seq<string>, keep: Entity -> bool,
                          pageNumber: int, pageSize: int,
                          sortField: string, sortOrder: string): (r: Result<seq<Entity>, Error>)
    ensures pageSize < 1 ==> r == Err(PageSizeInvalid)
    ensures pageSize >= 1 && pageNumber < 1 ==> r == Err(PageNumberInvalid)
    ensures r.Ok? ==> |r.value| <= pageSize
    ensures r.Ok? ==> forall e :: e in r.value ==> e in rows && keep(e)
    ensures r.Ok? && UniqueIds(rows) ==> UniqueIds(r.value)
  {
    if pageSize < 1 then Err(PageSizeInvalid)
    else if pageNumber < 1 then Err(PageNumberInvalid)
    else
      match Arrange(rows, properties, keep, sortField, sortOrder)
      case Err(e) => Err(e)
      case Ok(s) =>
        ArrangeRows(rows, properties, keep, sortField, sortOrder);
        PageOfRows(s, pageNumber, pageSize);
        Ok(Page(s, pageNumber, pageSize))
  }

  /** Every row of a page is a row of what was paged, and a page of rows
      with unique keys has unique keys. */
  lemma PageOfRows(s: seq<Entity>, number: int, size: int)
    requires number >= 1 && size >= 1
    ensures forall e :: e in Page(s, number, size) ==> e in s
    ensures UniqueIds(s) ==> UniqueIds(Page(s, number, size))
  {
    PageIsSlice(s, number, size);
    var lo, hi := Bound(s, number - 1, size), Bound(s, number, size);
    var r := s[lo..hi];
    forall e | e in r
      ensures e in s
    {
      var i :| 0 <= i < |r| && r[i] == e;
      assert s[lo + i] == e;
    }
    if UniqueIds(s) {
      UniqueIdsSlice(s, lo, hi);
    }
  }

  /** A request fails exactly when the page size or page number is below
      one, or a sort field is given that names no property, or a sort
      field is given with an order that is neither "asc" nor "desc" in any
      case; each failure raises the error of the first check it fails. */
  lemma GetFailures(rows: seq<Entity>, properties: seq<string>, keep: Entity -> bool,
                    pageNumber: int, pageSize: int, sortField: string, sortOrder: string)
    ensures GetRequisition(rows, properties, keep, pageNumber, pageSize, sortField, sortOrder).Err? <==>
      pageSize < 1 || pageNumber < 1 ||
      (sortField != "" && (LookupProperty(properties, sortField).None? || ParseSortOrder(sortOrder).Err?))
    ensures pageSize >= 1 && pageNumber >= 1 && sortField != "" && LookupProperty(properties, sortField).None? ==>
      GetRequisition(rows, properties, keep, pageNumber, pageSize, sortField, sortOrder) == Err(UnknownProperty(sortField))
    ensures (pageSize >= 1 && pageNumber >= 1 && sortField != "" && LookupProperty(properties, sortField).Some? &&
             !EqualsIgnoreCase(sortOrder, "asc") && !EqualsIgnoreCase(sortOrder, "desc")) ==>
      GetRequisition(rows, properties, keep, pageNumber, pageSize, sortField, sortOrder) == Err(InvalidSortOrder)
  {
  }

  /** Without a sort field the page is cut from the filtered rows in table
      order, and the sort order is never looked at. */
  lemma GetUnsorted(rows: seq<Entity>, properties: seq<string>, keep: Entity -> bool,
                    pageNumber: int, pageSize: int, sortOrder: string, otherOrder: string)
    requires pageNumber >= 1 && pageSize >= 1
    ensures GetRequisition(rows, properties, keep, pageNumber, pageSize, "", sortOrder) == Ok(Page(Filter(rows, keep), pageNumber, pageSize))
    ensures GetRequisition(rows, properties, keep, pageNumber, pageSize, "", sortOrder) ==
            GetRequisition(rows, properties, keep, pageNumber, pageSize, "", otherOrder)
  {
  }

  /** Any slice of a sorted sequence is sorted. */
  lemma PageSorted(s: seq<Entity>, number: int, size: int, p: Property, d: Direction)
    requires number >= 1 && size >= 1 && Sorted(s, p, d)
    ensures Sorted(Page(s, number, size), p, d)
  {
    PageIsSlice(s, number, size);
    SliceSorted(s, Bound(s, number - 1, size), Bound(s, number, size), p, d);
  }

  /** With a sort field that names property `p` and an order that reads as
      direction `d`, the request succeeds, its page is in `d` order of `p`,
      and it is cut from a stable reordering of the filtered rows. */
  lemma GetSorted(rows: seq<Entity>, properties: seq<string>, keep: Entity -> bool,
                  pageNumber: int, pageSize: int, sortField: string, sortOrder: string,
                  p: Property, d: Direction)
    requires pageNumber >= 1 && pageSize >= 1 && sortField != ""
    requires LookupProperty(properties, sortField) == Some(p) && ParseSortOrder(sortOrder) == Ok(d)
    ensures GetRequisition(rows, properties, keep, pageNumber, pageSize, sortField, sortOrder).Ok?
    ensures Sorted(GetRequisition(rows, properties, keep, pageNumber, pageSize, sortField, sortOrder).value, p, d)
    ensures Arrange(rows, properties, keep, sortField, sortOrder) == Ok(SortBy(Filter(rows, keep), p, d))
    ensures forall k :: WithKey(Arrange(rows, properties, keep, sortField, sortOrder).value, p, k) == WithKey(Filter(rows, keep), p, k)
  {
    var s := SortBy(Filter(rows, keep), p, d);
    SortBySorted(Filter(rows, keep), p, d);
    PageSorted(s, pageNumber, pageSize, p, d);
    forall k
      ensures WithKey(s, p, k) == WithKey(Filter(rows, keep), p, k)
    {
      SortByStable(Filter(rows, keep), p, d, k);
    }
  }

  /** A sort order that matches "asc" or "desc" ignoring case acts as the
      lower-case spelling does. */
  lemma SortOrderIgnoresCase(rows: seq<Entity>, properties: seq<string>, keep: Entity -> bool,
                             pageNumber: int, pageSize: int, sortField: string, sortOrder: string, canonical: string)
    requires canonical == "asc" || canonical == "desc"
    requires EqualsIgnoreCase(sortOrder, canonical)
    ensures GetRequisition(rows, properties, keep, pageNumber, pageSize, sortField, sortOrder) ==
            GetRequisition(rows, properties, keep, pageNumber, pageSize, sortField, canonical)
  {
    EqualsIgnoreCaseIsEquivalence(canonical, canonical, canonical);
  }

  /** With the same table, filter and ordering, every page number asks for
      the same page of one arranged sequence `s`: pages `n` and `n + 1` are
      adjacent slices of `s`, a short page is followed by an empty one, and
      when keys are unique no row appears on two different pages. */
  lemma ConsecutiveGetPages(rows: seq<Entity>, properties: seq<string>, keep: Entity -> bool,
                            pageNumber: int, pageSize: int, sortField: string, sortOrder: string)
    requires pageNumber >= 1 && pageSize >= 1
    requires Arrange(rows, properties, keep, sortField, sortOrder).Ok?
    ensures var s := Arrange(rows, properties, keep, sortField, sortOrder).value;
      var here := GetRequisition(rows, properties, keep, pageNumber, pageSize, sortField, sortOrder);
      var next := GetRequisition(rows, properties, keep, pageNumber + 1, pageSize, sortField, sortOrder);
      && here.Ok? && next.Ok?
      && 0 <= Bound(s, pageNumber - 1, pageSize) <= Bound(s, pageNumber + 1, pageSize) <= |s|
      && here.value + next.value == s[Bound(s, pageNumber - 1, pageSize)..Bound(s, pageNumber + 1, pageSize)]
      && (|here.value| < pageSize ==> next.value == [])
      && (UniqueIds(rows) ==> forall a, b :: a in here.value && b in next.value ==> a.Id != b.Id)
  {
    var s := Arrange(rows, properties, keep, sortField, sortOrder).value;
    ConsecutivePages(s, pageNumber, pageSize);
    ArrangeRows(rows, properties, keep, sortField, sortOrder);
    var here, next := Page(s, pageNumber, pageSize), Page(s, pageNumber + 1, pageSize);
    if UniqueIds(rows) {
      UniqueIdsSlice(s, Bound(s, pageNumber - 1, pageSize), Bound(s, pageNumber + 1, pageSize));
      UniqueIdsSplit(here, next);
    }
  }

  /** Requesting pages `1` to `count` in turn and concatenating them yields
      the first `count * pageSize` arranged rows, or all of them. */
  lemma GetPagesArePrefix(rows: seq<Entity>, properties: seq<string>, keep: Entity -> bool,
                          pageSize: int, sortField: string, sortOrder: string, count: nat)
    requires pageSize >= 1
    requires Arrange(rows, properties, keep, sortField, sortOrder).Ok?
    ensures var s := Arrange(rows, properties, keep, sortField, sortOrder).value;
      && (forall n :: n >= 1 ==> GetRequisition(rows, properties, keep, n, pageSize, sortField, sortOrder) == Ok(Page(s, n, pageSize)))
      && 0 <= Bound(s, count, pageSize) <= |s|
      && Pages(s, count, pageSize) == s[..Bound(s, count, pageSize)]
      && (count * pageSize >= |s| ==> Pages(s, count, pageSize) == s)
  {
    var s := Arrange(rows, properties, keep, sortField, sortOrder).value;
    PagesArePrefix(s, count, pageSize);
  }
}
