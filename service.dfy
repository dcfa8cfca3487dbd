/** `RequisitionService`: the operations on the requisition table. The
    other entity services are generated from the same template and differ
    only in the entity type. */
module Service {
  import opened Results
  import opened Entities
  import opened Table
  import opened Errors
  import opened Listing

  /** A JSON patch document; `ApplyTo` is what applying its operations does
      to a record. */
  datatype PatchDocument = PatchDocument(ApplyTo: Entity -> Entity)

  /** The key an inserted record is stored under: its own, or the key the
      persistence layer generates when it carries the empty Guid. */
  function AssignedKey(model: Entity, generated: Guid): (key: Guid)
    requires generated != EMPTY_GUID
    ensures key != EMPTY_GUID
    ensures model.Id != EMPTY_GUID ==> key == model.Id
  {
    if model.Id == EMPTY_GUID then generated else model.Id
  }

  class RequisitionService {
    /** The names of the entity type's properties other than the key. */
    const properties: seq<string>
    /** The table in the persistence context, in unsorted query order. */
    var rows: seq<Entity>

    /** Keys are unique, and none is the empty Guid: the persistence layer
        replaces an empty key by a generated one on insert. */
    ghost predicate Valid()
      reads this
    {
      UniqueIds(rows) && forall e :: e in rows ==> e.Id != EMPTY_GUID
    }

    constructor(properties: seq<string>, rows: seq<Entity>)
      requires UniqueIds(rows) && forall e :: e in rows ==> e.Id != EMPTY_GUID
      ensures Valid()
      ensures this.properties == properties && this.rows == rows
    {
      this.properties := properties;
      this.rows := rows;
    }

    /** The row keyed `id`, or `None`; never fails. */
    function GetById(id: Guid): (r: Option<Entity>)
      reads this
      ensures r.None? <==> forall e :: e in rows ==> e.Id != id
      ensures r.Some? ==> r.value in rows && r.value.Id == id
    {
      FindById(rows, id)
    }

    /** A page of the filtered and ordered rows, by `GetRequisition`. */
    function Get(keep: Entity -> bool, pageNumber: int, pageSize: int,
                 sortField: string, sortOrder: string): (r: Result<seq<Entity>, Error>)
      reads this
      ensures pageSize < 1 ==> r == Err(PageSizeInvalid)
      ensures pageSize >= 1 && pageNumber < 1 ==> r == Err(PageNumberInvalid)
      ensures r.Ok? ==> |r.value| <= pageSize && forall e :: e in r.value ==> e in rows && keep(e)
    {
      GetRequisition(rows, properties, keep, pageNumber, pageSize, sortField, sortOrder)
    }

    /** Adds `model` and returns the key it is stored under; `generated`
        is the key the persistence layer would assign to a record that
        carries the empty Guid. An insert that would duplicate a key is
        refused by the commit and changes nothing. */
    method Create(model: Entity, generated: Guid) returns (r: Result<Guid, Error>)
      requires Valid() && generated != EMPTY_GUID
      modifies this
      ensures Valid()
      ensures var key := AssignedKey(model, generated);
        if old(GetById(key)).Some? then r == Err(DuplicateKey) && rows == old(rows)
        else r == Ok(key) && rows == old(rows) + [model.(Id := key)]
      ensures r.Ok? ==> GetById(r.value) == Some(model.(Id := r.value))
      ensures forall id :: id != AssignedKey(model, generated) ==> GetById(id) == old(GetById(id))
    {
      var key := AssignedKey(model, generated);
      var stored := model.(Id := key);
      if FindById(rows, key).Some? {
        r := Err(DuplicateKey);
      } else {
        AppendFrame(rows, stored);
        rows := rows + [stored];
        r := Ok(key);
      }
    }

    /** Stores `updated` over the row with the same key; `id` is not
        consulted. The commit fails, changing nothing, when no row has
        that key. */
    method Update(id: Guid, updated: Entity) returns (r: Result<bool, Error>)
      requires Valid()
      modifies this
      ensures Valid()
      ensures old(GetById(updated.Id)).None? ==> r == Err(NoRowAffected) && rows == old(rows)
      ensures old(GetById(updated.Id)).Some? ==> r == Ok(true) && rows == Replace(old(rows), updated)
      ensures r.Ok? ==> GetById(updated.Id) == Some(updated)
      ensures forall other :: other != updated.Id ==> GetById(other) == old(GetById(other))
    {
      if FindById(rows, updated.Id).None? {
        r := Err(NoRowAffected);
      } else {
        ReplaceFrame(rows, updated);
        rows := Replace(rows, updated);
        r := Ok(true);
      }
    }

    /** Applies `doc` to the row keyed `id`. A missing document is refused
        before the lookup, an absent row after it; a patch that changes the
        key is refused by the commit. Only the target row ever changes. */
    method Patch(id: Guid, doc: Option<PatchDocument>) returns (r: Result<bool, Error>)
      requires Valid()
      modifies this
      ensures Valid()
      ensures doc.None? ==> r == Err(PatchDocumentMissing) && rows == old(rows)
      ensures doc.Some? && old(GetById(id)).None? ==> r == Err(NoDataFound) && rows == old(rows)
      ensures doc.Some? && old(GetById(id)).Some? ==>
        var patched := doc.value.ApplyTo(old(GetById(id)).value);
        if patched.Id != id then r == Err(KeyModified) && rows == old(rows)
        else r == Ok(true) && rows == Replace(old(rows), patched) && GetById(id) == Some(patched)
      ensures forall other :: other != id ==> GetById(other) == old(GetById(other))
    {
      if doc.None? {
        r := Err(PatchDocumentMissing);
        return;
      }
      var existing := FindById(rows, id);
      if existing.None? {
        r := Err(NoDataFound);
        return;
      }
      var patched := doc.value.ApplyTo(existing.value);
      if patched.Id != id {
        r := Err(KeyModified);
        return;
      }
      ReplaceFrame(rows, patched);
      rows := Replace(rows, patched);
      r := Ok(true);
    }

    /** Removes the row keyed `id`, keeping the others in order; an absent
        row is refused and changes nothing. */
    method Delete(id: Guid) returns (r: Result<bool, Error>)
      requires Valid()
      modifies this
      ensures Valid()
      ensures old(GetById(id)).None? ==> r == Err(NoDataFound) && rows == old(rows)
      ensures old(GetById(id)).Some? ==> r == Ok(true) && rows == Without(old(rows), id) && |rows| == |old(rows)| - 1
      ensures GetById(id).None?
      ensures forall e :: e in rows <==> e in old(rows) && e.Id != id
      ensures forall other :: other != id ==> GetById(other) == old(GetById(other))
    {
      if FindById(rows, id).None? {
        r := Err(NoDataFound);
        return;
      }
      WithoutFrame(rows, id);
      rows := Without(rows, id);
      r := Ok(true);
    }
  }

  /** What a caller can rely on from the contracts alone: a created record
      reads back, survives an unrelated delete, and is gone once deleted. */
  method CreateReadDelete(service: RequisitionService, model: Entity, generated: Guid, other: Guid)
    requires service.Valid() && generated != EMPTY_GUID
    modifies service
  {
    var created := service.Create(model, generated);
    if created.Ok? {
      var key := created.value;
      assert service.GetById(key) == Some(model.(Id := key));
      if other != key {
        var _ := service.Delete(other);
        assert service.GetById(key) == Some(model.(Id := key));
      }
      var deleted := service.Delete(key);
      assert deleted == Ok(true);
      assert service.GetById(key).None?;
    }
  }
}
