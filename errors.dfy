/** The exceptions the service raises, and those its persistence layer
    raises on its behalf. */
module Errors {
  import opened Results

  datatype Error =
    | PageSizeInvalid
    | PageNumberInvalid
      /** `Expression.Property` finds no property of that name. */
    | UnknownProperty(name: string)
    | InvalidSortOrder
    | PatchDocumentMissing
    | NoDataFound
      /** The commit of an insert finds the key already stored. */
    | DuplicateKey
      /** The commit of an update affects no row: no row has the entity's key. */
    | NoRowAffected
      /** The patch changed the primary key of the row it was applied to. */
    | KeyModified

  /** The message the exception carries. */
  function Message(e: Error): string
  {
    match e
    case PageSizeInvalid => "Page size invalid!"
    case PageNumberInvalid => "Page mumber invalid!"
    case UnknownProperty(name) => PROPERTY_PREFIX + name + PROPERTY_SUFFIX
    case InvalidSortOrder => "Invalid sort order. Use 'asc' or 'desc'"
    case PatchDocumentMissing => "Patch document is missing!"
    case NoDataFound => "No data found!"
    case DuplicateKey => "An entity with the same key is already stored"
    case NoRowAffected => "The update affected no rows"
    case KeyModified => "The key of a stored entity cannot change"
  }

  const PROPERTY_PREFIX := "Instance property '"
  const PROPERTY_SUFFIX := "' is not defined for type 'Requisition'"

  /** Reads the error back from its message. The six errors the service
      throws itself are plain `ApplicationException`s, which callers tell
      apart by the message alone; the other four have their own exception
      types in the source. */
  function Classify(m: string): Option<Error>
  {
    if |PROPERTY_PREFIX| + |PROPERTY_SUFFIX| <= |m|
      && m[..|PROPERTY_PREFIX|] == PROPERTY_PREFIX
      && m[|m| - |PROPERTY_SUFFIX|..] == PROPERTY_SUFFIX
    then Some(UnknownProperty(m[|PROPERTY_PREFIX|..|m| - |PROPERTY_SUFFIX|]))
    else if m == "Page size invalid!" then Some(PageSizeInvalid)
    else if m == "Page mumber invalid!" then Some(PageNumberInvalid)
    else if m == "Invalid sort order. Use 'asc' or 'desc'" then Some(InvalidSortOrder)
    else if m == "Patch document is missing!" then Some(PatchDocumentMissing)
    else if m == "No data found!" then Some(NoDataFound)
    else if m == "An entity with the same key is already stored" then Some(DuplicateKey)
    else if m == "The update affected no rows" then Some(NoRowAffected)
    else if m == "The key of a stored entity cannot change" then Some(KeyModified)
    else None
  }

  /** The messages the service itself throws read back as their errors. */
  lemma ClassifyServiceMessage(e: Error)
    requires e.PageSizeInvalid? || e.PageNumberInvalid? || e.InvalidSortOrder?
      || e.PatchDocumentMissing? || e.NoDataFound?
    ensures Classify(Message(e)) == Some(e)
  {
  }

  /** So do the messages standing for persistence-layer failures. */
  lemma ClassifyPersistenceMessage(e: Error)
    requires e.DuplicateKey? || e.NoRowAffected? || e.KeyModified?
    ensures Classify(Message(e)) == Some(e)
  {
    if e.DuplicateKey? {
      assert Classify("An entity with the same key is already stored") == Some(DuplicateKey);
    } else if e.NoRowAffected? {
      assert Classify("The update affected no rows") == Some(NoRowAffected);
    } else {
      assert Classify("The key of a stored entity cannot change") == Some(KeyModified);
    }
  }

  /** Every error's message reads back as that error. */
  lemma ClassifyMessage(e: Error)
    ensures Classify(Message(e)) == Some(e)
  {
    var m := Message(e);
    if e.UnknownProperty? {
      assert m[..|PROPERTY_PREFIX|] == PROPERTY_PREFIX;
      assert m[|m| - |PROPERTY_SUFFIX|..] == PROPERTY_SUFFIX;
      assert m[|PROPERTY_PREFIX|..|m| - |PROPERTY_SUFFIX|] == e.name;
    } else if e.DuplicateKey? || e.NoRowAffected? || e.KeyModified? {
      ClassifyPersistenceMessage(e);
    } else {
      ClassifyServiceMessage(e);
    }
  }

  /** Two errors with the same message are the same error. */
  lemma MessageIdentifies(e1: Error, e2: Error)
    requires Message(e1) == Message(e2)
    ensures e1 == e2
  {
    ClassifyMessage(e1);
    ClassifyMessage(e2);
  }
}
