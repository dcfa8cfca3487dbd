/** The stored records and the properties a list request can sort them by. */
module Entities {
  import opened Results
  import opened Text

  /** A 128-bit globally unique identifier, the primary key type. */
  type Guid = bv128

  /** `Guid.Empty`, the value of a key that has not been assigned. */
  const EMPTY_GUID: Guid := 0

  /** The name of the primary-key property. */
  const KEY_NAME: string := "Id"

  /** A stored record: its primary key and its other properties by name.
      Each non-null property value is abstracted by its rank in the
      database's order for its column; a null value is absent from `Props`. */
  datatype Entity = Entity(Id: Guid, Props: map<string, nat>)

  /** A property that a sort field can bind to. */
  datatype Property = KeyProperty | DataProperty(name: string)

  /** The sort key of `e` under `p`. The model ranks a null value below
      every other value, so nulls come first ascending and last descending;
      where nulls sort is left to the database. */
  function KeyOf(p: Property, e: Entity): int
  {
    match p
    case KeyProperty => e.Id as int
    case DataProperty(name) => if name in e.Props then e.Props[name] + 1 else 0
  }

  /** The first declared property whose name equals `name` ignoring case. */
  function FindDeclared(properties: seq<string>, name: string): (r: Option<Property>)
    ensures r.None? <==> forall q :: q in properties ==> !EqualsIgnoreCase(name, q)
    ensures r.Some? ==> r.value.DataProperty? && r.value.name in properties && EqualsIgnoreCase(name, r.value.name)
  {
    if properties == [] then None
    else if EqualsIgnoreCase(name, properties[0]) then assert properties[0] in properties; Some(DataProperty(properties[0]))
    else
      var rest := FindDeclared(properties[1..], name);
      assert rest.Some? ==> rest.value.name in properties;
      assert forall q :: q in properties ==> q == properties[0] || q in properties[1..];
      rest
  }

  /** The property reflection binds `name` to on an entity type whose
      key is `Id` and whose other properties are `properties`: names are
      matched ignoring case, and `None` stands for the exception raised
      for a name the type does not declare. */
  function LookupProperty(properties: seq<string>, name: string): (r: Option<Property>)
    ensures r == Some(KeyProperty) <==> EqualsIgnoreCase(name, KEY_NAME)
    ensures r.None? <==> !EqualsIgnoreCase(name, KEY_NAME) && forall q :: q in properties ==> !EqualsIgnoreCase(name, q)
    ensures r.Some? && r.value.DataProperty? ==> r.value.name in properties && EqualsIgnoreCase(name, r.value.name)
  {
    if EqualsIgnoreCase(name, KEY_NAME) then Some(KeyProperty) else FindDeclared(properties, name)
  }
}
