/**
 * Field descriptors, as the editor sees them, and the first-match lookups
 * `field(name)` and `_findField`.
 */
module Fields {
  import opened Text
  import opened Values
  import opened Identifiers

  /** The action a field's `apply` policy is asked about. */
  datatype Stage = Get | Create | Edit

  /**
   * A field descriptor, reduced to what the editor asks of it:
   * `name()`, `dbField()`, the policy `apply(stage, values)`, the value
   * `val('set', values)` it writes, `writeValue`: the value `write` copies out
   * of a result row (`val('get', row)`), `cached`: whether `getValue()` is
   * defined, and whether its `set()` option is truthy.
   */
  datatype Field = Field(
    name: string,
    dbField: string,
    apply: (Stage, Row) -> bool,
    setValue: Row -> Value,
    writeValue: Row -> Value,
    cached: bool,
    setOption: bool)

  /** `field.apply('get')`: the read policy takes no submitted values. */
  predicate Readable(f: Field)
  {
    f.apply(Get, map[])
  }

  datatype Lookup = ByName | ByDbField

  function Key(f: Field, lookup: Lookup): (r: string)
  {
    if lookup == ByName then f.name else f.dbField
  }

  /** The first field at or after `k` whose key is `name`. */
  function FindFrom(fields: seq<Field>, name: string, lookup: Lookup, k: nat): (r: Option<nat>)
    requires k <= |fields|
    ensures r.Some? ==> k <= r.value < |fields| && Key(fields[r.value], lookup) == name
    ensures r.Some? ==> forall j :: k <= j < r.value ==> Key(fields[j], lookup) != name
    ensures r.None? ==> forall j :: k <= j < |fields| ==> Key(fields[j], lookup) != name
    decreases |fields| - k
  {
    if k == |fields| then None
    else if Key(fields[k], lookup) == name then Some(k)
    else FindFrom(fields, name, lookup, k + 1)
  }

  /** `_findField(name, type)`: the index of the first field whose name (or db column) is `name`. */
  function FindField(fields: seq<Field>, name: string, lookup: Lookup): (r: Option<nat>)
    ensures r.Some? ==> r.value < |fields| && Key(fields[r.value], lookup) == name
    ensures r.Some? ==> forall j :: 0 <= j < r.value ==> Key(fields[j], lookup) != name
    ensures r.None? <==> forall j :: 0 <= j < |fields| ==> Key(fields[j], lookup) != name
  {
    FindFrom(fields, name, lookup, 0)
  }

  /** `field(name)`: the first field called `name`, or the "Unknown field" error. */
  function FieldNamed(fields: seq<Field>, name: string): (r: Result<nat>)
    ensures r.Success? <==> exists j :: 0 <= j < |fields| && fields[j].name == name
    ensures r.Success? ==> r.value < |fields| && fields[r.value].name == name
    ensures r.Success? ==> forall j :: 0 <= j < r.value ==> fields[j].name != name
    ensures r.Failure? ==> r.error == UnknownField(name)
  {
    match FindField(fields, name, ByName)
    case Some(i) => Success(i)
    case None => Failure(UnknownField(name))
  }

  /**
   * The key under which `_insertOrUpdateTable` stores a field's value:
   * `_part(dbField, 'column')`, which JavaScript turns into the property
   * name "undefined" when the identifier has four or more segments.
   */
  function ColumnKey(dbField: string): (r: string)
  {
    match Part(dbField, ColumnPart)
    case Some(c) => c
    case None => "undefined"
  }

  /**
   * `_removeTable`'s test of whether a field makes `table` worth deleting
   * from: its column has no table qualifier, or it belongs to `table` and
   * its `set()` option is falsy.
   */
  predicate Owns(f: Field, table: string)
  {
    IndexOf(f.dbField, ".") == -1 || (Part(f.dbField, TablePart) == Some(table) && !f.setOption)
  }
}
