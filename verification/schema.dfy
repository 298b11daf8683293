/**
 * The schema collaborator as the dialog table uses it: the per-column
 * indexing transitions, name resolution, the choice of index parameters by
 * column type, and the parsing of a payload into a record.
 */
module Schema {
  import opened Types
  import opened Strings

  /** set_indexing: the compare-and-swap Unindexed -> Indexing; false when it does not apply. */
  function SetIndexing(s: IndexState): (r: (bool, IndexState))
    ensures r.0 <==> s.Unindexed?
    ensures r.0 ==> r.1.Indexing?
    ensures !r.0 ==> r.1 == s
  {
    if s.Unindexed? then (true, Indexing) else (false, s)
  }

  /** disable_indexing: Indexing or Indexed -> Unindexed; false when there is no index. */
  function DisableIndexing(s: IndexState): (r: (bool, IndexState))
    ensures r.0 <==> !s.Unindexed?
    ensures r.1.Unindexed?
  {
    if s.Unindexed? then (false, s) else (true, Unindexed)
  }

  /**
   * The index construction rule of add_index: (key width, fanout) for a
   * column type, or None for a type without a rule.
   */
  function IndexParams(t: DataType): (p: Option<(nat, nat)>)
    ensures p.None? <==> t.id == NoneType
    ensures p.Some? ==> p.value.0 == (if t.id == Bool then 1 else t.size)
    ensures p.Some? ==> p.value.1 == (if t.id == Bool then 2 else 256)
  {
    match t.id
    case Bool => Some((1, 2))
    case Char | Short | Int | Long | Float | Double | String => Some((t.size, 256))
    case NoneType => None
  }

  /** name_map.at(to_upper(name)): the position of a column, by case-insensitive name. */
  function Lookup(nameMap: map<string, nat>, fieldName: string): (r: Option<nat>)
    ensures r.Some? <==> ToUpper(fieldName) in nameMap
    ensures r.Some? ==> r.value == nameMap[ToUpper(fieldName)]
  {
    var key := ToUpper(fieldName);
    if key in nameMap then Some(nameMap[key]) else None
  }

  /** A column as the schema holds it once declared: upper-cased name, not indexed. */
  function Declare(c: Column): Column {
    c.(name := ToUpper(c.name), state := Unindexed)
  }

  function DeclareAll(cols: seq<Column>): seq<Column> {
    seq(|cols|, k requires 0 <= k < |cols| => Declare(cols[k]))
  }

  /**
   * The name map built over the columns in order; a later column with the
   * same name takes the entry over.
   */
  function NameMap(cols: seq<Column>): (m: map<string, nat>)
    ensures forall n :: n in m ==> m[n] < |cols| && cols[m[n]].name == n
    ensures forall k :: 0 <= k < |cols| ==> cols[k].name in m
    decreases |cols|
  {
    if cols == [] then map[]
    else
      var last := |cols| - 1;
      NameMap(cols[..last])[cols[last].name := last]
  }

  /** The bytes of the payload that lie in [from, from + size). */
  function Slice(payload: seq<byte>, from: nat, size: nat): seq<byte> {
    if |payload| <= from then []
    else if from + size <= |payload| then payload[from..from + size]
    else payload[from..]
  }

  /** column_t::apply: the field of column k, carrying the column's current indexing state. */
  function FieldOf(k: nat, c: Column, payload: seq<byte>): Field {
    Field(k, Slice(payload, c.offset, c.dtype.size), c.state)
  }

  /** schema_t::apply: one field per column, in schema order, tagged with offset and timestamp. */
  function Apply(cols: seq<Column>, offset: nat, payload: seq<byte>, ts: nat): Record {
    Record(offset, ts, seq(|cols|, k requires 0 <= k < |cols| => FieldOf(k, cols[k], payload)))
  }

  /** field_t::get_key: the key an indexed field is inserted under. */
  function KeyOf(f: Field): Key
    requires f.state.Indexed?
  {
    Key(f.value, f.state.bucket)
  }
}
