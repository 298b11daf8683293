/**
 * The dialog table as a value: its state, the invariant every operation
 * keeps, and one function per operation giving the state it leaves and what
 * it returns. The class in module Dialog is proved against these functions;
 * the lemmas state what the operations promise.
 */
module TableSpec {
  import opened Types
  import opened Strings
  import opened Schema

  /** The member state of a dialog table. */
  datatype Table = Table(
    dataLog: seq<byte>,         // data_log_
    tail: nat,                  // rt_
    columns: seq<Column>,       // schema_ columns
    nameMap: map<string, nat>,  // schema_ name map
    indices: seq<Index>,        // idx_
    filters: seq<Filter>,       // filters_
    triggers: seq<Trigger>,     // triggers_
    metadata: seq<MetaEntry>)   // metadata_

  /** One payload handed to append, with its timestamp. */
  datatype Payload = Payload(bytes: seq<byte>, timestamp: nat)

  // ---------------------------------------------------------------- invariant

  /** Every name in the map resolves to a column of that name, and every column is named in it. */
  predicate NamesResolve(cols: seq<Column>, nameMap: map<string, nat>) {
    && (forall n :: n in nameMap ==> nameMap[n] < |cols| && cols[nameMap[n]].name == n)
    && (forall k :: 0 <= k < |cols| ==> cols[k].name in nameMap)
  }

  /**
   * Between operations no column is half-way through add_index, every
   * indexed column names an existing index, and no two columns share one.
   */
  predicate IndexRefsValid(cols: seq<Column>, numIndices: nat) {
    && (forall k :: 0 <= k < |cols| ==> !cols[k].state.Indexing?)
    && (forall k :: 0 <= k < |cols| && cols[k].state.Indexed? ==> cols[k].state.indexId < numIndices)
    && (forall k, m :: 0 <= k < m < |cols| && cols[k].state.Indexed? && cols[m].state.Indexed? ==>
          cols[k].state.indexId != cols[m].state.indexId)
  }

  /** A filter saw its records in offset order, none beyond the bound. */
  predicate RecordsInOrder(fed: seq<Record>, bound: nat) {
    && (forall a, b :: 0 <= a < b < |fed| ==> fed[a].offset <= fed[b].offset)
    && (forall a :: 0 <= a < |fed| ==> fed[a].offset <= bound)
  }

  /** An index received its entries in offset order, none beyond the bound. */
  predicate EntriesInOrder(es: seq<Entry>, bound: nat) {
    && (forall a, b :: 0 <= a < b < |es| ==> es[a].offset <= es[b].offset)
    && (forall a :: 0 <= a < |es| ==> es[a].offset <= bound)
  }

  /** A catalog entry names an existing registry entry. */
  predicate Refers(e: MetaEntry, numIndices: nat, numFilters: nat, numTriggers: nat) {
    match e
    case IndexInfo(id, _, _) => id < numIndices
    case FilterInfo(id, _) => id < numFilters
    case TriggerInfo(id, _, _, _, _, _) => id < numTriggers
  }

  /** Every catalog entry names a registered index, filter or trigger. */
  predicate CatalogRefers(metadata: seq<MetaEntry>, numIndices: nat, numFilters: nat, numTriggers: nat) {
    forall i :: 0 <= i < |metadata| ==> Refers(metadata[i], numIndices, numFilters, numTriggers)
  }

  /**
   * The table invariant. With one caller at a time no append is in flight
   * between operations, so the read tail stands at the end of the log.
   */
  predicate Valid(t: Table) {
    && t.tail == |t.dataLog|
    && NamesResolve(t.columns, t.nameMap)
    && IndexRefsValid(t.columns, |t.indices|)
    && CatalogRefers(t.metadata, |t.indices|, |t.filters|, |t.triggers|)
  }

  /** What append needs of a table: the tail at the end of the log and sound index references. */
  predicate Appendable(t: Table) {
    t.tail == |t.dataLog| && IndexRefsValid(t.columns, |t.indices|)
  }

  /**
   * Every filter has seen its records, and every index has received its
   * entries, in offset order and only for offsets up to the read tail.
   */
  predicate Ordered(t: Table) {
    && (forall i :: 0 <= i < |t.filters| ==> RecordsInOrder(t.filters[i].fed, t.tail))
    && (forall j :: 0 <= j < |t.indices| ==> EntriesInOrder(t.indices[j].entries, t.tail))
  }

  // ---------------------------------------------------------------- operations

  /** A freshly constructed table over the given columns. */
  function Empty(tableSchema: seq<Column>): (t: Table)
    ensures Valid(t) && Ordered(t)
    ensures |t.columns| == |tableSchema|
    ensures forall k :: 0 <= k < |t.columns| ==> t.columns[k].state == Unindexed
  {
    var cols := DeclareAll(tableSchema);
    Table([], 0, cols, NameMap(cols), [], [], [], [])
  }

  /** Changing one column's indexing state leaves its name, so the name map still resolves. */
  lemma RestateKeepsNames(cols: seq<Column>, nameMap: map<string, nat>, k: nat, s: IndexState)
    requires NamesResolve(cols, nameMap) && k < |cols|
    ensures NamesResolve(cols[k := cols[k].(state := s)], nameMap)
  {
    var cols' := cols[k := cols[k].(state := s)];
    assert forall m :: 0 <= m < |cols| ==> cols'[m].name == cols[m].name;
  }

  /** add_index(field_name, bucket_size). */
  function AddIndexSpec(t: Table, fieldName: string, bucket: Bucket): (r: (Table, Status))
    requires Valid(t)
    ensures Valid(r.0)
  {
    match Lookup(t.nameMap, fieldName)
    case None => (t, ManagementError(FieldNotFound))
    case Some(k) =>
      var col := t.columns[k];
      if !SetIndexing(col.state).0 then (t, ManagementError(AlreadyIndexed))
      else
        match IndexParams(col.dtype)
        case None =>
          // the column is rolled back from Indexing to Unindexed
          RestateKeepsNames(t.columns, t.nameMap, k, Unindexed);
          (t.(columns := t.columns[k := col.(state := Unindexed)]), ManagementError(UnsupportedType))
        case Some(params) =>
          var id := |t.indices|;
          RestateKeepsNames(t.columns, t.nameMap, k, Indexed(id, bucket));
          (t.(indices := t.indices + [Index(params.0, params.1, [])],
              columns := t.columns[k := col.(state := Indexed(id, bucket))],
              metadata := t.metadata + [IndexInfo(id, fieldName, bucket)]),
           Done)
  }

  /** remove_index(field_name). */
  function RemoveIndexSpec(t: Table, fieldName: string): (r: (Table, Status))
    requires Valid(t)
    ensures Valid(r.0)
  {
    match Lookup(t.nameMap, fieldName)
    case None => (t, ManagementError(FieldNotFound))
    case Some(k) =>
      var col := t.columns[k];
      var disabled := DisableIndexing(col.state);
      if disabled.0 then
        RestateKeepsNames(t.columns, t.nameMap, k, disabled.1);
        (t.(columns := t.columns[k := col.(state := disabled.1)]), Done)
      else (t, ManagementError(NoIndexExists))
  }

  /** add_filter(expression, monitor_ms): the compiler's error is passed to the caller. */
  function AddFilterSpec(t: Table, compile: Compiler, expression: string, windowMs: nat)
    : (r: (Table, Result<nat>))
    requires Valid(t)
    ensures Valid(r.0)
  {
    match compile(expression, t.columns)
    case Err(msg) => (t, Err(msg))
    case Ok(p) =>
      var id := |t.filters|;
      (t.(filters := t.filters + [Filter(p, windowMs, [])],
          metadata := t.metadata + [FilterInfo(id, expression)]),
       Ok(id))
  }

  /** add_trigger(filter_id, field_name, agg, op, threshold). */
  function AddTriggerSpec(t: Table, filterId: nat, fieldName: string, agg: Aggregate,
                          op: RelOp, threshold: Numeric): (r: (Table, nat))
    requires Valid(t)
    ensures Valid(r.0)
  {
    var id := |t.triggers|;
    (t.(triggers := t.triggers + [Trigger(filterId, op, threshold)],
        metadata := t.metadata + [TriggerInfo(id, filterId, agg, fieldName, op, threshold)]),
     id)
  }

  /** filter::update, as far as the table can see it: the filter has now seen the record. */
  function Update(f: Filter, r: Record): Filter {
    f.(fed := f.fed + [r])
  }

  /** Every registered filter updated with the record. */
  function FeedAll(fs: seq<Filter>, r: Record): seq<Filter> {
    seq(|fs|, i requires 0 <= i < |fs| => Update(fs[i], r))
  }

  /** Every indexed field names an existing index. */
  predicate IdsInRange(fields: seq<Field>, n: nat) {
    forall k :: 0 <= k < |fields| && fields[k].state.Indexed? ==> fields[k].state.indexId < n
  }

  /** The insertion one field causes: (key, offset) into its index when it is indexed. */
  function Insert(idx: seq<Index>, f: Field, offset: nat): seq<Index>
    requires f.state.Indexed? ==> f.state.indexId < |idx|
  {
    if f.state.Indexed? then
      var id := f.state.indexId;
      idx[id := idx[id].(entries := idx[id].entries + [Entry(KeyOf(f), offset)])]
    else idx
  }

  /** The entries the fields give index j, in field order: a per-index view of InsertAll. */
  function EntriesFor(fields: seq<Field>, j: nat, offset: nat): (es: seq<Entry>)
    ensures forall a :: 0 <= a < |es| ==> es[a].offset == offset
    decreases |fields|
  {
    if fields == [] then []
    else
      var n := |fields| - 1;
      var f := fields[n];
      EntriesFor(fields[..n], j, offset)
        + (if f.state.Indexed? && f.state.indexId == j then [Entry(KeyOf(f), offset)] else [])
  }

  /** The insertions of all fields, in field order. */
  function InsertAll(idx: seq<Index>, fields: seq<Field>, offset: nat): (r: seq<Index>)
    requires IdsInRange(fields, |idx|)
    ensures |r| == |idx|
    decreases |fields|
  {
    if fields == [] then idx
    else
      var n := |fields| - 1;
      assert IdsInRange(fields[..n], |idx|);
      Insert(InsertAll(idx, fields[..n], offset), fields[n], offset)
  }

  /**
   * The index loop gives each index its old entries followed by those of
   * the fields naming it, in field order.
   */
  lemma {:induction false} InsertAllEntries(idx: seq<Index>, fields: seq<Field>, offset: nat)
    requires IdsInRange(fields, |idx|)
    ensures forall j :: 0 <= j < |idx| ==>
      InsertAll(idx, fields, offset)[j] == idx[j].(entries := idx[j].entries + EntriesFor(fields, j, offset))
    decreases |fields|
  {
    if fields != [] {
      var n := |fields| - 1;
      assert IdsInRange(fields[..n], |idx|);
      InsertAllEntries(idx, fields[..n], offset);
    }
  }

  /** The record append parses from a payload placed at the end of the log. */
  function NextRecord(t: Table, payload: seq<byte>, ts: nat): Record {
    Apply(t.columns, |t.dataLog|, payload, ts)
  }

  /** append(data, length, ts): the new state and the offset returned. */
  function AppendSpec(t: Table, payload: seq<byte>, ts: nat): (r: (Table, nat))
    requires Appendable(t)
    ensures Appendable(r.0)
    ensures r.0.columns == t.columns && r.0.nameMap == t.nameMap
    ensures |r.0.indices| == |t.indices| && |r.0.filters| == |t.filters|
  {
    var offset := |t.dataLog|;
    var rec := NextRecord(t, payload, ts);
    assert IdsInRange(rec.fields, |t.indices|);
    (t.(dataLog := t.dataLog + payload,
        filters := FeedAll(t.filters, rec),
        indices := InsertAll(t.indices, rec.fields, offset),
        tail := offset + |payload|),
     offset)
  }

  /** What append leaves in each index: its old entries and those the new record's fields give it. */
  lemma AppendEntries(t: Table, payload: seq<byte>, ts: nat)
    requires Appendable(t)
    ensures var r := AppendSpec(t, payload, ts);
      var rec := NextRecord(t, payload, ts);
      forall j :: 0 <= j < |t.indices| ==>
        r.0.indices[j] == t.indices[j].(entries := t.indices[j].entries + EntriesFor(rec.fields, j, |t.dataLog|))
  {
    var rec := NextRecord(t, payload, ts);
    assert IdsInRange(rec.fields, |t.indices|);
    InsertAllEntries(t.indices, rec.fields, |t.dataLog|);
  }

  /** append keeps the table invariant: it touches no name, column state or registry size. */
  lemma AppendKeepsValid(t: Table, payload: seq<byte>, ts: nat)
    requires Valid(t)
    ensures Valid(AppendSpec(t, payload, ts).0)
  {
  }

  /** An append feeds filters and indices at an offset no smaller than any they hold. */
  lemma AppendKeepsOrder(t: Table, payload: seq<byte>, ts: nat)
    requires Valid(t) && Ordered(t)
    ensures Ordered(AppendSpec(t, payload, ts).0)
  {
    var t' := AppendSpec(t, payload, ts).0;
    var rec := NextRecord(t, payload, ts);
    AppendEntries(t, payload, ts);
    forall i | 0 <= i < |t'.filters|
      ensures RecordsInOrder(t'.filters[i].fed, t'.tail)
    {
      var before := t.filters[i].fed;
      assert t'.filters[i].fed == before + [rec];
      assert RecordsInOrder(before, t.tail);
    }
    forall j | 0 <= j < |t'.indices|
      ensures EntriesInOrder(t'.indices[j].entries, t'.tail)
    {
      var before := t.indices[j].entries;
      var added := EntriesFor(rec.fields, j, |t.dataLog|);
      assert t'.indices[j].entries == before + added;
      assert EntriesInOrder(before, t.tail);
    }
  }

  /** add_index adds at most an empty index and so keeps the order. */
  lemma AddIndexKeepsOrder(t: Table, fieldName: string, bucket: Bucket)
    requires Valid(t) && Ordered(t)
    ensures Ordered(AddIndexSpec(t, fieldName, bucket).0)
  {
  }

  /** remove_index touches no registry and so keeps the order. */
  lemma RemoveIndexKeepsOrder(t: Table, fieldName: string)
    requires Valid(t) && Ordered(t)
    ensures Ordered(RemoveIndexSpec(t, fieldName).0)
  {
  }

  /** add_filter adds at most a filter that has seen nothing and so keeps the order. */
  lemma AddFilterKeepsOrder(t: Table, compile: Compiler, expression: string, windowMs: nat)
    requires Valid(t) && Ordered(t)
    ensures Ordered(AddFilterSpec(t, compile, expression, windowMs).0)
  {
  }

  /** add_trigger touches neither filters nor indices and so keeps the order. */
  lemma AddTriggerKeepsOrder(t: Table, filterId: nat, fieldName: string, agg: Aggregate,
                             op: RelOp, threshold: Numeric)
    requires Valid(t) && Ordered(t)
    ensures Ordered(AddTriggerSpec(t, filterId, fieldName, agg, op, threshold).0)
  {
  }

  /** A run of appends, one after another: the final state and the offsets returned. */
  function AppendMany(t: Table, batch: seq<Payload>): (r: (Table, seq<nat>))
    requires Appendable(t)
    ensures Appendable(r.0)
    ensures |r.1| == |batch|
    ensures r.0.columns == t.columns && r.0.nameMap == t.nameMap
    ensures t.dataLog <= r.0.dataLog && r.0.tail == |r.0.dataLog|
    ensures |r.0.indices| == |t.indices| && |r.0.filters| == |t.filters|
    decreases |batch|
  {
    if batch == [] then (t, [])
    else
      var step := AppendSpec(t, batch[0].bytes, batch[0].timestamp);
      var rest := AppendMany(step.0, batch[1..]);
      (rest.0, [step.1] + rest.1)
  }

  /** A run of appends keeps both invariants. */
  lemma {:induction false} AppendManyKeepsInvariants(t: Table, batch: seq<Payload>)
    requires Valid(t) && Ordered(t)
    ensures Valid(AppendMany(t, batch).0) && Ordered(AppendMany(t, batch).0)
    decreases |batch|
  {
    if batch != [] {
      var step := AppendSpec(t, batch[0].bytes, batch[0].timestamp);
      AppendKeepsValid(t, batch[0].bytes, batch[0].timestamp);
      AppendKeepsOrder(t, batch[0].bytes, batch[0].timestamp);
      AppendManyKeepsInvariants(step.0, batch[1..]);
    }
  }
}
