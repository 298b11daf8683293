/**
 * What the dialog table's operations promise, stated over the specification
 * functions of TableSpec: the indexing state machine and its errors, the
 * id-stable registries, the append pipeline and the visibility of its
 * records, and what a run of appends leaves in filters and indices.
 */
module TableProperties {
  import opened Types
  import opened Strings
  import opened Schema
  import opened TableSpec

  // ------------------------------------------------------------ name lookup

  /**
   * The column a field name resolves to: found exactly when some column
   * carries the upper-cased name, and then it is such a column.
   */
  function ColumnNamed(t: Table, fieldName: string): (c: Option<Column>)
    requires Valid(t)
    ensures c.Some? ==> c.value in t.columns && c.value.name == ToUpper(fieldName)
    ensures c.None? <==> forall k :: 0 <= k < |t.columns| ==> t.columns[k].name != ToUpper(fieldName)
  {
    match Lookup(t.nameMap, fieldName)
    case None => None
    case Some(k) => Some(t.columns[k])
  }

  /** Field names that differ only in the case of their letters resolve to the same column. */
  lemma LookupIgnoresCase(t: Table, a: string, b: string)
    requires Valid(t)
    requires |a| == |b|
    requires forall i :: 0 <= i < |a| ==> UpperChar(a[i]) == UpperChar(b[i])
    ensures Lookup(t.nameMap, a) == Lookup(t.nameMap, b)
  {
    ToUpperIgnoresCase(a, b);
  }

  // ------------------------------------------------------------ add_index

  /**
   * add_index succeeds exactly on a resolvable, unindexed column of a type
   * with an index rule; every failure names its reason and leaves the whole
   * table as it was, so a retry meets the same failure.
   */
  lemma AddIndexOutcome(t: Table, fieldName: string, bucket: Bucket)
    requires Valid(t)
    ensures var r := AddIndexSpec(t, fieldName, bucket);
      var found := Lookup(t.nameMap, fieldName);
      && (r.1 == ManagementError(FieldNotFound) <==> found.None?)
      && (r.1 == ManagementError(AlreadyIndexed) <==>
            found.Some? && t.columns[found.value].state.Indexed?)
      && (r.1 == ManagementError(UnsupportedType) <==>
            found.Some? && t.columns[found.value].state.Unindexed?
            && t.columns[found.value].dtype.id == NoneType)
      && (r.1 == Done <==>
            found.Some? && t.columns[found.value].state.Unindexed?
            && t.columns[found.value].dtype.id != NoneType)
      && (r.1 != Done ==> r.0 == t)
  {
  }

  /**
   * A successful add_index appends exactly one index, (1, 2) for a boolean
   * column and (type size, 256) otherwise, marks the column Indexed with the
   * new index's id and bucket size, and writes exactly one catalog entry;
   * nothing else changes.
   */
  lemma AddIndexSuccess(t: Table, fieldName: string, bucket: Bucket, k: nat)
    requires Valid(t)
    requires Lookup(t.nameMap, fieldName) == Some(k)
    requires t.columns[k].state.Unindexed? && t.columns[k].dtype.id != NoneType
    ensures var r := AddIndexSpec(t, fieldName, bucket);
      var col := t.columns[k];
      var id := |t.indices|;
      && r.1 == Done
      && r.0.indices == t.indices + [if col.dtype.id == Bool then Index(1, 2, [])
                                     else Index(col.dtype.size, 256, [])]
      && r.0.columns == t.columns[k := col.(state := Indexed(id, bucket))]
      && r.0.metadata == t.metadata + [IndexInfo(id, fieldName, bucket)]
      && r.0.(indices := t.indices, columns := t.columns, metadata := t.metadata) == t
  {
  }

  /** Re-adding: a second add_index fails, but add, remove, add succeeds with a new id. */
  lemma AddRemoveAddIndex(t: Table, fieldName: string, b1: Bucket, b2: Bucket, k: nat)
    requires Valid(t)
    requires Lookup(t.nameMap, fieldName) == Some(k)
    requires t.columns[k].state.Unindexed? && t.columns[k].dtype.id != NoneType
    ensures var added := AddIndexSpec(t, fieldName, b1);
      var removed := RemoveIndexSpec(added.0, fieldName);
      var readded := AddIndexSpec(removed.0, fieldName, b2);
      && added.1 == Done
      && AddIndexSpec(added.0, fieldName, b2) == (added.0, ManagementError(AlreadyIndexed))
      && removed.1 == Done
      && removed.0.indices == added.0.indices
      && readded.1 == Done
      && readded.0.columns[k].state == Indexed(|t.indices| + 1, b2)
      && |readded.0.indices| == |t.indices| + 2
  {
    var added := AddIndexSpec(t, fieldName, b1);
    assert added.0.columns[k].state == Indexed(|t.indices|, b1);
    var removed := RemoveIndexSpec(added.0, fieldName);
    assert removed.0.columns[k].state == Unindexed;
    assert removed.0.columns[k].dtype == t.columns[k].dtype;
  }

  // ------------------------------------------------------------ remove_index

  /**
   * remove_index succeeds exactly on a resolvable column that is indexed;
   * it then only marks the column Unindexed and keeps every index entry.
   * A failure names its reason and changes nothing.
   */
  lemma RemoveIndexOutcome(t: Table, fieldName: string)
    requires Valid(t)
    ensures var r := RemoveIndexSpec(t, fieldName);
      var found := Lookup(t.nameMap, fieldName);
      && (r.1 == ManagementError(FieldNotFound) <==> found.None?)
      && (r.1 == ManagementError(NoIndexExists) <==>
            found.Some? && t.columns[found.value].state.Unindexed?)
      && (r.1 == Done <==> found.Some? && t.columns[found.value].state.Indexed?)
      && (r.1 == Done ==>
            r.0 == t.(columns := t.columns[found.value := t.columns[found.value].(state := Unindexed)]))
      && (r.1 != Done ==> r.0 == t)
  {
  }

  // ------------------------------------------------------------ registries

  /**
   * add_filter: a compilation error is returned and nothing is registered;
   * otherwise exactly one filter, which has seen no record yet, is appended
   * under the next id, exactly one catalog entry is written, and earlier
   * filters and everything else are unchanged.
   */
  lemma AddFilterRegisters(t: Table, compile: Compiler, expression: string, windowMs: nat)
    requires Valid(t)
    ensures var r := AddFilterSpec(t, compile, expression, windowMs);
      match compile(expression, t.columns)
      case Err(msg) => r == (t, Err(msg))
      case Ok(p) =>
        && r.1 == Ok(|t.filters|)
        && |r.0.filters| == |t.filters| + 1
        && r.0.filters[..|t.filters|] == t.filters
        && r.0.filters[|t.filters|] == Filter(p, windowMs, [])
        && r.0.metadata == t.metadata + [FilterInfo(|t.filters|, expression)]
        && r.0.(filters := t.filters, metadata := t.metadata) == t
  {
    match compile(expression, t.columns)
    case Err(_) =>
    case Ok(p) =>
      var r := AddFilterSpec(t, compile, expression, windowMs);
      assert r.0.filters[..|t.filters|] == t.filters;
  }

  /**
   * add_trigger: exactly one trigger is appended under the next id and
   * exactly one catalog entry is written; nothing else changes.
   */
  lemma AddTriggerRegisters(t: Table, filterId: nat, fieldName: string, agg: Aggregate,
                            op: RelOp, threshold: Numeric)
    requires Valid(t)
    ensures var r := AddTriggerSpec(t, filterId, fieldName, agg, op, threshold);
      && r.1 == |t.triggers|
      && |r.0.triggers| == |t.triggers| + 1
      && r.0.triggers[..|t.triggers|] == t.triggers
      && r.0.triggers[r.1] == Trigger(filterId, op, threshold)
      && r.0.metadata == t.metadata + [TriggerInfo(r.1, filterId, agg, fieldName, op, threshold)]
      && r.0.(triggers := t.triggers, metadata := t.metadata) == t
  {
    var r := AddTriggerSpec(t, filterId, fieldName, agg, op, threshold);
    assert r.0.triggers[..|t.triggers|] == t.triggers;
  }

  // ------------------------------------------------------------ append

  /**
   * append returns the log's prior length, grows the log by exactly the
   * payload, and moves the tail to the end of it: the offset was not visible
   * before and is visible afterwards exactly when the payload is not empty.
   * The schema, triggers and catalog are untouched.
   */
  lemma AppendCommits(t: Table, payload: seq<byte>, ts: nat)
    requires Appendable(t)
    ensures var r := AppendSpec(t, payload, ts);
      var offset := r.1;
      && offset == |t.dataLog|
      && r.0.dataLog == t.dataLog + payload
      && r.0.dataLog[offset..] == payload
      && r.0.tail == offset + |payload|
      && !(offset < t.tail)
      && (offset < r.0.tail <==> |payload| > 0)
      && r.0.columns == t.columns && r.0.nameMap == t.nameMap
      && r.0.triggers == t.triggers && r.0.metadata == t.metadata
  {
    var r := AppendSpec(t, payload, ts);
    assert r.0.dataLog[|t.dataLog|..] == payload;
  }

  /**
   * append updates every filter registered at the time exactly once, with
   * the record parsed from the payload at the new offset; no filter is added
   * or dropped.
   */
  lemma AppendFeedsEveryFilter(t: Table, payload: seq<byte>, ts: nat)
    requires Appendable(t)
    ensures var r := AppendSpec(t, payload, ts);
      var rec := NextRecord(t, payload, ts);
      && rec.offset == r.1 && rec.timestamp == ts && |rec.fields| == |t.columns|
      && |r.0.filters| == |t.filters|
      && forall i :: 0 <= i < |t.filters| ==>
           r.0.filters[i].pred == t.filters[i].pred
           && r.0.filters[i].windowMs == t.filters[i].windowMs
           && r.0.filters[i].fed == t.filters[i].fed + [rec]
  {
  }

  /** With one field naming index j, that field alone contributes to j. */
  lemma {:induction false} EntriesForOne(fields: seq<Field>, j: nat, offset: nat, k: nat)
    requires k < |fields|
    requires fields[k].state.Indexed? && fields[k].state.indexId == j
    requires forall m :: 0 <= m < |fields| && m != k && fields[m].state.Indexed? ==>
      fields[m].state.indexId != j
    ensures EntriesFor(fields, j, offset) == [Entry(KeyOf(fields[k]), offset)]
    decreases |fields|
  {
    var n := |fields| - 1;
    if k == n {
      EntriesForNone(fields[..n], j, offset);
    } else {
      EntriesForOne(fields[..n], j, offset, k);
    }
  }

  /** With no field naming index j, nothing is inserted into j. */
  lemma {:induction false} EntriesForNone(fields: seq<Field>, j: nat, offset: nat)
    requires forall m :: 0 <= m < |fields| && fields[m].state.Indexed? ==>
      fields[m].state.indexId != j
    ensures EntriesFor(fields, j, offset) == []
    decreases |fields|
  {
    if fields != [] {
      EntriesForNone(fields[..|fields| - 1], j, offset);
    }
  }

  /**
   * append inserts exactly one (key, offset) into the index of each column
   * that is indexed at the time: the key of that column's value under the
   * column's bucket size, at the new offset.
   */
  lemma AppendIndexesColumn(t: Table, payload: seq<byte>, ts: nat, k: nat)
    requires Appendable(t)
    requires k < |t.columns| && t.columns[k].state.Indexed?
    ensures var r := AppendSpec(t, payload, ts);
      var col := t.columns[k];
      var id := col.state.indexId;
      && id < |r.0.indices| == |t.indices|
      && r.0.indices[id] == t.indices[id].(entries := t.indices[id].entries
           + [Entry(Key(Slice(payload, col.offset, col.dtype.size), col.state.bucket), r.1)])
  {
    var rec := NextRecord(t, payload, ts);
    var id := t.columns[k].state.indexId;
    AppendEntries(t, payload, ts);
    EntriesForOne(rec.fields, id, |t.dataLog|, k);
  }

  /** append leaves alone every index no column is indexed into, such as one whose column was un-indexed. */
  lemma AppendLeavesOtherIndices(t: Table, payload: seq<byte>, ts: nat, j: nat)
    requires Appendable(t)
    requires j < |t.indices|
    requires forall k :: 0 <= k < |t.columns| && t.columns[k].state.Indexed? ==>
      t.columns[k].state.indexId != j
    ensures AppendSpec(t, payload, ts).0.indices[j] == t.indices[j]
  {
    var rec := NextRecord(t, payload, ts);
    AppendEntries(t, payload, ts);
    EntriesForNone(rec.fields, j, |t.dataLog|);
  }

  /**
   * Once a new record is visible, its processing is complete: every filter
   * has it as its latest record and every indexed column's index has it as
   * its latest entry.
   */
  lemma VisibleRecordIsComplete(t: Table, payload: seq<byte>, ts: nat)
    requires Appendable(t)
    ensures var r := AppendSpec(t, payload, ts);
      var offset := r.1;
      offset < r.0.tail ==>
        && (forall i :: 0 <= i < |r.0.filters| ==>
              |r.0.filters[i].fed| > 0 && r.0.filters[i].fed[|r.0.filters[i].fed| - 1].offset == offset)
        && (forall k :: 0 <= k < |r.0.columns| && r.0.columns[k].state.Indexed? ==>
              var es := r.0.indices[r.0.columns[k].state.indexId].entries;
              |es| > 0 && es[|es| - 1].offset == offset)
  {
    var r := AppendSpec(t, payload, ts);
    forall k | 0 <= k < |r.0.columns| && r.0.columns[k].state.Indexed?
      ensures var es := r.0.indices[r.0.columns[k].state.indexId].entries;
              |es| > 0 && es[|es| - 1].offset == r.1
    {
      AppendIndexesColumn(t, payload, ts, k);
    }
  }

  // ------------------------------------------------------------ runs of appends

  /** The records a run of appends parses, at the offsets it returned. */
  function BatchRecords(cols: seq<Column>, offsets: seq<nat>, batch: seq<Payload>): seq<Record>
    requires |offsets| == |batch|
  {
    seq(|batch|, m requires 0 <= m < |batch| => Apply(cols, offsets[m], batch[m].bytes, batch[m].timestamp))
  }

  /** The entries an indexed column contributes over a run of appends. */
  function BatchEntries(col: Column, offsets: seq<nat>, batch: seq<Payload>): seq<Entry>
    requires col.state.Indexed?
    requires |offsets| == |batch|
  {
    seq(|batch|, m requires 0 <= m < |batch| =>
      Entry(Key(Slice(batch[m].bytes, col.offset, col.dtype.size), col.state.bucket), offsets[m]))
  }

  lemma BatchEntriesCons(col: Column, offset: nat, offsets: seq<nat>, batch: seq<Payload>)
    requires col.state.Indexed?
    requires |offsets| + 1 == |batch|
    ensures BatchEntries(col, [offset] + offsets, batch)
         == [Entry(Key(Slice(batch[0].bytes, col.offset, col.dtype.size), col.state.bucket), offset)]
            + BatchEntries(col, offsets, batch[1..])
  {
  }

  lemma BatchRecordsCons(cols: seq<Column>, offset: nat, offsets: seq<nat>, batch: seq<Payload>)
    requires |offsets| + 1 == |batch|
    ensures BatchRecords(cols, [offset] + offsets, batch)
         == [Apply(cols, offset, batch[0].bytes, batch[0].timestamp)]
            + BatchRecords(cols, offsets, batch[1..])
  {
  }

  /** The bytes of a run of payloads, one after another. */
  function Concat(batch: seq<Payload>): seq<byte> {
    if batch == [] then [] else batch[0].bytes + Concat(batch[1..])
  }

  /** The offsets a run of payloads takes when laid out from start. */
  function Offsets(start: nat, batch: seq<Payload>): (offs: seq<nat>)
    ensures |offs| == |batch|
    decreases |batch|
  {
    if batch == [] then [] else [start] + Offsets(start + |batch[0].bytes|, batch[1..])
  }

  /** A run of appends is its first append followed by the run of the others. */
  lemma AppendManyUnfold(t: Table, batch: seq<Payload>)
    requires Appendable(t) && batch != []
    ensures var step := AppendSpec(t, batch[0].bytes, batch[0].timestamp);
      var rest := AppendMany(step.0, batch[1..]);
      && AppendMany(t, batch).0 == rest.0
      && AppendMany(t, batch).1 == [step.1] + rest.1
      && step.1 == |t.dataLog|
      && step.0.dataLog == t.dataLog + batch[0].bytes
  {
  }

  /** A run of appends writes the payloads one after another. */
  lemma {:induction false} AppendManyLog(t: Table, batch: seq<Payload>)
    requires Appendable(t)
    ensures AppendMany(t, batch).0.dataLog == t.dataLog + Concat(batch)
    decreases |batch|
  {
    if batch != [] {
      var step := AppendSpec(t, batch[0].bytes, batch[0].timestamp);
      AppendManyUnfold(t, batch);
      AppendManyLog(step.0, batch[1..]);
      assert t.dataLog + Concat(batch) == step.0.dataLog + Concat(batch[1..]);
    }
  }

  /** A run of appends returns the offsets of the payloads laid out from the old log length. */
  lemma {:induction false} AppendManyOffsetsAre(t: Table, batch: seq<Payload>)
    requires Appendable(t)
    ensures AppendMany(t, batch).1 == Offsets(|t.dataLog|, batch)
    decreases |batch|
  {
    if batch != [] {
      var step := AppendSpec(t, batch[0].bytes, batch[0].timestamp);
      AppendManyUnfold(t, batch);
      AppendManyOffsetsAre(step.0, batch[1..]);
    }
  }

  /** The layout leaves no gap: each payload starts where the previous one ends. */
  lemma {:induction false} OffsetStep(start: nat, batch: seq<Payload>, m: nat)
    requires m + 1 < |batch|
    ensures Offsets(start, batch)[m + 1] == Offsets(start, batch)[m] + |batch[m].bytes|
    decreases m
  {
    var rest := batch[1..];
    assert Offsets(start, batch) == [start] + Offsets(start + |batch[0].bytes|, rest);
    if m > 0 {
      OffsetStep(start + |batch[0].bytes|, rest, m - 1);
      assert batch[m] == rest[m - 1];
    }
  }

  /** Each payload of the layout lies within the laid-out bytes, the last one ending with them. */
  lemma {:induction false} OffsetBounds(start: nat, batch: seq<Payload>, m: nat)
    requires m < |batch|
    ensures start <= Offsets(start, batch)[m]
    ensures Offsets(start, batch)[m] + |batch[m].bytes| <= start + |Concat(batch)|
    ensures m == |batch| - 1 ==> Offsets(start, batch)[m] + |batch[m].bytes| == start + |Concat(batch)|
    decreases m
  {
    var rest := batch[1..];
    assert Offsets(start, batch) == [start] + Offsets(start + |batch[0].bytes|, rest);
    assert |Concat(batch)| == |batch[0].bytes| + |Concat(rest)|;
    if m == 0 {
      if |batch| == 1 {
        assert Concat(rest) == [];
      }
    } else {
      OffsetBounds(start + |batch[0].bytes|, rest, m - 1);
      assert batch[m] == rest[m - 1];
    }
  }

  /** The bytes at offset in the log are exactly the given ones. */
  predicate PayloadAt(log: seq<byte>, offset: nat, bytes: seq<byte>) {
    offset + |bytes| <= |log| && log[offset..offset + |bytes|] == bytes
  }

  /** Each payload of the run lies at its offset in the log that follows the prefix. */
  lemma {:induction false} PayloadAtOffset(prefix: seq<byte>, batch: seq<Payload>, m: nat)
    requires m < |batch|
    ensures PayloadAt(prefix + Concat(batch), Offsets(|prefix|, batch)[m], batch[m].bytes)
    decreases m
  {
    var log := prefix + Concat(batch);
    if m == 0 {
      assert log[|prefix|..|prefix| + |batch[0].bytes|] == batch[0].bytes;
    } else {
      var prefix' := prefix + batch[0].bytes;
      PayloadAtOffset(prefix', batch[1..], m - 1);
      assert log == prefix' + Concat(batch[1..]);
      assert Offsets(|prefix|, batch)[m] == Offsets(|prefix'|, batch[1..])[m - 1];
    }
  }

  /** The layout of a run of payloads written after a prefix, as one statement. */
  lemma LayoutFacts(prefix: seq<byte>, batch: seq<Payload>)
    ensures var log := prefix + Concat(batch);
      var offs := Offsets(|prefix|, batch);
      && |offs| == |batch|
      && (|batch| > 0 ==> offs[0] == |prefix|
                          && |log| == offs[|batch| - 1] + |batch[|batch| - 1].bytes|)
      && (forall m :: 0 <= m < |batch| - 1 ==> offs[m + 1] == offs[m] + |batch[m].bytes|)
      && (forall m :: 0 <= m < |batch| ==>
            |prefix| <= offs[m] && PayloadAt(log, offs[m], batch[m].bytes))
  {
    var offs := Offsets(|prefix|, batch);
    if |batch| > 0 {
      assert offs[0] == |prefix|;
      OffsetBounds(|prefix|, batch, |batch| - 1);
    }
    forall m | 0 <= m < |batch| - 1
      ensures offs[m + 1] == offs[m] + |batch[m].bytes|
    {
      OffsetStep(|prefix|, batch, m);
    }
    forall m | 0 <= m < |batch|
      ensures |prefix| <= offs[m] && PayloadAt(prefix + Concat(batch), offs[m], batch[m].bytes)
    {
      OffsetBounds(|prefix|, batch, m);
      PayloadAtOffset(prefix, batch, m);
    }
  }

  /**
   * The offsets of a run of appends start at the old log length, follow one
   * another with no gap, end at the new tail, and each payload can be read
   * back at its offset.
   */
  lemma AppendManyOffsets(t: Table, batch: seq<Payload>)
    requires Appendable(t)
    ensures var r := AppendMany(t, batch);
      var offs := r.1;
      && (|batch| == 0 ==> r.0.tail == |t.dataLog|)
      && (|batch| > 0 ==> offs[0] == |t.dataLog|
                          && r.0.tail == offs[|batch| - 1] + |batch[|batch| - 1].bytes|)
      && (forall m :: 0 <= m < |batch| - 1 ==> offs[m + 1] == offs[m] + |batch[m].bytes|)
      && (forall m :: 0 <= m < |batch| ==>
            |t.dataLog| <= offs[m] && PayloadAt(r.0.dataLog, offs[m], batch[m].bytes))
  {
    AppendManyLog(t, batch);
    AppendManyOffsetsAre(t, batch);
    LayoutFacts(t.dataLog, batch);
  }

  /**
   * A filter registered before a run of appends is updated exactly once per
   * append, in the order of the appends, with the record at each returned
   * offset.
   */
  lemma {:induction false} FilterSeesEveryAppend(t: Table, batch: seq<Payload>, i: nat)
    requires Appendable(t)
    requires i < |t.filters|
    ensures var r := AppendMany(t, batch);
      && i < |r.0.filters|
      && r.0.filters[i].fed == t.filters[i].fed + BatchRecords(t.columns, r.1, batch)
    decreases |batch|
  {
    if batch != [] {
      var step := AppendSpec(t, batch[0].bytes, batch[0].timestamp);
      var rest := AppendMany(step.0, batch[1..]);
      AppendFeedsEveryFilter(t, batch[0].bytes, batch[0].timestamp);
      AppendManyUnfold(t, batch);
      FilterSeesEveryAppend(step.0, batch[1..], i);
      BatchRecordsCons(t.columns, step.1, rest.1, batch);
    }
  }

  /** The first append of a run, as the run's result and the indexed column's index see it. */
  lemma AppendManyFirst(t: Table, batch: seq<Payload>, k: nat)
    requires Appendable(t) && batch != []
    requires k < |t.columns| && t.columns[k].state.Indexed?
    ensures var step := AppendSpec(t, batch[0].bytes, batch[0].timestamp);
      var rest := AppendMany(step.0, batch[1..]);
      var col := t.columns[k];
      var id := col.state.indexId;
      && AppendMany(t, batch).0 == rest.0
      && AppendMany(t, batch).1 == [step.1] + rest.1
      && step.0.columns == t.columns
      && id < |step.0.indices|
      && step.0.indices[id].entries == t.indices[id].entries
           + [Entry(Key(Slice(batch[0].bytes, col.offset, col.dtype.size), col.state.bucket), step.1)]
  {
    AppendManyUnfold(t, batch);
    AppendIndexesColumn(t, batch[0].bytes, batch[0].timestamp, k);
  }

  /**
   * An indexed column's index receives exactly one entry per append of a
   * run, in the order of the appends, at each returned offset.
   */
  lemma {:induction false} IndexedColumnSeesEveryAppend(t: Table, batch: seq<Payload>, k: nat)
    requires Appendable(t)
    requires k < |t.columns| && t.columns[k].state.Indexed?
    ensures var r := AppendMany(t, batch);
      var id := t.columns[k].state.indexId;
      && id < |r.0.indices|
      && r.0.indices[id].entries == t.indices[id].entries + BatchEntries(t.columns[k], r.1, batch)
    decreases |batch|
  {
    if batch != [] {
      var step := AppendSpec(t, batch[0].bytes, batch[0].timestamp);
      var rest := AppendMany(step.0, batch[1..]);
      var col := t.columns[k];
      var id := col.state.indexId;
      AppendManyFirst(t, batch, k);
      var first := Entry(Key(Slice(batch[0].bytes, col.offset, col.dtype.size), col.state.bucket), step.1);
      var later := BatchEntries(col, rest.1, batch[1..]);
      IndexedColumnSeesEveryAppend(step.0, batch[1..], k);
      assert rest.0.indices[id].entries == (t.indices[id].entries + [first]) + later;
      BatchEntriesCons(col, step.1, rest.1, batch);
      assert t.indices[id].entries + BatchEntries(col, [step.1] + rest.1, batch)
          == t.indices[id].entries + ([first] + later);
    }
  }

  /** Entries made at offsets no smaller than a bound all lie at or after it. */
  lemma EntriesAtOrAfter(col: Column, offsets: seq<nat>, batch: seq<Payload>, bound: nat)
    requires col.state.Indexed? && |offsets| == |batch|
    requires forall m :: 0 <= m < |offsets| ==> bound <= offsets[m]
    ensures forall e :: e in BatchEntries(col, offsets, batch) ==> bound <= e.offset
  {
  }

  /**
   * An index that is still empty when a run of appends starts ends up with
   * exactly the run's entries, none of them for an offset written before.
   */
  lemma FreshIndexSeesOnlyLaterAppends(t: Table, batch: seq<Payload>, k: nat)
    requires Appendable(t)
    requires k < |t.columns| && t.columns[k].state.Indexed?
    requires t.columns[k].state.indexId < |t.indices| && t.indices[t.columns[k].state.indexId].entries == []
    ensures var r := AppendMany(t, batch);
      var id := t.columns[k].state.indexId;
      && id < |r.0.indices|
      && r.0.indices[id].entries == BatchEntries(t.columns[k], r.1, batch)
      && forall e :: e in r.0.indices[id].entries ==> |t.dataLog| <= e.offset
  {
    var r := AppendMany(t, batch);
    IndexedColumnSeesEveryAppend(t, batch, k);
    AppendManyLog(t, batch);
    AppendManyOffsetsAre(t, batch);
    forall m | 0 <= m < |batch|
      ensures |t.dataLog| <= r.1[m]
    {
      OffsetBounds(|t.dataLog|, batch, m);
    }
    EntriesAtOrAfter(t.columns[k], r.1, batch, |t.dataLog|);
  }

  /**
   * Indexing is prospective: after add_index, the new index holds exactly
   * one entry per later append and none for any record written before it.
   */
  lemma IndexIsProspective(t: Table, fieldName: string, bucket: Bucket, k: nat, batch: seq<Payload>)
    requires Valid(t)
    requires Lookup(t.nameMap, fieldName) == Some(k)
    requires t.columns[k].state.Unindexed? && t.columns[k].dtype.id != NoneType
    ensures var added := AddIndexSpec(t, fieldName, bucket);
      var r := AppendMany(added.0, batch);
      var id := |t.indices|;
      && added.0.columns[k].state == Indexed(id, bucket)
      && id < |r.0.indices|
      && r.0.indices[id].entries == BatchEntries(added.0.columns[k], r.1, batch)
      && forall e :: e in r.0.indices[id].entries ==> |t.dataLog| <= e.offset
  {
    var added := AddIndexSpec(t, fieldName, bucket);
    AddIndexSuccess(t, fieldName, bucket, k);
    FreshIndexSeesOnlyLaterAppends(added.0, batch, k);
  }
}
