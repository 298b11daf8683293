/**
 * The dialog table itself: an object whose methods update its log, read
 * tail, schema and registries in place, one caller at a time. Each method
 * is proved to leave exactly the state, and return exactly the value, that
 * the matching function of TableSpec gives.
 */
module Dialog {
  import opened Types
  import opened Schema
  import opened TableSpec

  class DialogTable {
    var dataLog: seq<byte>
    var tail: nat
    var columns: seq<Column>
    var nameMap: map<string, nat>
    var indices: seq<Index>
    var filters: seq<Filter>
    var triggers: seq<Trigger>
    var metadata: seq<MetaEntry>
    /** The expression compiler add_filter hands its expressions to. */
    const compile: Compiler

    /** The table's state as a value. */
    function State(): Table
      reads this
    {
      Table(dataLog, tail, columns, nameMap, indices, filters, triggers, metadata)
    }

    predicate Valid()
      reads this
    {
      TableSpec.Valid(State()) && Ordered(State())
    }

    /** A table over the given columns: empty log, tail 0, nothing indexed or registered. */
    constructor (tableSchema: seq<Column>, compile: Compiler)
      ensures Valid()
      ensures State() == Empty(tableSchema)
      ensures this.compile == compile
    {
      var cols := DeclareAll(tableSchema);
      dataLog, tail := [], 0;
      columns, nameMap := cols, NameMap(cols);
      indices, filters, triggers, metadata := [], [], [], [];
      this.compile := compile;
      new;
      assert State() == Empty(tableSchema);
    }

    /** add_index: resolve the name, win the Unindexed -> Indexing transition, build the index. */
    method AddIndex(fieldName: string, bucket: Bucket) returns (status: Status)
      requires Valid()
      modifies this
      ensures Valid()
      ensures (State(), status) == AddIndexSpec(old(State()), fieldName, bucket)
    {
      AddIndexKeepsOrder(State(), fieldName, bucket);
      var found := Lookup(nameMap, fieldName);
      if found.None? {
        return ManagementError(FieldNotFound);
      }
      var k := found.value;
      var col := columns[k];
      var transition := SetIndexing(col.state);
      if !transition.0 {
        return ManagementError(AlreadyIndexed);
      }
      columns := columns[k := col.(state := transition.1)];
      var params := IndexParams(col.dtype);
      if params.None? {
        // set_unindexed: roll the column back to the state it had
        columns := columns[k := col.(state := Unindexed)];
        assert col.(state := Unindexed) == col;
        assert columns == old(columns);
        assert old(State()).columns[k := col.(state := Unindexed)] == old(State()).columns;
        return ManagementError(UnsupportedType);
      }
      var id := |indices|;
      indices := indices + [Index(params.value.0, params.value.1, [])];
      columns := columns[k := col.(state := Indexed(id, bucket))];
      assert columns == old(columns)[k := col.(state := Indexed(id, bucket))];
      metadata := metadata + [IndexInfo(id, fieldName, bucket)];
      status := Done;
    }

    /** remove_index: resolve the name and disable indexing; the index itself stays. */
    method RemoveIndex(fieldName: string) returns (status: Status)
      requires Valid()
      modifies this
      ensures Valid()
      ensures (State(), status) == RemoveIndexSpec(old(State()), fieldName)
    {
      RemoveIndexKeepsOrder(State(), fieldName);
      var found := Lookup(nameMap, fieldName);
      if found.None? {
        return ManagementError(FieldNotFound);
      }
      var k := found.value;
      var transition := DisableIndexing(columns[k].state);
      if !transition.0 {
        return ManagementError(NoIndexExists);
      }
      columns := columns[k := columns[k].(state := transition.1)];
      status := Done;
    }

    /** add_filter: compile, register under the next id, tell the catalog. */
    method AddFilter(expression: string, windowMs: nat) returns (result: Result<nat>)
      requires Valid()
      modifies this
      ensures Valid()
      ensures (State(), result) == AddFilterSpec(old(State()), compile, expression, windowMs)
    {
      AddFilterKeepsOrder(State(), compile, expression, windowMs);
      var compiled := compile(expression, columns);
      if compiled.Err? {
        return Err(compiled.message);
      }
      var id := |filters|;
      filters := filters + [Filter(compiled.value, windowMs, [])];
      metadata := metadata + [FilterInfo(id, expression)];
      result := Ok(id);
    }

    /** add_trigger: register under the next id, tell the catalog. */
    method AddTrigger(filterId: nat, fieldName: string, agg: Aggregate, op: RelOp,
                      threshold: Numeric) returns (id: nat)
      requires Valid()
      modifies this
      ensures Valid()
      ensures (State(), id) == AddTriggerSpec(old(State()), filterId, fieldName, agg, op, threshold)
    {
      AddTriggerKeepsOrder(State(), filterId, fieldName, agg, op, threshold);
      id := |triggers|;
      triggers := triggers + [Trigger(filterId, op, threshold)];
      metadata := metadata + [TriggerInfo(id, filterId, agg, fieldName, op, threshold)];
    }

    /**
     * append: write the payload to the log, parse it, update every filter,
     * insert every indexed field, and only then advance the read tail.
     */
    method Append(payload: seq<byte>, ts: nat) returns (offset: nat)
      requires Valid()
      modifies this
      ensures Valid()
      ensures (State(), offset) == AppendSpec(old(State()), payload, ts)
    {
      AppendKeepsValid(State(), payload, ts);
      AppendKeepsOrder(State(), payload, ts);
      offset := |dataLog|;
      dataLog := dataLog + payload;
      var rec := Apply(columns, offset, payload, ts);
      UpdateFilters(rec);
      assert IdsInRange(rec.fields, |indices|);
      InsertFields(rec.fields, offset);
      // data_log_.flush(offset, length) only makes the bytes durable.
      // rt_.advance(offset, length): with no other append in flight the tail is at offset,
      // so the record becomes visible only now, after its filters and indices are done.
      assert tail == offset;
      tail := offset + |payload|;
    }

    /** The filter loop of append: every registered filter, in registry order, sees the record. */
    method UpdateFilters(rec: Record)
      modifies this`filters
      ensures filters == FeedAll(old(filters), rec)
    {
      var nfilters := |filters|;
      var i := 0;
      while i < nfilters
        invariant 0 <= i <= nfilters == |filters|
        invariant forall m :: 0 <= m < i ==> filters[m] == Update(old(filters)[m], rec)
        invariant forall m :: i <= m < nfilters ==> filters[m] == old(filters)[m]
      {
        filters := filters[i := Update(filters[i], rec)];
        i := i + 1;
      }
    }

    /** The index loop of append: each indexed field's key goes into its index, at offset. */
    method InsertFields(fields: seq<Field>, offset: nat)
      requires IdsInRange(fields, |indices|)
      modifies this`indices
      ensures indices == InsertAll(old(indices), fields, offset)
    {
      var j := 0;
      while j < |fields|
        invariant 0 <= j <= |fields|
        invariant IdsInRange(fields[..j], |old(indices)|)
        invariant indices == InsertAll(old(indices), fields[..j], offset)
      {
        var f := fields[j];
        if f.state.Indexed? {
          var id := f.state.indexId;
          indices := indices[id := indices[id].(entries := indices[id].entries + [Entry(KeyOf(f), offset)])];
        }
        assert fields[..j + 1][..j] == fields[..j];
        j := j + 1;
      }
      assert fields[..|fields|] == fields;
    }

    /** ptr(offset, tail): the position of the data at offset if it lies below the given tail. */
    method PtrAt(offset: nat, snapshot: nat) returns (p: Option<nat>)
      ensures p.Some? <==> offset < snapshot
      ensures p.Some? ==> p.value == offset
    {
      if offset < snapshot {
        return Some(offset);
      }
      return None;
    }

    /** ptr(offset): as PtrAt against the current read tail; what it returns lies in the log. */
    method Ptr(offset: nat) returns (p: Option<nat>)
      requires Valid()
      ensures p.Some? <==> offset < tail
      ensures p.Some? ==> p.value == offset && p.value < |dataLog|
    {
      p := PtrAt(offset, tail);
    }

    /**
     * read(offset, data, length, tail): copies length bytes of the log at
     * offset into buf if offset lies below the given tail; otherwise leaves
     * buf alone and answers false.
     */
    method ReadAt(offset: nat, buf: array<byte>, length: nat, snapshot: nat) returns (ok: bool)
      requires length <= buf.Length
      requires offset < snapshot ==> offset + length <= |dataLog|
      modifies buf
      ensures ok <==> offset < snapshot
      ensures ok ==> buf[..length] == dataLog[offset..offset + length]
                     && buf[length..] == old(buf[length..])
      ensures !ok ==> buf[..] == old(buf[..])
    {
      if offset < snapshot {
        forall k | 0 <= k < length {
          buf[k] := dataLog[offset + k];
        }
        return true;
      }
      return false;
    }

    /** get(offset, data, length): as ReadAt against the current read tail. */
    method Get(offset: nat, buf: array<byte>, length: nat) returns (ok: bool)
      requires length <= buf.Length
      requires offset < tail ==> offset + length <= |dataLog|
      modifies buf
      ensures ok <==> offset < tail
      ensures ok ==> buf[..length] == dataLog[offset..offset + length]
                     && buf[length..] == old(buf[length..])
      ensures !ok ==> buf[..] == old(buf[..])
    {
      ok := ReadAt(offset, buf, length, tail);
    }

    /** num_records(): the read tail, which is also the length of the committed log. */
    method NumRecords() returns (n: nat)
      requires Valid()
      ensures n == tail && n == |dataLog|
    {
      n := tail;
    }
  }
}
