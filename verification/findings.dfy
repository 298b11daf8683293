/**
 * add_index stores the position the index registry returns in a 16-bit
 * index id. Once the registry holds 65536 indices the id wraps around and
 * the new index shares its id with the first one ever built. The table model
 * (TableSpec.AddIndexSpec) uses the full position instead.
 */
module Findings {
  import opened Types
  import opened Strings
  import opened Schema
  import opened TableSpec

  /** The 16-bit index id add_index keeps for a registry position. */
  function IndexId16(position: nat): (id: nat)
    ensures id < 0x1_0000
    ensures position < 0x1_0000 ==> id == position
    ensures 0x1_0000 <= position ==> id != position
  {
    position % 0x1_0000
  }

  /** add_index as written: the index id is truncated to 16 bits. */
  function AsWrittenAddIndex(t: Table, fieldName: string, bucket: Bucket): (r: (Table, Status))
    requires Valid(t)
    ensures r.1 == Done ==> exists k :: 0 <= k < |r.0.columns| && r.0.columns[k].state == Indexed(IndexId16(|t.indices|), bucket)
  {
    match Lookup(t.nameMap, fieldName)
    case None => (t, ManagementError(FieldNotFound))
    case Some(k) =>
      var col := t.columns[k];
      if !SetIndexing(col.state).0 then (t, ManagementError(AlreadyIndexed))
      else
        match IndexParams(col.dtype)
        case None => (t.(columns := t.columns[k := col.(state := Unindexed)]), ManagementError(UnsupportedType))
        case Some(params) =>
          var id := IndexId16(|t.indices|);
          var r := (t.(indices := t.indices + [Index(params.0, params.1, [])],
                       columns := t.columns[k := col.(state := Indexed(id, bucket))],
                       metadata := t.metadata + [IndexInfo(id, fieldName, bucket)]),
                    Done);
          assert r.0.columns[k].state == Indexed(id, bucket);
          r
  }

  /** Below 65536 indices the truncation is invisible: both versions agree. */
  lemma AsWrittenAgreesBelowWrap(t: Table, fieldName: string, bucket: Bucket)
    requires Valid(t)
    requires |t.indices| < 0x1_0000
    ensures AsWrittenAddIndex(t, fieldName, bucket) == AddIndexSpec(t, fieldName, bucket)
  {
  }

  /**
   * A table whose column A is indexed under id 0 and whose registry already
   * holds 65536 indices: A was indexed first, then add_index and remove_index
   * were repeated 65535 times on B, each pair leaving one index (ids 1 to
   * 65535) behind.
   */
  function Crowded(bucket: Bucket): (t: Table)
    ensures Valid(t) && |t.indices| == 0x1_0000
  {
    var cols := [Column("A", DataType(Bool, 1), 0, Indexed(0, bucket)),
                 Column("B", DataType(Bool, 1), 1, Unindexed)];
    var t := Table([], 0, cols, map["A" := 0, "B" := 1],
                   seq(0x1_0000, _ => Index(1, 2, [])), [], [], []);
    assert NamesResolve(t.columns, t.nameMap);
    t
  }

  /**
   * Indexing column B of that table as written hands B the id 0, already
   * used by column A: appends would then insert both columns' keys into one
   * index, and the table invariant no longer holds.
   */
  lemma IndexIdCollides(bucket: Bucket)
    ensures var r := AsWrittenAddIndex(Crowded(bucket), "b", bucket);
      && r.1 == Done
      && r.0.columns[0].state == Indexed(0, bucket)
      && r.0.columns[1].state == Indexed(0, bucket)
      && !Valid(r.0)
  {
    var t := Crowded(bucket);
    assert ToUpper("b") == "B";
    assert Lookup(t.nameMap, "b") == Some(1);
    var r := AsWrittenAddIndex(t, "b", bucket);
    assert r.0.columns[0].state.indexId == r.0.columns[1].state.indexId;
  }

  /** The corrected add_index gives column B the fresh id 65536 and keeps the invariant. */
  lemma IndexIdFresh(bucket: Bucket)
    ensures var r := AddIndexSpec(Crowded(bucket), "b", bucket);
      && r.1 == Done
      && r.0.columns[0].state == Indexed(0, bucket)
      && r.0.columns[1].state == Indexed(0x1_0000, bucket)
      && Valid(r.0)
  {
    var t := Crowded(bucket);
    assert ToUpper("b") == "B";
    assert Lookup(t.nameMap, "b") == Some(1);
  }

  /**
   * After the colliding add_index, the index loop of a single append inserts
   * both columns' keys into index 0: A's byte and B's byte, at the same offset.
   */
  lemma IndexIdMergesKeys(bucket: Bucket, payload: seq<byte>, ts: nat)
    ensures var t := AsWrittenAddIndex(Crowded(bucket), "b", bucket).0;
      EntriesFor(Apply(t.columns, |t.dataLog|, payload, ts).fields, 0, |t.dataLog|)
        == [Entry(Key(Slice(payload, 0, 1), bucket), 0), Entry(Key(Slice(payload, 1, 1), bucket), 0)]
  {
    IndexIdCollides(bucket);
    var t := AsWrittenAddIndex(Crowded(bucket), "b", bucket).0;
    var fields := Apply(t.columns, |t.dataLog|, payload, ts).fields;
    assert t.columns[0] == Column("A", DataType(Bool, 1), 0, Indexed(0, bucket));
    assert t.columns[1] == Column("B", DataType(Bool, 1), 1, Indexed(0, bucket));
    assert |fields| == 2;
    var a := Entry(Key(Slice(payload, 0, 1), bucket), 0);
    var b := Entry(Key(Slice(payload, 1, 1), bucket), 0);
    assert fields[0] == Field(0, Slice(payload, 0, 1), Indexed(0, bucket));
    assert fields[1] == Field(1, Slice(payload, 1, 1), Indexed(0, bucket));
    assert EntriesFor(fields[..1][..0], 0, 0) == [];
    assert EntriesFor(fields[..1], 0, 0) == [a];
    assert EntriesFor(fields, 0, 0) == EntriesFor(fields[..1], 0, 0) + [b];
  }
}
