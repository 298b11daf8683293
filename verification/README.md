# Dialog table

A Dafny model of confluo's `dialog_table` (`libdialog/dialog/dialog_table.h`),
the component that ties together an append-only data log, a read tail, a
schema whose columns can be indexed at run time, and append-only registries
of indices, filters and triggers with a metadata catalog.

The table is modelled in two layers:

- `Dialog.DialogTable` (`dialog_table.dfy`) is a class whose fields are the
  table's state (data log, read tail, columns, name map, index, filter and
  trigger registries, catalog). Its methods update those fields in place, in
  the order the source does, and each is proved to leave exactly the state
  and return exactly the value of a specification function.
- `TableSpec` (`table_spec.dfy`) holds those specification functions over a
  `Table` value, with the table invariant `Valid` (read tail at the end of
  the log, names resolve, indexed columns name existing and distinct
  indices, catalog entries name registered ids) and the ordering invariant
  `Ordered` (filters and indices received their records in offset order, none
  beyond the tail). `TableProperties` (`table_properties.dfy`) proves what the
  operations promise about it. Append needs less than the full invariant:
  `Appendable` (tail at the end of the log, sound index references)
  suffices, and the append lemmas are stated under it.

Supporting modules: `Types` (the values), `Strings` (ASCII upper-casing of
field names), `Schema` (the schema as the table uses it: indexing
transitions, name lookup, index parameters by column type, payload parsing)
and `Findings` (the 16-bit index id below).

Collaborators are given by their effect as the table sees it: the expression
compiler is a function value handed to the constructor; a filter update
records the record it was given; a radix-tree insertion records the
(key, offset) pair; a field's key is its bytes with the column's bucket size;
the catalog is a sequence of entries; a bucket size is kept as the bit
pattern of its double. The timestamp of an append is a parameter. Failures
that the source throws as `management_exception` are returned as a `Status`;
a compilation failure is returned as `Err`.

## Model

| member | source | states |
|---|---|---|
| Strings.ToUpper | libdialog/dialog/dialog_table.h:67 | the normalised name has the same length, no lower-case ASCII letter, and every letter moved to upper case with all other characters kept |
| Strings.ToUpperIdempotent | libdialog/dialog/dialog_table.h:67 | normalising an already normalised name changes nothing |
| Strings.ToUpperIgnoresCase | libdialog/dialog/dialog_table.h:67 | names that differ only in letter case normalise to the same name |
| Schema.Lookup | libdialog/dialog/dialog_table.h:66-71 | a field name resolves exactly when its upper-cased form is in the name map, and then to that entry's position; ColumnNamed and LookupIgnoresCase state what this means for the columns |
| Schema.SetIndexing | libdialog/dialog/dialog_table.h:74 | the Unindexed to Indexing transition succeeds exactly from Unindexed and otherwise leaves the state alone |
| Schema.IndexParams | libdialog/dialog/dialog_table.h:77-93 | the type dispatch: no rule exactly for a type without one; (1, 2) for a boolean, (type size, 256) for the other types; AddIndexSuccess and AddIndexOutcome state the effect on the table |
| Schema.DisableIndexing | libdialog/dialog/dialog_table.h:112 | succeeds exactly when the column is Indexing or Indexed, and leaves it Unindexed; RemoveIndexOutcome states the effect on the table |
| Schema.Apply | libdialog/dialog/dialog_table.h:138 | defines the parsed record: one field per column, each carrying the column's bytes of the payload and its indexing state; AppendFeedsEveryFilter and AppendIndexesColumn state its outcome |
| Schema.KeyOf | libdialog/dialog/dialog_table.h:146 | defines an indexed field's key as its bytes and its column's bucket size; AppendIndexesColumn states the key an append inserts |
| Schema.NameMap | libdialog/dialog/dialog_table.h:48-54 | every name in the map resolves to a column carrying that name, and every column's name is in the map |
| TableSpec.Empty | libdialog/dialog/dialog_table.h:48-54 | a new table satisfies both invariants, has one column per schema column, and none is indexed |
| TableSpec.AddIndexSpec | libdialog/dialog/dialog_table.h:64-101 | add_index keeps the table invariant on every path, including the rollback of an unsupported type |
| TableSpec.RemoveIndexSpec | libdialog/dialog/dialog_table.h:103-116 | remove_index keeps the table invariant |
| TableSpec.AddFilterSpec | libdialog/dialog/dialog_table.h:118-123 | add_filter keeps the table invariant |
| TableSpec.AddTriggerSpec | libdialog/dialog/dialog_table.h:125-133 | add_trigger keeps the table invariant |
| TableSpec.Update | libdialog/dialog/dialog_table.h:142 | defines a filter update as the filter having seen the record; AppendFeedsEveryFilter states its outcome |
| TableSpec.FeedAll | libdialog/dialog/dialog_table.h:140-142 | defines the filter loop's result: every filter updated with the record; UpdateFilters is proved to compute it and AppendFeedsEveryFilter states its outcome |
| TableSpec.Insert | libdialog/dialog/dialog_table.h:145-146 | defines one field's insertion: its key at the offset into its index when it is indexed; InsertAllEntries states the loop's outcome |
| TableSpec.EntriesFor | libdialog/dialog/dialog_table.h:144-146 | every entry one append gives an index carries that append's offset |
| TableSpec.InsertAll | libdialog/dialog/dialog_table.h:144-146 | the index loop adds no index and drops none |
| TableSpec.InsertAllEntries | libdialog/dialog/dialog_table.h:144-146 | the index loop gives each index its old entries followed by those of the fields naming it, in field order |
| TableSpec.AppendSpec | libdialog/dialog/dialog_table.h:135-151 | append keeps the tail at the end of the log and the index references sound, and leaves the columns, the name map and the registry sizes alone |
| TableSpec.AppendEntries | libdialog/dialog/dialog_table.h:144-146 | after append each index holds its old entries followed by those the new record's fields give it |
| TableSpec.AppendKeepsValid | libdialog/dialog/dialog_table.h:135-151 | append keeps the table invariant |
| TableSpec.AppendKeepsOrder | libdialog/dialog/dialog_table.h:135-151 | after append every filter and index still holds its records in offset order, none beyond the new tail |
| TableSpec.AddIndexKeepsOrder | libdialog/dialog/dialog_table.h:64-101 | add_index keeps the ordering invariant |
| TableSpec.RemoveIndexKeepsOrder | libdialog/dialog/dialog_table.h:103-116 | remove_index keeps the ordering invariant |
| TableSpec.AddFilterKeepsOrder | libdialog/dialog/dialog_table.h:118-123 | add_filter keeps the ordering invariant |
| TableSpec.AddTriggerKeepsOrder | libdialog/dialog/dialog_table.h:125-133 | add_trigger keeps the ordering invariant |
| TableSpec.AppendMany | libdialog/dialog/dialog_table.h:135-151 | a run of appends returns one offset per payload, leaves the schema and the registry sizes alone, only extends the log, and leaves the tail at its end |
| TableSpec.AppendManyKeepsInvariants | libdialog/dialog/dialog_table.h:135-151 | a run of appends keeps both invariants |
| Dialog.DialogTable.constructor | libdialog/dialog/dialog_table.h:48-54 | the new object holds the empty table over the declared columns and satisfies both invariants |
| Dialog.DialogTable.AddIndex | libdialog/dialog/dialog_table.h:64-101 | the new state and status are those of AddIndexSpec; both invariants hold after |
| Dialog.DialogTable.RemoveIndex | libdialog/dialog/dialog_table.h:103-116 | the new state and status are those of RemoveIndexSpec; both invariants hold after |
| Dialog.DialogTable.AddFilter | libdialog/dialog/dialog_table.h:118-123 | the new state and result are those of AddFilterSpec; both invariants hold after |
| Dialog.DialogTable.AddTrigger | libdialog/dialog/dialog_table.h:125-133 | the new state and id are those of AddTriggerSpec; both invariants hold after |
| Dialog.DialogTable.Append | libdialog/dialog/dialog_table.h:135-151 | the new state and offset are those of AppendSpec; both invariants hold after (the body advances the tail only after the filter and index loops; VisibleRecordIsComplete states what that guarantees) |
| Dialog.DialogTable.UpdateFilters | libdialog/dialog/dialog_table.h:140-142 | the filter loop updates every filter registered at its start, each once, with the record |
| Dialog.DialogTable.InsertFields | libdialog/dialog/dialog_table.h:144-146 | the index loop leaves the indices InsertAll gives |
| Dialog.DialogTable.PtrAt | libdialog/dialog/dialog_table.h:153-157 | a position is returned exactly when the offset is below the given tail, and it is the offset |
| Dialog.DialogTable.Ptr | libdialog/dialog/dialog_table.h:159-161 | a position is returned exactly when the offset is below the read tail, and it lies inside the log |
| Dialog.DialogTable.ReadAt | libdialog/dialog/dialog_table.h:163-169 | true exactly when the offset is below the given tail; then the buffer's first length bytes are the log's bytes at offset and the rest is untouched; otherwise nothing is written |
| Dialog.DialogTable.Get | libdialog/dialog/dialog_table.h:171-173 | as ReadAt against the current read tail |
| Dialog.DialogTable.NumRecords | libdialog/dialog/dialog_table.h:175-177 | the result is the read tail, which equals the committed log length |
| TableProperties.ColumnNamed | libdialog/dialog/dialog_table.h:66-71 | a field name resolves exactly when some column carries its upper-cased form, and then to such a column |
| TableProperties.LookupIgnoresCase | libdialog/dialog/dialog_table.h:67 | names differing only in letter case resolve to the same column |
| TableProperties.AddIndexOutcome | libdialog/dialog/dialog_table.h:64-101 | FieldNotFound iff the name does not resolve; AlreadyIndexed iff the column is indexed; UnsupportedType iff unindexed with no index rule; Done iff unindexed with a rule; every failure leaves the table unchanged |
| TableProperties.AddIndexSuccess | libdialog/dialog/dialog_table.h:73-96 | success appends one index, (1, 2) for a boolean column and (size, 256) otherwise, marks the column Indexed with the new id and bucket, writes one catalog entry, and changes nothing else |
| TableProperties.AddRemoveAddIndex | libdialog/dialog/dialog_table.h:64-116 | a second add_index fails with AlreadyIndexed; remove_index keeps the index registry; adding again succeeds under a new id |
| TableProperties.RemoveIndexOutcome | libdialog/dialog/dialog_table.h:103-116 | FieldNotFound iff the name does not resolve; NoIndexExists iff the column is unindexed; Done iff it is indexed, and then only that column becomes Unindexed; a failure changes nothing |
| TableProperties.AddFilterRegisters | libdialog/dialog/dialog_table.h:118-123 | a compile error is returned with nothing registered; otherwise one empty filter goes in under the next id, earlier filters keep their ids, one catalog entry is written, nothing else changes |
| TableProperties.AddTriggerRegisters | libdialog/dialog/dialog_table.h:125-133 | one trigger goes in under the next id, earlier triggers keep their ids, one catalog entry is written, nothing else changes |
| TableProperties.AppendCommits | libdialog/dialog/dialog_table.h:135-151 | the offset is the old log length; the log grows by exactly the payload; the tail ends at its end; the offset was not visible before and is visible after iff the payload is not empty; schema, triggers and catalog are untouched |
| TableProperties.AppendFeedsEveryFilter | libdialog/dialog/dialog_table.h:138-142 | every filter registered at the time receives the parsed record, at the returned offset and timestamp, exactly once |
| TableProperties.EntriesForOne | libdialog/dialog/dialog_table.h:144-146 | a field alone naming an index gives it exactly its key at the offset |
| TableProperties.EntriesForNone | libdialog/dialog/dialog_table.h:144-146 | an index no field names gets nothing |
| TableProperties.AppendIndexesColumn | libdialog/dialog/dialog_table.h:144-146 | each indexed column's index gains exactly one entry: the column's value under its bucket at the new offset |
| TableProperties.AppendLeavesOtherIndices | libdialog/dialog/dialog_table.h:144-146 | an index no column is indexed into (such as one whose column was un-indexed) is unchanged |
| TableProperties.VisibleRecordIsComplete | libdialog/dialog/dialog_table.h:140-149 | once the new offset is visible, every filter's latest record and every indexed column's latest entry are at that offset |
| TableProperties.AppendManyUnfold | libdialog/dialog/dialog_table.h:135-151 | a run of appends is its first append, at the old log length, followed by the run of the rest |
| TableProperties.AppendManyLog | libdialog/dialog/dialog_table.h:137 | a run of appends writes the payloads one after another at the end of the log |
| TableProperties.AppendManyOffsetsAre | libdialog/dialog/dialog_table.h:137 | a run of appends returns the offsets of the payloads laid out from the old log length |
| TableProperties.OffsetStep | libdialog/dialog/dialog_table.h:137 | each offset of the layout is the previous one plus the previous payload's length |
| TableProperties.OffsetBounds | libdialog/dialog/dialog_table.h:137 | each payload of the layout lies within the laid-out bytes, and the last one ends with them |
| TableProperties.PayloadAtOffset | libdialog/dialog/dialog_table.h:137 | each payload lies at its offset in the written log |
| TableProperties.LayoutFacts | libdialog/dialog/dialog_table.h:137 | the layout statements above together, for any prefix |
| TableProperties.AppendManyOffsets | libdialog/dialog/dialog_table.h:135-151 | the offsets of a run start at the old log length, follow with no gap, end at the new tail, and each payload reads back at its offset |
| TableProperties.FilterSeesEveryAppend | libdialog/dialog/dialog_table.h:140-142 | a filter registered before a run of appends receives one record per append, in order, at each returned offset |
| TableProperties.AppendManyFirst | libdialog/dialog/dialog_table.h:144-146 | the first append of a run leaves the columns alone and gives an indexed column's index one entry at its offset |
| TableProperties.IndexedColumnSeesEveryAppend | libdialog/dialog/dialog_table.h:144-146 | an indexed column's index receives one entry per append of a run, in order, at each returned offset |
| TableProperties.FreshIndexSeesOnlyLaterAppends | libdialog/dialog/dialog_table.h:144-146 | an index empty when a run starts ends with exactly the run's entries, none for an earlier offset |
| TableProperties.IndexIsProspective | libdialog/dialog/dialog_table.h:64-151 | after add_index the new index holds exactly one entry per later append and none for a record written before it |
| Findings.IndexId16 | libdialog/dialog/dialog_table.h:76-89 | a 16-bit id equals the registry position below 65536 and differs from it from 65536 on |
| Findings.AsWrittenAddIndex | libdialog/dialog/dialog_table.h:64-101 | add_index with the 16-bit id: on success some column is indexed under the truncated id |
| Findings.AsWrittenAgreesBelowWrap | libdialog/dialog/dialog_table.h:76-89 | below 65536 indices the truncating and the corrected add_index agree |
| Findings.Crowded | libdialog/dialog/dialog_table.h:64-116 | a valid table with 65536 indices, column A indexed under id 0 and column B unindexed |
| Findings.IndexIdCollides | libdialog/dialog/dialog_table.h:76-95 | indexing B as written gives it id 0, shared with A, and breaks the table invariant |
| Findings.IndexIdMergesKeys | libdialog/dialog/dialog_table.h:144-146 | after the colliding add_index one append inserts both A's and B's key into index 0 |
| Findings.IndexIdFresh | libdialog/dialog/dialog_table.h:76-95 | indexing B with the corrected add_index gives it id 65536 and keeps the invariant |

## Left out

- Concurrency: the compare-and-swap in set_indexing, the atomic reservation in the data log and the read tail's wait for earlier appends are not modelled; one caller at a time, so the tail always equals the log length between operations and the Indexing state is never seen between operations.
- Storage: the storage mode, memory mapping, path arguments and data_log_.flush are not modelled; flush only makes bytes durable.
- The constructor from a schema_builder (lines 56-61) is not modelled separately; it differs from the column-vector constructor only in where the columns come from.
- Collaborator internals: the expression compiler, filter::update, trigger evaluation, radix_tree, tiered_index, schema_t::apply's typed decoding, field_t::get_key and metadata_writer's file format are not part of this model; each is reduced to the effect the table sees.
- The unused registries idx_bool_ and idx1_ to idx8_ (lines 189-194) are not modelled; no operation touches them.
- The default timestamp time_utils::cur_ns() is not modelled; append takes the timestamp as a parameter.
- Floating point: a bucket size is carried as an opaque bit pattern and never computed with.
- Dialog.DialogTable.ReadAt, Dialog.DialogTable.Get: require the bytes requested below the tail to lie in the written log, where the source would read unspecified memory beyond it.
- Dialog.DialogTable.PtrAt, Dialog.DialogTable.Ptr: return a log position rather than a raw pointer.
- Schema.NameMap: the schema_t constructor is not part of this model; when two declared columns share an upper-cased name, the model lets the later one take the name, and it does not require names to be unique.
- Schema.Slice: a payload shorter than a column's extent yields the bytes present, where the source would read past the payload.
- Registry capacity: the registries are unbounded; the capacity of the underlying logs and their growth are not modelled.
- The 16-bit column position `idx` in add_index and remove_index is not modelled; columns are addressed by unbounded position.
- Offsets: an empty payload takes the same offset as the next append; returned offsets are pairwise distinct only for non-empty payloads (see AppendManyOffsets). The model follows the code.
- TableSpec.AddIndexSpec: uses the full registry position as the index id (the corrected behaviour below), not the 16-bit id of the code.

## Findings

| source | as written | input that shows it | evidently intended | confidence | as-written member | corrected member |
|---|---|---|---|---|---|---|
| libdialog/dialog/dialog_table.h:76-89 | the position returned by the index registry is stored in a 16-bit index_id | a table whose index registry already holds 65536 indices (index A first, then add_index / remove_index on B 65535 times, each pair leaving one behind) and one column indexed under id 0; add_index on another column gives it id 0 too (Findings.IndexIdCollides), so the next append puts both columns' keys into one index (Findings.IndexIdMergesKeys) | the id is the registry position, so every indexed column has an index of its own | medium, not executed | Findings.IndexIdCollides | Findings.IndexIdFresh |
