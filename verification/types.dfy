/**
 * The values the dialog table works with: column types and indexing states,
 * parsed records, index, filter and trigger registry entries, catalog entries
 * and the outcomes of the management operations.
 */
module Types {

  newtype byte = b: int | 0 <= b < 0x100

  datatype Option<T> = None | Some(value: T)

  /** An operation that either yields a value or fails with a message. */
  datatype Result<T> = Ok(value: T) | Err(message: string)

  /**
   * Column type tags. `NoneType` stands for every tag that has no
   * index-construction rule (the `default` branch of add_index).
   */
  datatype TypeId = NoneType | Bool | Char | Short | Int | Long | Float | Double | String

  /** A column type: its tag and its width in bytes. */
  datatype DataType = DataType(id: TypeId, size: nat)

  /** A bucket size: an IEEE-754 double, kept as its bit pattern and never computed with. */
  datatype Bucket = Bucket(bits: bv64)

  /** The per-column indexing state machine. */
  datatype IndexState = Unindexed | Indexing | Indexed(indexId: nat, bucket: Bucket)

  /** A schema column; its name is stored upper-cased, its state is its only mutable part. */
  datatype Column = Column(name: string, dtype: DataType, offset: nat, state: IndexState)

  /**
   * One column's value within a record, with the indexing state the column
   * had when the record was parsed (is_indexed, index_id and the bucket size).
   */
  datatype Field = Field(column: nat, value: seq<byte>, state: IndexState)

  /** The typed view of one appended payload. */
  datatype Record = Record(offset: nat, timestamp: nat, fields: seq<Field>)

  /** An index key: derived by the index collaborator from a field value and its bucket size. */
  datatype Key = Key(value: seq<byte>, bucket: Bucket)

  /** One insertion into an index: the key and the log offset of the record holding it. */
  datatype Entry = Entry(key: Key, offset: nat)

  /** An index registry entry: its construction parameters and everything inserted into it. */
  datatype Index = Index(keyWidth: nat, fanout: nat, entries: seq<Entry>)

  /** A handle on a predicate produced by the expression compiler. */
  datatype Predicate = Predicate(handle: nat)

  /** A filter registry entry: its predicate, its window and every record it was updated with. */
  datatype Filter = Filter(pred: Predicate, windowMs: nat, fed: seq<Record>)

  datatype RelOp = Eq | Neq | Lt | Gt | Le | Ge

  datatype Aggregate = Sum | Min | Max | Count

  /** A numeric threshold: a type and the bytes of its value. */
  datatype Numeric = Numeric(dtype: DataType, raw: seq<byte>)

  /** A trigger registry entry. */
  datatype Trigger = Trigger(filterId: nat, op: RelOp, threshold: Numeric)

  /** What the metadata catalog is told. */
  datatype MetaEntry =
    | IndexInfo(indexId: nat, fieldName: string, bucket: Bucket)
    | FilterInfo(filterId: nat, expression: string)
    | TriggerInfo(triggerId: nat, filterId: nat, agg: Aggregate, fieldName: string,
                  op: RelOp, threshold: Numeric)

  /** The reasons a management operation fails with a management exception. */
  datatype MgmtError = FieldNotFound | AlreadyIndexed | UnsupportedType | NoIndexExists

  /** The outcome of add_index and remove_index. */
  datatype Status = Done | ManagementError(reason: MgmtError)

  /** The expression compiler: an expression string and the current columns to a predicate. */
  type Compiler = (string, seq<Column>) -> Result<Predicate>
}
