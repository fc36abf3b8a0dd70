/**
 * The values the Canal client library hands to the consumer (`CanalEntry.*`
 * and `Message`). They are produced upstream and only read here.
 */
module CanalProtocol {
  import opened Wrappers

  /** Raw bytes, as carried by `Entry.storeValue`. */
  type Bytes = seq<bv8>

  /**
   * `CanalEntry.EntryType`. Only the two transaction markers are told apart by
   * the consumer; every other kind is decoded as a row change.
   */
  datatype EntryType = TransactionBegin | TransactionEnd | RowData | OtherEntryType

  /**
   * `CanalEntry.EventType`. Only `Delete` and `Insert` have branches of their
   * own; `Update` and every other kind take the update branch.
   */
  datatype EventType = Insert | Update | Delete | OtherEventType

  /** Source position of an entry; used only in log output. */
  datatype Header = Header(logfileName: string, logfileOffset: int, schemaName: string, tableName: string)

  /** One entry of a pulled message; `storeValue` is a serialised `RowChange`. */
  datatype Entry = Entry(header: Header, entryType: EntryType, storeValue: Bytes)

  /** One column of a row image. `updated` is only printed. */
  datatype Column = Column(name: string, value: string, updated: bool)

  /** `CanalEntry.RowData`: the before and after images of one changed row. */
  datatype RowImage = RowImage(beforeColumns: seq<Column>, afterColumns: seq<Column>)

  /** `CanalEntry.RowChange`: one event kind and the rows it changed, in order. */
  datatype RowChange = RowChange(eventType: EventType, rowDatas: seq<RowImage>)

  /** What one `getWithoutAck` returns: a batch id and the entries of the batch. */
  datatype Message = Message(id: int, entries: seq<Entry>)

  /**
   * `RowChange.parseFrom`: the protobuf decoder, which returns a value or
   * throws. Its wire format is not modelled; callers receive it as a parameter.
   */
  type Decoder = Bytes -> Option<RowChange>

  /** Transaction begin/end markers carry no rows and are skipped. */
  predicate IsTransactionMarker(e: Entry)
  {
    e.entryType == TransactionBegin || e.entryType == TransactionEnd
  }
}
