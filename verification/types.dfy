/**
 The values that travel between the storage engine, the write-ahead log and recovery.

 A WAL record is a common header (LSN, previous LSN of the same transaction, transaction id)
 and one of 25 bodies: three transaction markers, eleven kinds of change, and a compensation
 (CLR) of each kind of change.
 */
module Types {

  datatype Option<+T> = None | Some(value: T)

  type Byte = x: int | 0 <= x < 256

  // UUIDs are opaque 16-byte names; equality is all that is ever asked of them.
  type Uuid = nat
  type TxnId = Uuid
  type PageId = Uuid

  datatype DataToken = DataToken(kind: nat, bytes: seq<Byte>)

  // DataRowFlags: bit 0 is OBSOLETE.
  datatype Row = Row(id: nat, flags: nat, tokens: seq<DataToken>)

  datatype MetaSchema = MetaSchema(id: Uuid, name: seq<Byte>, dbName: seq<Byte>)

  datatype MetaColumn = MetaColumn(id: Uuid, tableId: Uuid, name: seq<Byte>, kind: nat, flags: nat)

  datatype MetaIndex = MetaIndex(id: Uuid, tableId: Uuid, columnId: Uuid, rootPageId: Uuid, name: seq<Byte>,
                                 keyType: nat, isUnique: bool)

  datatype MetaTable = MetaTable(id: Uuid, schemaId: Uuid, name: seq<Byte>, columns: seq<MetaColumn>,
                                 indexes: seq<MetaIndex>, lastRid: nat, totalRows: nat, liveRows: nat)

  datatype Change =
    | InsertRow(tableId: Uuid, page: PageId, after: Row)
    | UpdateRow(tableId: Uuid, page: PageId, before: Row, after: Row)
    | DeleteRow(tableId: Uuid, page: PageId, before: Row)
    | CreateSchema(schema: MetaSchema)
    | UpdateSchema(schemaBefore: MetaSchema, schemaAfter: MetaSchema)
    | DeleteSchema(schema: MetaSchema)
    | CreateTable(table: MetaTable)
    | UpdateTable(tableBefore: MetaTable, tableAfter: MetaTable)
    | DeleteTable(table: MetaTable)
    | CreateIndex(index: MetaIndex)
    | DropIndex(index: MetaIndex)
  {
    // The record kinds that carry a page id.
    predicate IsData() {
      InsertRow? || UpdateRow? || DeleteRow?
    }

    predicate On(p: PageId) {
      IsData() && page == p
    }
  }

  datatype Body =
    | Begin
    | Commit
    | Rollback
    | Do(change: Change)
    | Clr(undoNext: nat, change: Change)

  datatype WalRecord = WalRecord(lsn: nat, prev: nat, txn: TxnId, body: Body)

  datatype DataPage = DataPage(rows: seq<Row>, lastLsn: nat)
}
