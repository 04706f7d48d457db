/**
 The serializers as they run: field by field into a stream, and field by field out of one.
 */
module WalSerializer {
  import opened Types
  import opened Codec
  import opened WalCodec
  import opened MemoryStreams

  method SerializeToken(t: DataToken) returns (stream: MemoryStream)
    ensures fresh(stream) && stream.position == 0 && stream.buffer == PutToken(t, [])
  {
    hide Put, PutStr;
    stream := new MemoryStream();
    stream.WriteNumber(t.kind, 8, if t.kind == NULL_TYPE then [] else PutStr(t.bytes, []));
    if t.kind != NULL_TYPE {
      stream.WriteStr(t.bytes, []);
    }
    Closed(stream.buffer, PutToken(t, []));
    var _ := stream.Seek(0);
  }

  lemma Closed(buffer: Bytes, total: Bytes)
    requires buffer + [] == [] + total
    ensures buffer == total
  {
    assert buffer + [] == buffer && [] + total == total;
  }

  method AppendTokens(ts: seq<DataToken>, stream: MemoryStream)
    requires stream.AtEnd()
    modifies stream
    ensures stream.AtEnd() && stream.buffer == old(stream.buffer) + PutTokens(ts, [])
  {
    hide PutToken;
    ghost var before := stream.buffer;
    assert ts[0..] == ts;
    for i := 0 to |ts|
      invariant stream.AtEnd() && stream.buffer + PutTokens(ts[i..], []) == before + PutTokens(ts, [])
    {
      var serialized := SerializeToken(ts[i]);
      ghost var done, tail := stream.buffer, PutTokens(ts[i + 1..], []);
      assert ts[i..][1..] == ts[i + 1..];
      PutTokenPrefix(ts[i], [], tail);
      Joined(done, PutToken(ts[i], []), tail);
      stream.Append(serialized, |serialized.buffer|);
    }
    Joined(stream.buffer, [], []);
  }

  lemma Joined(done: Bytes, piece: Bytes, tail: Bytes)
    ensures done + (piece + tail) == (done + piece) + tail && [] + tail == tail && done + [] == done
  {
  }

  method SerializeRow(r: Row) returns (stream: MemoryStream)
    ensures fresh(stream) && stream.position == 0 && stream.buffer == PutRow(r, [])
  {
    hide Put, PutTokens;
    stream := new MemoryStream();
    stream.WriteNumber(r.id, 8, Put(r.flags, 4, Put(|r.tokens|, 8, PutTokens(r.tokens, []))));
    stream.WriteNumber(r.flags, 4, Put(|r.tokens|, 8, PutTokens(r.tokens, [])));
    stream.WriteNumber(|r.tokens|, 8, PutTokens(r.tokens, []));
    AppendTokens(r.tokens, stream);
    Joined([], [], stream.buffer);
    Joined([], [], PutRow(r, []));
    var _ := stream.Seek(0);
  }

  method SerializeSchema(m: MetaSchema) returns (stream: MemoryStream)
    ensures fresh(stream) && stream.position == 0 && stream.buffer == PutSchema(m, [])
  {
    hide Put, PutStr;
    stream := new MemoryStream();
    stream.WriteNumber(m.id, 16, PutStr(m.name, PutStr(m.dbName, [])));
    stream.WriteStr(m.name, PutStr(m.dbName, []));
    stream.WriteStr(m.dbName, []);
    Closed(stream.buffer, PutSchema(m, []));
    var _ := stream.Seek(0);
  }

  method SerializeColumn(m: MetaColumn) returns (stream: MemoryStream)
    ensures fresh(stream) && stream.position == 0 && stream.buffer == PutColumn(m, [])
  {
    hide Put, PutStr;
    stream := new MemoryStream();
    stream.WriteNumber(m.id, 16, Put(m.tableId, 16, PutStr(m.name, Put(m.kind, 8, Put(m.flags, 4, [])))));
    stream.WriteNumber(m.tableId, 16, PutStr(m.name, Put(m.kind, 8, Put(m.flags, 4, []))));
    stream.WriteStr(m.name, Put(m.kind, 8, Put(m.flags, 4, [])));
    stream.WriteNumber(m.kind, 8, Put(m.flags, 4, []));
    stream.WriteNumber(m.flags, 4, []);
    Closed(stream.buffer, PutColumn(m, []));
    var _ := stream.Seek(0);
  }

  method SerializeIndex(m: MetaIndex) returns (stream: MemoryStream)
    ensures fresh(stream) && stream.position == 0 && stream.buffer == PutIndex(m, [])
  {
    hide Put, PutStr;
    stream := new MemoryStream();
    var flag := if m.isUnique then 1 else 0;
    ghost var tail := PutStr(m.name, Put(flag, 1, Put(m.keyType, 8, [])));
    stream.WriteNumber(m.id, 16, Put(m.tableId, 16, Put(m.columnId, 16, Put(m.rootPageId, 16, tail))));
    stream.WriteNumber(m.tableId, 16, Put(m.columnId, 16, Put(m.rootPageId, 16, tail)));
    stream.WriteNumber(m.columnId, 16, Put(m.rootPageId, 16, tail));
    stream.WriteNumber(m.rootPageId, 16, tail);
    stream.WriteStr(m.name, Put(flag, 1, Put(m.keyType, 8, [])));
    stream.WriteNumber(flag, 1, Put(m.keyType, 8, []));
    stream.WriteNumber(m.keyType, 8, []);
    Closed(stream.buffer, PutIndex(m, []));
    var _ := stream.Seek(0);
  }

  method AppendColumns(cs: seq<MetaColumn>, stream: MemoryStream)
    requires stream.AtEnd()
    modifies stream
    ensures stream.AtEnd() && stream.buffer == old(stream.buffer) + PutColumns(cs, [])
  {
    hide PutColumn;
    ghost var before := stream.buffer;
    assert cs[0..] == cs;
    for i := 0 to |cs|
      invariant stream.AtEnd() && stream.buffer + PutColumns(cs[i..], []) == before + PutColumns(cs, [])
    {
      var serialized := SerializeColumn(cs[i]);
      ghost var done, tail := stream.buffer, PutColumns(cs[i + 1..], []);
      assert cs[i..][1..] == cs[i + 1..];
      PutColumnPrefix(cs[i], [], tail);
      Joined(done, PutColumn(cs[i], []), tail);
      stream.Write(serialized.buffer);
    }
    Joined(stream.buffer, [], []);
  }

  method AppendIndexes(xs: seq<MetaIndex>, stream: MemoryStream)
    requires stream.AtEnd()
    modifies stream
    ensures stream.AtEnd() && stream.buffer == old(stream.buffer) + PutIndexes(xs, [])
  {
    hide PutIndex;
    ghost var before := stream.buffer;
    assert xs[0..] == xs;
    for i := 0 to |xs|
      invariant stream.AtEnd() && stream.buffer + PutIndexes(xs[i..], []) == before + PutIndexes(xs, [])
    {
      var serialized := SerializeIndex(xs[i]);
      ghost var done, tail := stream.buffer, PutIndexes(xs[i + 1..], []);
      assert xs[i..][1..] == xs[i + 1..];
      PutIndexPrefix(xs[i], [], tail);
      Joined(done, PutIndex(xs[i], []), tail);
      stream.Write(serialized.buffer);
    }
    Joined(stream.buffer, [], []);
  }

  method SerializeTable(m: MetaTable) returns (stream: MemoryStream)
    ensures fresh(stream) && stream.position == 0 && stream.buffer == PutTable(m, [])
  {
    hide Put, PutStr, PutColumns, PutIndexes, PutTable;
    stream := new MemoryStream();
    WriteTableHead(m, stream);
    ghost var afterColumns := Put(m.lastRid, 8, Put(|m.indexes|, 8, PutIndexes(m.indexes, [])));
    PutColumnsPrefix(m.columns, [], afterColumns);
    Joined([], [], afterColumns);
    Joined(stream.buffer, PutColumns(m.columns, []), afterColumns);
    AppendColumns(m.columns, stream);
    stream.WriteNumber(m.lastRid, 8, Put(|m.indexes|, 8, PutIndexes(m.indexes, [])));
    stream.WriteNumber(|m.indexes|, 8, PutIndexes(m.indexes, []));
    AppendIndexes(m.indexes, stream);
    Joined([], [], PutTable(m, []));
    var _ := stream.Seek(0);
  }

  // The fields of a table up to its column count.
  method WriteTableHead(m: MetaTable, stream: MemoryStream)
    requires stream.buffer == [] && stream.position == 0
    modifies stream
    ensures stream.AtEnd()
    ensures stream.buffer + PutColumns(m.columns, Put(m.lastRid, 8, Put(|m.indexes|, 8, PutIndexes(m.indexes, []))))
         == [] + PutTable(m, [])
  {
    hide Put, PutStr, PutColumns, PutIndexes;
    ghost var tail := PutTableRest(m, []);
    stream.WriteNumber(m.id, 16, Put(m.schemaId, 16, PutStr(m.name, Put(m.totalRows, 8, Put(m.liveRows, 8, tail)))));
    stream.WriteNumber(m.schemaId, 16, PutStr(m.name, Put(m.totalRows, 8, Put(m.liveRows, 8, tail))));
    stream.WriteStr(m.name, Put(m.totalRows, 8, Put(m.liveRows, 8, tail)));
    stream.WriteNumber(m.totalRows, 8, Put(m.liveRows, 8, tail));
    stream.WriteNumber(m.liveRows, 8, tail);
    stream.WriteNumber(|m.columns|, 8, PutColumns(m.columns, Put(m.lastRid, 8, Put(|m.indexes|, 8, PutIndexes(m.indexes, [])))));
  }

  // The rows or metadata at the end of a record.
  method AppendChange(c: Change, stream: MemoryStream)
    requires stream.AtEnd()
    modifies stream
    ensures stream.AtEnd() && stream.buffer == old(stream.buffer) + PutChange(c, [])
  {
    hide PutChange;
    var first, second;
    if c.IsData() {
      first, second := RowBytes(c);
    } else {
      first, second := MetadataBytes(c);
    }
    stream.Write(first);
    stream.Write(second);
  }

  method RowBytes(c: Change) returns (first: Bytes, second: Bytes)
    requires c.IsData()
    ensures first + second == PutChange(c, [])
  {
    hide PutRow;
    second := [];
    match c {
      case InsertRow(_, _, after) =>
        var s := SerializeRow(after);
        first := s.buffer;
      case UpdateRow(_, _, before, after) =>
        var s := SerializeRow(before);
        var t := SerializeRow(after);
        first, second := s.buffer, t.buffer;
        PutRowPrefix(before, [], second);
        Joined([], [], second);
      case DeleteRow(_, _, before) =>
        var s := SerializeRow(before);
        first := s.buffer;
    }
    Joined(first, [], []);
  }

  method MetadataBytes(c: Change) returns (first: Bytes, second: Bytes)
    requires !c.IsData()
    ensures first + second == PutChange(c, [])
  {
    hide PutSchema, PutTable, PutIndex;
    second := [];
    match c {
      case CreateSchema(schema) =>
        var s := SerializeSchema(schema);
        first := s.buffer;
      case UpdateSchema(before, after) =>
        var s := SerializeSchema(before);
        var t := SerializeSchema(after);
        first, second := s.buffer, t.buffer;
        PutSchemaPrefix(before, [], second);
        Joined([], [], second);
      case DeleteSchema(schema) =>
        var s := SerializeSchema(schema);
        first := s.buffer;
      case CreateTable(table) =>
        var s := SerializeTable(table);
        first := s.buffer;
      case UpdateTable(before, after) =>
        var s := SerializeTable(before);
        var t := SerializeTable(after);
        first, second := s.buffer, t.buffer;
        PutTablePrefix(before, [], second);
        Joined([], [], second);
      case DeleteTable(table) =>
        var s := SerializeTable(table);
        first := s.buffer;
      case CreateIndex(index) =>
        var s := SerializeIndex(index);
        first := s.buffer;
      case DropIndex(index) =>
        var s := SerializeIndex(index);
        first := s.buffer;
    }
    Joined(first, [], []);
  }

  method SerializeRecord(r: WalRecord) returns (stream: MemoryStream)
    ensures fresh(stream) && stream.buffer == PutRecord(r, [])
  {
    hide Put, PutChange;
    stream := new MemoryStream();
    ghost var body := PutBody(r.body, []);
    stream.WriteNumber(TagOf(r.body), 8, Put(r.lsn, 8, Put(r.prev, 8, Put(r.txn, 16, body))));
    stream.WriteNumber(r.lsn, 8, Put(r.prev, 8, Put(r.txn, 16, body)));
    stream.WriteNumber(r.prev, 8, Put(r.txn, 16, body));
    stream.WriteNumber(r.txn, 16, body);
    if r.body.Do? || r.body.Clr? {
      var c := r.body.change;
      ghost var tail := if r.body.Do? then PutChange(c, []) else Put(r.body.undoNext, 8, PutChange(c, []));
      if c.IsData() {
        stream.WriteNumber(c.tableId, 16, Put(c.page, 16, tail));
        stream.WriteNumber(c.page, 16, tail);
      }
      if r.body.Clr? {
        stream.WriteNumber(r.body.undoNext, 8, PutChange(c, []));
      }
      AppendChange(c, stream);
      assert stream.buffer + [] == stream.buffer;
    }
    Closed(stream.buffer, PutRecord(r, []));
  }

  // ---- Reading ----

  method DeserializeToken(stream: ReadOnlyMemoryStream) returns (ok: bool, t: DataToken)
    requires stream.Valid()
    modifies stream
    ensures stream.Valid() && ok == GetToken(old(stream.Rest())).Got?
    ensures ok ==> GetToken(old(stream.Rest())) == Got(t, stream.Rest())
  {
    hide Get, GetStr;
    var kind;
    t := DataToken(0, []);
    ok, kind := stream.ReadNumber(8);
    if ok {
      t := DataToken(kind, []);
      if kind != NULL_TYPE {
        var bytes;
        ok, bytes := stream.ReadStr();
        t := DataToken(kind, bytes);
      }
    }
  }

  method DeserializeRow(stream: ReadOnlyMemoryStream) returns (ok: bool, r: Row)
    requires stream.Valid()
    modifies stream
    ensures stream.Valid() && ok == GetRow(old(stream.Rest())).Got?
    ensures ok ==> GetRow(old(stream.Rest())) == Got(r, stream.Rest())
  {
    hide Get, GetToken;
    var id, flags, count;
    r := Row(0, 0, []);
    ok, id := stream.ReadNumber(8);
    if !ok { return; }
    ok, flags := stream.ReadNumber(4);
    if !ok { return; }
    ok, count := stream.ReadNumber(8);
    if !ok { return; }
    var tokens := [];
    ghost var start := stream.Rest();
    PrependNothing(GetTokens(count, start));
    while |tokens| < count
      invariant stream.Valid() && |tokens| <= count
      invariant GetTokens(count, start) == Prepended(tokens, GetTokens(count - |tokens|, stream.Rest()))
    {
      var t;
      ghost var more := GetTokens(count - |tokens|, stream.Rest());
      ok, t := DeserializeToken(stream);
      if !ok { return; }
      ghost var more' := GetTokens(count - |tokens| - 1, stream.Rest());
      assert more'.Got? ==> tokens + ([t] + more'.value) == tokens + [t] + more'.value;
      tokens := tokens + [t];
    }
    assert tokens + [] == tokens;
    r := Row(id, flags, tokens);
  }

  lemma PrependNothing<T>(r: Read<seq<T>>)
    ensures Prepended([], r) == r
  {
    if r.Got? {
      assert [] + r.value == r.value;
    }
  }

  ghost function Prepended<T>(done: seq<T>, r: Read<seq<T>>): Read<seq<T>> {
    if r.Short? then Short else Got(done + r.value, r.rest)
  }

  method DeserializeSchema(stream: ReadOnlyMemoryStream) returns (ok: bool, m: MetaSchema)
    requires stream.Valid()
    modifies stream
    ensures stream.Valid() && ok == GetSchema(old(stream.Rest())).Got?
    ensures ok ==> GetSchema(old(stream.Rest())) == Got(m, stream.Rest())
  {
    hide GetStr;
    var name, dbName;
    var id := stream.ReadUnchecked(16);
    m := MetaSchema(id, [], []);
    ok, name := stream.ReadStr();
    if !ok { return; }
    ok, dbName := stream.ReadStr();
    m := MetaSchema(id, name, dbName);
  }

  method DeserializeColumn(stream: ReadOnlyMemoryStream) returns (ok: bool, m: MetaColumn)
    requires stream.Valid()
    modifies stream
    ensures stream.Valid() && ok == GetColumn(old(stream.Rest())).Got?
    ensures ok ==> GetColumn(old(stream.Rest())) == Got(m, stream.Rest())
  {
    hide Get, GetStr;
    var id, tableId, name, kind, flags;
    m := MetaColumn(0, 0, [], 0, 0);
    ok, id := stream.ReadNumber(16);
    if !ok { return; }
    ok, tableId := stream.ReadNumber(16);
    if !ok { return; }
    ok, name := stream.ReadStr();
    if !ok { return; }
    ok, kind := stream.ReadNumber(8);
    if !ok { return; }
    ok, flags := stream.ReadNumber(4);
    m := MetaColumn(id, tableId, name, kind, flags);
  }

  method DeserializeIndex(stream: ReadOnlyMemoryStream) returns (ok: bool, m: MetaIndex)
    requires stream.Valid()
    modifies stream
    ensures stream.Valid() && ok == GetIndex(old(stream.Rest())).Got?
    ensures ok ==> GetIndex(old(stream.Rest())) == Got(m, stream.Rest())
  {
    hide Get, GetStr;
    var id, tableId, columnId, rootPageId, name, unique, keyType;
    m := MetaIndex(0, 0, 0, 0, [], 0, false);
    ok, id := stream.ReadNumber(16);
    if !ok { return; }
    ok, tableId := stream.ReadNumber(16);
    if !ok { return; }
    ok, columnId := stream.ReadNumber(16);
    if !ok { return; }
    ok, rootPageId := stream.ReadNumber(16);
    if !ok { return; }
    ok, name := stream.ReadStr();
    if !ok { return; }
    ok, unique := stream.ReadNumber(1);
    if !ok { return; }
    ok, keyType := stream.ReadNumber(8);
    m := MetaIndex(id, tableId, columnId, rootPageId, name, keyType, unique != 0);
  }

  method DeserializeTable(stream: ReadOnlyMemoryStream) returns (ok: bool, m: MetaTable)
    requires stream.Valid()
    modifies stream
    ensures stream.Valid() && ok == GetTable(old(stream.Rest())).Got?
    ensures ok ==> GetTable(old(stream.Rest())) == Got(m, stream.Rest())
  {
    hide Get, GetStr, GetUnchecked, GetColumns, GetIndexes;
    var name, count, columns, lastRid, indexes;
    m := MetaTable(0, 0, [], [], [], 0, 0, 0);
    var id := stream.ReadUnchecked(16);
    var schemaId := stream.ReadUnchecked(16);
    ok, name := stream.ReadStr();
    if !ok { return; }
    var totalRows := stream.ReadUnchecked(8);
    var liveRows := stream.ReadUnchecked(8);
    ok, count := stream.ReadNumber(8);
    if !ok { return; }
    ok, columns := DeserializeColumns(stream, count);
    if !ok { return; }
    ok, lastRid := stream.ReadNumber(8);
    if !ok { return; }
    ok, count := stream.ReadNumber(8);
    if !ok { return; }
    ok, indexes := DeserializeIndexes(stream, count);
    if !ok { return; }
    m := MetaTable(id, schemaId, name, columns, indexes, lastRid, totalRows, liveRows);
  }

  method DeserializeColumns(stream: ReadOnlyMemoryStream, count: nat) returns (ok: bool, columns: seq<MetaColumn>)
    requires stream.Valid()
    modifies stream
    ensures stream.Valid() && ok == GetColumns(count, old(stream.Rest())).Got?
    ensures ok ==> GetColumns(count, old(stream.Rest())) == Got(columns, stream.Rest())
  {
    hide GetColumn;
    ok, columns := true, [];
    ghost var start := stream.Rest();
    PrependNothing(GetColumns(count, start));
    while |columns| < count
      invariant ok && stream.Valid() && |columns| <= count
      invariant GetColumns(count, start) == Prepended(columns, GetColumns(count - |columns|, stream.Rest()))
    {
      var column;
      ok, column := DeserializeColumn(stream);
      if !ok { return; }
      ghost var more := GetColumns(count - |columns| - 1, stream.Rest());
      assert more.Got? ==> columns + ([column] + more.value) == columns + [column] + more.value;
      columns := columns + [column];
    }
    assert columns + [] == columns;
  }

  method DeserializeIndexes(stream: ReadOnlyMemoryStream, count: nat) returns (ok: bool, indexes: seq<MetaIndex>)
    requires stream.Valid()
    modifies stream
    ensures stream.Valid() && ok == GetIndexes(count, old(stream.Rest())).Got?
    ensures ok ==> GetIndexes(count, old(stream.Rest())) == Got(indexes, stream.Rest())
  {
    hide GetIndex;
    ok, indexes := true, [];
    ghost var start := stream.Rest();
    PrependNothing(GetIndexes(count, start));
    while |indexes| < count
      invariant ok && stream.Valid() && |indexes| <= count
      invariant GetIndexes(count, start) == Prepended(indexes, GetIndexes(count - |indexes|, stream.Rest()))
    {
      var index;
      ok, index := DeserializeIndex(stream);
      if !ok { return; }
      ghost var more := GetIndexes(count - |indexes| - 1, stream.Rest());
      assert more.Got? ==> indexes + ([index] + more.value) == indexes + [index] + more.value;
      indexes := indexes + [index];
    }
    assert indexes + [] == indexes;
  }

  method DeserializeChange(tag: nat, tableId: Uuid, page: PageId, stream: ReadOnlyMemoryStream)
    returns (ok: bool, c: Change)
    requires stream.Valid() && IsChangeTag(tag)
    modifies stream
    ensures stream.Valid() && ok == GetChange(tag, tableId, page, old(stream.Rest())).Got?
    ensures ok ==> GetChange(tag, tableId, page, old(stream.Rest())) == Got(c, stream.Rest())
  {
    hide GetRow, GetTable, GetSchema, GetIndex;
    if tag <= 3 {
      var row, after;
      ok, row := DeserializeRow(stream);
      c := if tag == 1 then InsertRow(tableId, page, row) else DeleteRow(tableId, page, row);
      if ok && tag == 2 {
        ok, after := DeserializeRow(stream);
        c := UpdateRow(tableId, page, row, after);
      }
    } else if tag <= 6 {
      var table, after;
      ok, table := DeserializeTable(stream);
      c := if tag == 4 then CreateTable(table) else DeleteTable(table);
      if ok && tag == 5 {
        ok, after := DeserializeTable(stream);
        c := UpdateTable(table, after);
      }
    } else if tag <= 9 {
      var schema, after;
      ok, schema := DeserializeSchema(stream);
      c := if tag == 7 then CreateSchema(schema) else DeleteSchema(schema);
      if ok && tag == 8 {
        ok, after := DeserializeSchema(stream);
        c := UpdateSchema(schema, after);
      }
    } else {
      var index;
      ok, index := DeserializeIndex(stream);
      c := if tag == 22 then CreateIndex(index) else DropIndex(index);
    }
  }

  method DeserializePlace(tag: nat, stream: ReadOnlyMemoryStream) returns (ok: bool, tableId: Uuid, page: PageId)
    requires stream.Valid()
    modifies stream
    ensures stream.Valid() && ok == GetPlace(tag, old(stream.Rest())).Got?
    ensures ok ==> GetPlace(tag, old(stream.Rest())) == Got((tableId, page), stream.Rest())
  {
    hide GetLoose;
    ok, tableId, page := true, 0, 0;
    if tag <= 3 {
      ok, tableId := stream.ReadLoose(16, NoBits);
      if !ok { return; }
      ok, page := stream.ReadLoose(16, NoBits);
    }
  }

  method DeserializeBody(tag: nat, stream: ReadOnlyMemoryStream, junk: nat -> Byte) returns (ok: bool, b: Body)
    requires stream.Valid()
    modifies stream
    ensures stream.Valid() && ok == GetBody(tag, old(stream.Rest()), junk).Got?
    ensures ok ==> GetBody(tag, old(stream.Rest()), junk) == Got(b, stream.Rest())
  {
    hide GetLoose, GetChange, GetPlace;
    var tableId, page, undoNext, change;
    ok, b := true, Begin;
    if tag == 10 {
    } else if tag == 11 {
      b := Commit;
    } else if tag == 12 {
      b := Rollback;
    } else if IsChangeTag(tag) {
      ok, tableId, page := DeserializePlace(tag, stream);
      if !ok { return; }
      ok, change := DeserializeChange(tag, tableId, page, stream);
      b := Do(change);
    } else if IsClrTag(tag) {
      ok, tableId, page := DeserializePlace(ChangeTagOf(tag), stream);
      if !ok { return; }
      ok, undoNext := stream.ReadLoose(8, junk);
      if !ok { return; }
      ok, change := DeserializeChange(ChangeTagOf(tag), tableId, page, stream);
      b := Clr(undoNext, change);
    } else {
      ok := false;
    }
  }

  method DeserializeRecord(stream: ReadOnlyMemoryStream, junk: nat -> Byte) returns (ok: bool, r: WalRecord)
    requires stream.Valid()
    modifies stream
    ensures stream.Valid() && ok == GetRecord(old(stream.Rest()), junk).Got?
    ensures ok ==> GetRecord(old(stream.Rest()), junk) == Got(r, stream.Rest())
  {
    hide GetLoose, GetBody;
    var tag, lsn, prev, txn, body;
    r := WalRecord(0, 0, 0, Begin);
    ok, tag := stream.ReadLoose(8, junk);
    if !ok { return; }
    if !(1 <= tag <= 25) {
      ok := false;
      return;
    }
    ok, lsn := stream.ReadLoose(8, junk);
    if !ok { return; }
    ok, prev := stream.ReadLoose(8, junk);
    if !ok { return; }
    ok, txn := stream.ReadLoose(16, NoBits);
    if !ok { return; }
    ok, body := DeserializeBody(tag, stream, junk);
    r := WalRecord(lsn, prev, txn, body);
  }
}
