/**
 The byte format of rows, metadata and WAL records: little-endian numbers of fixed width, and
 strings and token bytes behind an eight-byte length. PutX(x, rest) is the encoding of x followed
 by rest; GetX reads an x off the front and returns what is left.

 A stream read that runs out of input delivers the bytes there are. Header fields are accepted
 even then: only a read of no byte at all fails, and the missing bytes are whatever the
 uninitialised variable held, which is the parameter junk.
 */
module Codec {
  import opened Types

  const NULL_TYPE: nat := 1

  type Bytes = seq<Byte>

  datatype Read<+T> = Short | Got(value: T, rest: Bytes)
  {
    predicate IsFailure() {
      Short?
    }
    function PropagateFailure<U>(): Read<U>
      requires Short?
    {
      Short
    }
    function Extract(): (T, Bytes)
      requires Got?
    {
      (value, rest)
    }
  }

  // ---- Numbers ----

  function LittleEndian(v: nat, width: nat): (b: Bytes)
    ensures |b| == width
  {
    if width == 0 then [] else [v % 256] + LittleEndian(v / 256, width - 1)
  }

  function Value(b: Bytes): nat {
    if b == [] then 0 else b[0] + 256 * Value(b[1..])
  }

  function Pow256(width: nat): (p: nat)
    ensures p > 0
  {
    if width == 0 then 1 else 256 * Pow256(width - 1)
  }

  lemma {:induction false} ValueOf(v: nat, width: nat)
    requires v < Pow256(width)
    ensures Value(LittleEndian(v, width)) == v
  {
    if width > 0 {
      ValueOf(v / 256, width - 1);
      assert LittleEndian(v, width)[1..] == LittleEndian(v / 256, width - 1);
    }
  }

  function Put(v: nat, width: nat, rest: Bytes): Bytes {
    LittleEndian(v, width) + rest
  }

  // A read whose result is compared with the wanted size.
  function Get(width: nat, s: Bytes): (r: Read<nat>)
    ensures r.Got? ==> |r.rest| + width == |s|
  {
    if |s| < width then Short else Got(Value(s[..width]), s[width..])
  }

  // A read that is only checked for having delivered something.
  function GetLoose(width: nat, s: Bytes, junk: nat -> Byte): (r: Read<nat>)
    ensures r.Got? ==> |r.rest| <= |s| && (width > 0 ==> |r.rest| < |s|)
  {
    if |s| == 0 then Short
    else if |s| < width then Got(Value(s + seq(width - |s|, i requires i >= 0 => junk(i))), [])
    else Get(width, s)
  }

  // A read that is not checked at all, into zero-initialised memory.
  function GetUnchecked(width: nat, s: Bytes): (r: (nat, Bytes))
    ensures |r.1| <= |s|
  {
    if |s| < width then (Value(s), []) else (Value(s[..width]), s[width..])
  }

  lemma GetPut(v: nat, width: nat, rest: Bytes)
    requires v < Pow256(width)
    ensures Get(width, Put(v, width, rest)) == Got(v, rest)
    ensures GetUnchecked(width, Put(v, width, rest)) == (v, rest)
    ensures width > 0 ==> forall junk :: GetLoose(width, Put(v, width, rest), junk) == Got(v, rest)
  {
    ValueOf(v, width);
    assert Put(v, width, rest)[..width] == LittleEndian(v, width);
    assert Put(v, width, rest)[width..] == rest;
  }

  lemma PutPrefix(v: nat, width: nat, a: Bytes, b: Bytes)
    ensures Put(v, width, a) + b == Put(v, width, a + b)
  {
    assert (LittleEndian(v, width) + a) + b == LittleEndian(v, width) + (a + b);
  }

  // ---- Strings ----

  ghost predicate FitsStr(str: Bytes) {
    |str| < Pow256(8)
  }

  function PutStr(str: Bytes, rest: Bytes): Bytes {
    Put(|str|, 8, str + rest)
  }

  function GetStr(s: Bytes): (r: Read<Bytes>)
    ensures r.Got? ==> |r.rest| <= |s|
  {
    var (size, s) :- Get(8, s);
    if |s| < size then Short else Got(s[..size], s[size..])
  }

  lemma GetPutStr(str: Bytes, rest: Bytes)
    requires FitsStr(str)
    ensures GetStr(PutStr(str, rest)) == Got(str, rest)
  {
    GetPut(|str|, 8, str + rest);
    assert (str + rest)[..|str|] == str && (str + rest)[|str|..] == rest;
  }

  lemma PutStrPrefix(str: Bytes, a: Bytes, b: Bytes)
    ensures PutStr(str, a) + b == PutStr(str, a + b)
  {
    PutPrefix(|str|, 8, str + a, b);
    assert (str + a) + b == str + (a + b);
  }

  // ---- Tokens and rows ----

  ghost predicate FitsToken(t: DataToken) {
    t.kind < Pow256(8) && FitsStr(t.bytes)
  }

  function PutToken(t: DataToken, rest: Bytes): Bytes {
    Put(t.kind, 8, if t.kind == NULL_TYPE then rest else PutStr(t.bytes, rest))
  }

  function GetToken(s: Bytes): (r: Read<DataToken>)
    ensures r.Got? ==> |r.rest| <= |s|
  {
    var (kind, s) :- Get(8, s);
    if kind == NULL_TYPE then Got(DataToken(kind, []), s)
    else
      var (bytes, s) :- GetStr(s);
      Got(DataToken(kind, bytes), s)
  }

  // The bytes of a NULL token are not written.
  function Canonical(t: DataToken): DataToken {
    if t.kind == NULL_TYPE then DataToken(t.kind, []) else t
  }

  lemma GetPutToken(t: DataToken, rest: Bytes)
    requires FitsToken(t)
    ensures GetToken(PutToken(t, rest)) == Got(Canonical(t), rest)
  {
    if t.kind == NULL_TYPE {
      GetPut(t.kind, 8, rest);
    } else {
      GetPut(t.kind, 8, PutStr(t.bytes, rest));
      GetPutStr(t.bytes, rest);
    }
  }

  lemma PutTokenPrefix(t: DataToken, a: Bytes, b: Bytes)
    ensures PutToken(t, a) + b == PutToken(t, a + b)
  {
    if t.kind == NULL_TYPE {
      PutPrefix(t.kind, 8, a, b);
    } else {
      PutPrefix(t.kind, 8, PutStr(t.bytes, a), b);
      PutStrPrefix(t.bytes, a, b);
    }
  }

  function PutTokens(ts: seq<DataToken>, rest: Bytes): Bytes {
    if ts == [] then rest else PutToken(ts[0], PutTokens(ts[1..], rest))
  }

  function GetTokens(n: nat, s: Bytes): (r: Read<seq<DataToken>>)
    ensures r.Got? ==> |r.rest| <= |s|
  {
    if n == 0 then Got([], s)
    else
      var (t, s) :- GetToken(s);
      var (ts, s) :- GetTokens(n - 1, s);
      Got([t] + ts, s)
  }

  function CanonicalTokens(ts: seq<DataToken>): seq<DataToken> {
    seq(|ts|, i requires 0 <= i < |ts| => Canonical(ts[i]))
  }

  ghost predicate FitsTokens(ts: seq<DataToken>) {
    |ts| < Pow256(8) && forall i :: 0 <= i < |ts| ==> FitsToken(ts[i])
  }

  lemma {:induction false} GetPutTokens(ts: seq<DataToken>, rest: Bytes)
    requires FitsTokens(ts)
    ensures GetTokens(|ts|, PutTokens(ts, rest)) == Got(CanonicalTokens(ts), rest)
  {
    hide Pow256, GetToken, PutToken, Canonical, FitsToken;
    if ts == [] {
      assert CanonicalTokens(ts) == [];
    } else {
      GetPutTokens(ts[1..], rest);
      GetPutToken(ts[0], PutTokens(ts[1..], rest));
      assert CanonicalTokens(ts) == [Canonical(ts[0])] + CanonicalTokens(ts[1..]);
    }
  }

  lemma {:induction false} PutTokensPrefix(ts: seq<DataToken>, a: Bytes, b: Bytes)
    ensures PutTokens(ts, a) + b == PutTokens(ts, a + b)
  {
    if ts != [] {
      PutTokenPrefix(ts[0], PutTokens(ts[1..], a), b);
      PutTokensPrefix(ts[1..], a, b);
    }
  }

  ghost predicate FitsRow(r: Row) {
    r.id < Pow256(8) && r.flags < Pow256(4) && FitsTokens(r.tokens)
  }

  function CanonicalRow(r: Row): Row {
    r.(tokens := CanonicalTokens(r.tokens))
  }

  function PutRow(r: Row, rest: Bytes): Bytes {
    Put(r.id, 8, Put(r.flags, 4, Put(|r.tokens|, 8, PutTokens(r.tokens, rest))))
  }

  function GetRow(s: Bytes): (r: Read<Row>)
    ensures r.Got? ==> |r.rest| <= |s|
  {
    var (id, s) :- Get(8, s);
    var (flags, s) :- Get(4, s);
    var (count, s) :- Get(8, s);
    var (tokens, s) :- GetTokens(count, s);
    Got(Row(id, flags, tokens), s)
  }

  lemma GetPutRow(r: Row, rest: Bytes)
    requires FitsRow(r)
    ensures GetRow(PutRow(r, rest)) == Got(CanonicalRow(r), rest)
  {
    hide Pow256, Put, Get, PutTokens, GetTokens;
    GetPut(r.id, 8, Put(r.flags, 4, Put(|r.tokens|, 8, PutTokens(r.tokens, rest))));
    GetPut(r.flags, 4, Put(|r.tokens|, 8, PutTokens(r.tokens, rest)));
    GetPut(|r.tokens|, 8, PutTokens(r.tokens, rest));
    GetPutTokens(r.tokens, rest);
  }

  lemma PutRowPrefix(r: Row, a: Bytes, b: Bytes)
    ensures PutRow(r, a) + b == PutRow(r, a + b)
  {
    hide Put, PutTokens;
    PutPrefix(r.id, 8, Put(r.flags, 4, Put(|r.tokens|, 8, PutTokens(r.tokens, a))), b);
    PutPrefix(r.flags, 4, Put(|r.tokens|, 8, PutTokens(r.tokens, a)), b);
    PutPrefix(|r.tokens|, 8, PutTokens(r.tokens, a), b);
    PutTokensPrefix(r.tokens, a, b);
  }

  // ---- Metadata ----

  ghost predicate FitsSchema(m: MetaSchema) {
    m.id < Pow256(16) && FitsStr(m.name) && FitsStr(m.dbName)
  }

  function PutSchema(m: MetaSchema, rest: Bytes): Bytes {
    Put(m.id, 16, PutStr(m.name, PutStr(m.dbName, rest)))
  }

  function GetSchema(s: Bytes): (r: Read<MetaSchema>)
    ensures r.Got? ==> |r.rest| <= |s|
  {
    var (id, s) := GetUnchecked(16, s);
    var (name, s) :- GetStr(s);
    var (dbName, s) :- GetStr(s);
    Got(MetaSchema(id, name, dbName), s)
  }

  lemma GetPutSchema(m: MetaSchema, rest: Bytes)
    requires FitsSchema(m)
    ensures GetSchema(PutSchema(m, rest)) == Got(m, rest)
  {
    hide Pow256, Put, Get, GetUnchecked, PutStr, GetStr;
    GetPut(m.id, 16, PutStr(m.name, PutStr(m.dbName, rest)));
    GetPutStr(m.name, PutStr(m.dbName, rest));
    GetPutStr(m.dbName, rest);
  }

  lemma PutSchemaPrefix(m: MetaSchema, a: Bytes, b: Bytes)
    ensures PutSchema(m, a) + b == PutSchema(m, a + b)
  {
    hide Put, PutStr;
    PutPrefix(m.id, 16, PutStr(m.name, PutStr(m.dbName, a)), b);
    PutStrPrefix(m.name, PutStr(m.dbName, a), b);
    PutStrPrefix(m.dbName, a, b);
  }

  ghost predicate FitsColumn(m: MetaColumn) {
    && m.id < Pow256(16) && m.tableId < Pow256(16) && FitsStr(m.name)
    && m.kind < Pow256(8) && m.flags < Pow256(4)
  }

  function PutColumn(m: MetaColumn, rest: Bytes): Bytes {
    Put(m.id, 16, Put(m.tableId, 16, PutStr(m.name, Put(m.kind, 8, Put(m.flags, 4, rest)))))
  }

  function GetColumn(s: Bytes): (r: Read<MetaColumn>)
    ensures r.Got? ==> |r.rest| <= |s|
  {
    var (id, s) :- Get(16, s);
    var (tableId, s) :- Get(16, s);
    var (name, s) :- GetStr(s);
    var (kind, s) :- Get(8, s);
    var (flags, s) :- Get(4, s);
    Got(MetaColumn(id, tableId, name, kind, flags), s)
  }

  lemma GetPutColumn(m: MetaColumn, rest: Bytes)
    requires FitsColumn(m)
    ensures GetColumn(PutColumn(m, rest)) == Got(m, rest)
  {
    hide Pow256, Put, Get, PutStr, GetStr;
    var tail := Put(m.kind, 8, Put(m.flags, 4, rest));
    GetPut(m.id, 16, Put(m.tableId, 16, PutStr(m.name, tail)));
    GetPut(m.tableId, 16, PutStr(m.name, tail));
    GetPutStr(m.name, tail);
    GetPut(m.kind, 8, Put(m.flags, 4, rest));
    GetPut(m.flags, 4, rest);
  }

  lemma PutColumnPrefix(m: MetaColumn, a: Bytes, b: Bytes)
    ensures PutColumn(m, a) + b == PutColumn(m, a + b)
  {
    hide Put, PutStr;
    var tail := Put(m.kind, 8, Put(m.flags, 4, a));
    PutPrefix(m.id, 16, Put(m.tableId, 16, PutStr(m.name, tail)), b);
    PutPrefix(m.tableId, 16, PutStr(m.name, tail), b);
    PutStrPrefix(m.name, tail, b);
    PutPrefix(m.kind, 8, Put(m.flags, 4, a), b);
    PutPrefix(m.flags, 4, a, b);
  }

  function PutColumns(ms: seq<MetaColumn>, rest: Bytes): Bytes {
    if ms == [] then rest else PutColumn(ms[0], PutColumns(ms[1..], rest))
  }

  function GetColumns(n: nat, s: Bytes): (r: Read<seq<MetaColumn>>)
    ensures r.Got? ==> |r.rest| <= |s|
  {
    if n == 0 then Got([], s)
    else
      var (m, s) :- GetColumn(s);
      var (ms, s) :- GetColumns(n - 1, s);
      Got([m] + ms, s)
  }

  lemma {:induction false} GetPutColumns(ms: seq<MetaColumn>, rest: Bytes)
    requires forall i :: 0 <= i < |ms| ==> FitsColumn(ms[i])
    ensures GetColumns(|ms|, PutColumns(ms, rest)) == Got(ms, rest)
  {
    hide FitsColumn, PutColumn, GetColumn;
    if ms != [] {
      assert ms == [ms[0]] + ms[1..];
      GetPutColumns(ms[1..], rest);
      GetPutColumn(ms[0], PutColumns(ms[1..], rest));
    }
  }

  lemma {:induction false} PutColumnsPrefix(ms: seq<MetaColumn>, a: Bytes, b: Bytes)
    ensures PutColumns(ms, a) + b == PutColumns(ms, a + b)
  {
    hide PutColumn;
    if ms != [] {
      PutColumnPrefix(ms[0], PutColumns(ms[1..], a), b);
      PutColumnsPrefix(ms[1..], a, b);
    }
  }

  ghost predicate FitsIndex(m: MetaIndex) {
    && m.id < Pow256(16) && m.tableId < Pow256(16) && m.columnId < Pow256(16) && m.rootPageId < Pow256(16)
    && FitsStr(m.name) && m.keyType < Pow256(8)
  }

  function PutIndex(m: MetaIndex, rest: Bytes): Bytes {
    Put(m.id, 16, Put(m.tableId, 16, Put(m.columnId, 16, Put(m.rootPageId, 16,
      PutStr(m.name, Put(if m.isUnique then 1 else 0, 1, Put(m.keyType, 8, rest)))))))
  }

  function GetIndex(s: Bytes): (r: Read<MetaIndex>)
    ensures r.Got? ==> |r.rest| <= |s|
  {
    var (id, s) :- Get(16, s);
    var (tableId, s) :- Get(16, s);
    var (columnId, s) :- Get(16, s);
    var (rootPageId, s) :- Get(16, s);
    var (name, s) :- GetStr(s);
    var (unique, s) :- Get(1, s);
    var (keyType, s) :- Get(8, s);
    Got(MetaIndex(id, tableId, columnId, rootPageId, name, keyType, unique != 0), s)
  }

  lemma GetPutIndex(m: MetaIndex, rest: Bytes)
    requires FitsIndex(m)
    ensures GetIndex(PutIndex(m, rest)) == Got(m, rest)
  {
    hide Put, Get, PutStr, GetStr;
    assert Pow256(1) == 256;
    hide Pow256;
    var flag := if m.isUnique then 1 else 0;
    var tail := Put(flag, 1, Put(m.keyType, 8, rest));
    GetPut(m.id, 16, Put(m.tableId, 16, Put(m.columnId, 16, Put(m.rootPageId, 16, PutStr(m.name, tail)))));
    GetPut(m.tableId, 16, Put(m.columnId, 16, Put(m.rootPageId, 16, PutStr(m.name, tail))));
    GetPut(m.columnId, 16, Put(m.rootPageId, 16, PutStr(m.name, tail)));
    GetPut(m.rootPageId, 16, PutStr(m.name, tail));
    GetPutStr(m.name, tail);
    GetPut(flag, 1, Put(m.keyType, 8, rest));
    GetPut(m.keyType, 8, rest);
  }

  lemma PutIndexPrefix(m: MetaIndex, a: Bytes, b: Bytes)
    ensures PutIndex(m, a) + b == PutIndex(m, a + b)
  {
    hide Put, PutStr;
    var flag := if m.isUnique then 1 else 0;
    var tail := Put(flag, 1, Put(m.keyType, 8, a));
    PutPrefix(m.id, 16, Put(m.tableId, 16, Put(m.columnId, 16, Put(m.rootPageId, 16, PutStr(m.name, tail)))), b);
    PutPrefix(m.tableId, 16, Put(m.columnId, 16, Put(m.rootPageId, 16, PutStr(m.name, tail))), b);
    PutPrefix(m.columnId, 16, Put(m.rootPageId, 16, PutStr(m.name, tail)), b);
    PutPrefix(m.rootPageId, 16, PutStr(m.name, tail), b);
    PutStrPrefix(m.name, tail, b);
    PutPrefix(flag, 1, Put(m.keyType, 8, a), b);
    PutPrefix(m.keyType, 8, a, b);
  }

  function PutIndexes(ms: seq<MetaIndex>, rest: Bytes): Bytes {
    if ms == [] then rest else PutIndex(ms[0], PutIndexes(ms[1..], rest))
  }

  function GetIndexes(n: nat, s: Bytes): (r: Read<seq<MetaIndex>>)
    ensures r.Got? ==> |r.rest| <= |s|
  {
    if n == 0 then Got([], s)
    else
      var (m, s) :- GetIndex(s);
      var (ms, s) :- GetIndexes(n - 1, s);
      Got([m] + ms, s)
  }

  lemma {:induction false} GetPutIndexes(ms: seq<MetaIndex>, rest: Bytes)
    requires forall i :: 0 <= i < |ms| ==> FitsIndex(ms[i])
    ensures GetIndexes(|ms|, PutIndexes(ms, rest)) == Got(ms, rest)
  {
    hide FitsIndex, PutIndex, GetIndex;
    if ms != [] {
      assert ms == [ms[0]] + ms[1..];
      GetPutIndexes(ms[1..], rest);
      GetPutIndex(ms[0], PutIndexes(ms[1..], rest));
    }
  }

  lemma {:induction false} PutIndexesPrefix(ms: seq<MetaIndex>, a: Bytes, b: Bytes)
    ensures PutIndexes(ms, a) + b == PutIndexes(ms, a + b)
  {
    hide PutIndex;
    if ms != [] {
      PutIndexPrefix(ms[0], PutIndexes(ms[1..], a), b);
      PutIndexesPrefix(ms[1..], a, b);
    }
  }

  ghost predicate FitsTable(m: MetaTable) {
    && m.id < Pow256(16) && m.schemaId < Pow256(16) && FitsStr(m.name)
    && m.totalRows < Pow256(8) && m.liveRows < Pow256(8) && m.lastRid < Pow256(8)
    && |m.columns| < Pow256(8) && (forall i :: 0 <= i < |m.columns| ==> FitsColumn(m.columns[i]))
    && |m.indexes| < Pow256(8) && (forall i :: 0 <= i < |m.indexes| ==> FitsIndex(m.indexes[i]))
  }

  function PutTable(m: MetaTable, rest: Bytes): Bytes {
    Put(m.id, 16, Put(m.schemaId, 16, PutStr(m.name, Put(m.totalRows, 8, Put(m.liveRows, 8, PutTableRest(m, rest))))))
  }

  function PutTableRest(m: MetaTable, rest: Bytes): Bytes {
    Put(|m.columns|, 8, PutColumns(m.columns, Put(m.lastRid, 8, Put(|m.indexes|, 8, PutIndexes(m.indexes, rest)))))
  }

  function GetTable(s: Bytes): (r: Read<MetaTable>)
    ensures r.Got? ==> |r.rest| <= |s|
  {
    var (id, s) := GetUnchecked(16, s);
    var (schemaId, s) := GetUnchecked(16, s);
    var (name, s) :- GetStr(s);
    var (totalRows, s) := GetUnchecked(8, s);
    var (liveRows, s) := GetUnchecked(8, s);
    var (columnCount, s) :- Get(8, s);
    var (columns, s) :- GetColumns(columnCount, s);
    var (lastRid, s) :- Get(8, s);
    var (indexCount, s) :- Get(8, s);
    var (indexes, s) :- GetIndexes(indexCount, s);
    Got(MetaTable(id, schemaId, name, columns, indexes, lastRid, totalRows, liveRows), s)
  }

  lemma GetPutTable(m: MetaTable, rest: Bytes)
    requires FitsTable(m)
    ensures GetTable(PutTable(m, rest)) == Got(m, rest)
  {
    hide Pow256, Put, Get, GetUnchecked, PutStr, GetStr, PutColumns, GetColumns, PutIndexes, GetIndexes, FitsColumn, FitsIndex;
    var tail := PutTableRest(m, rest);
    GetPut(m.id, 16, Put(m.schemaId, 16, PutStr(m.name, Put(m.totalRows, 8, Put(m.liveRows, 8, tail)))));
    GetPut(m.schemaId, 16, PutStr(m.name, Put(m.totalRows, 8, Put(m.liveRows, 8, tail))));
    GetPutStr(m.name, Put(m.totalRows, 8, Put(m.liveRows, 8, tail)));
    GetPut(m.totalRows, 8, Put(m.liveRows, 8, tail));
    GetPut(m.liveRows, 8, tail);
    var tail' := Put(m.lastRid, 8, Put(|m.indexes|, 8, PutIndexes(m.indexes, rest)));
    GetPut(|m.columns|, 8, PutColumns(m.columns, tail'));
    GetPutColumns(m.columns, tail');
    GetPut(m.lastRid, 8, Put(|m.indexes|, 8, PutIndexes(m.indexes, rest)));
    GetPut(|m.indexes|, 8, PutIndexes(m.indexes, rest));
    GetPutIndexes(m.indexes, rest);
  }

  lemma PutTablePrefix(m: MetaTable, a: Bytes, b: Bytes)
    ensures PutTable(m, a) + b == PutTable(m, a + b)
  {
    hide Put, PutStr, PutColumns, PutIndexes;
    var tail := PutTableRest(m, a);
    PutPrefix(m.id, 16, Put(m.schemaId, 16, PutStr(m.name, Put(m.totalRows, 8, Put(m.liveRows, 8, tail)))), b);
    PutPrefix(m.schemaId, 16, PutStr(m.name, Put(m.totalRows, 8, Put(m.liveRows, 8, tail))), b);
    PutStrPrefix(m.name, Put(m.totalRows, 8, Put(m.liveRows, 8, tail)), b);
    PutPrefix(m.totalRows, 8, Put(m.liveRows, 8, tail), b);
    PutPrefix(m.liveRows, 8, tail, b);
    var tail' := Put(m.lastRid, 8, Put(|m.indexes|, 8, PutIndexes(m.indexes, a)));
    PutPrefix(|m.columns|, 8, PutColumns(m.columns, tail'), b);
    PutColumnsPrefix(m.columns, tail', b);
    PutPrefix(m.lastRid, 8, Put(|m.indexes|, 8, PutIndexes(m.indexes, a)), b);
    PutPrefix(|m.indexes|, 8, PutIndexes(m.indexes, a), b);
    PutIndexesPrefix(m.indexes, a, b);
  }
}
