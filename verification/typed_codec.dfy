/**
 What the files keep of typed values: every value, every row and page of a table, every key of an index and
 every record a statement logs comes back as it was written.
 */
module TypedCodec {
  import opened Types
  import opened Values
  import opened TokenBytes
  import opened TablePages
  import C = Codec
  import W = WalCodec
  import S = StorageCodec
  import F = WalFiles

  // ---- Values ----

  // The value's bytes can be counted in eight bytes.
  ghost predicate Fits(v: Value, realBytes: real -> seq<Byte>) {
    |StoredBytes(v, realBytes)| < 0x1_0000_0000_0000_0000
  }

  lemma Widths()
    ensures C.Pow256(4) == 0x1_0000_0000 && C.Pow256(8) == 0x1_0000_0000_0000_0000
    ensures C.Pow256(16) == 0x1_0000_0000_0000_0000_0000_0000_0000_0000
  {
    assert C.Pow256(4) == 0x1_0000_0000;
    assert C.Pow256(8) == 0x1_0000_0000_0000_0000;
    assert C.Pow256(12) == 0x1_0000_0000_0000_0000_0000_0000;
  }

  lemma TokenKept(v: Value, realBytes: real -> seq<Byte>)
    requires Fits(v, realBytes)
    ensures var t := TokenOf(v, realBytes); C.FitsToken(t) && C.Canonical(t) == t
  {
    Widths();
    hide C.Pow256;
  }

  lemma ValueSurvives(v: Value, realBytes: real -> seq<Byte>, rest: C.Bytes)
    requires Fits(v, realBytes)
    ensures C.GetToken(C.PutToken(TokenOf(v, realBytes), rest)) == C.Got(TokenOf(v, realBytes), rest)
  {
    hide C.GetToken, C.PutToken, C.Canonical, C.FitsToken;
    TokenKept(v, realBytes);
    C.GetPutToken(TokenOf(v, realBytes), rest);
  }

  // A NULL is its type alone; any other value has its length and its bytes behind the type.
  lemma ValueLength(v: Value, realBytes: real -> seq<Byte>)
    ensures |C.PutToken(TokenOf(v, realBytes), [])| == if v.Null? then 8 else 16 + |StoredBytes(v, realBytes)|
    ensures |C.PutToken(TokenOf(v, realBytes), [])| == 8 <==> v == Null
  {
  }

  // What is written tells two values in width apart.
  lemma ValuesApart(v: Value, w: Value, realBytes: real -> seq<Byte>)
    requires Fits(v, realBytes) && Fits(w, realBytes) && InWidth(v) && InWidth(w) && Injective(realBytes)
    ensures C.PutToken(TokenOf(v, realBytes), []) == C.PutToken(TokenOf(w, realBytes), []) <==> v == w
  {
    hide C.GetToken, C.PutToken, TokenOf, Fits, InWidth, Injective;
    ValueSurvives(v, realBytes, []);
    ValueSurvives(w, realBytes, []);
    SameToken(v, w, realBytes);
  }

  lemma ValuesOn(realBytes: real -> seq<Byte>)
    ensures C.PutToken(TokenOf(Null, realBytes), []) == [1, 0, 0, 0, 0, 0, 0, 0]
    ensures C.PutToken(TokenOf(Integer(5), realBytes), [])
         == [2, 0, 0, 0, 0, 0, 0, 0] + [4, 0, 0, 0, 0, 0, 0, 0] + [5, 0, 0, 0]
    ensures C.PutToken(TokenOf(Char(-1), realBytes), [])
         == [4, 0, 0, 0, 0, 0, 0, 0] + [1, 0, 0, 0, 0, 0, 0, 0] + [255]
    ensures C.PutToken(TokenOf(String([97, 98]), realBytes), [])
         == [6, 0, 0, 0, 0, 0, 0, 0] + [2, 0, 0, 0, 0, 0, 0, 0] + [97, 98]
  {
    EightBytes();
    IntegerBytesOn(realBytes);
    hide C.LittleEndian;
  }

  lemma {:induction false} OneByte(v: Byte, width: nat)
    requires width > 0
    ensures C.LittleEndian(v, width) == [v] + seq(width - 1, i => 0)
  {
    if width > 1 {
      OneByte(0, width - 1);
    }
  }

  lemma EightBytes()
    ensures forall v: Byte :: C.LittleEndian(v, 8) == [v, 0, 0, 0, 0, 0, 0, 0]
    ensures C.LittleEndian(258, 8) == [2, 1, 0, 0, 0, 0, 0, 0]
  {
    hide C.LittleEndian;
    forall v: Byte ensures C.LittleEndian(v, 8) == [v, 0, 0, 0, 0, 0, 0, 0] {
      OneByte(v, 8);
    }
    TwoBytes();
  }

  lemma TwoBytes()
    ensures C.LittleEndian(258, 8) == [2, 1, 0, 0, 0, 0, 0, 0]
  {
    assert C.LittleEndian(258, 8) == [2] + C.LittleEndian(1, 7);
    hide C.LittleEndian;
    OneByte(1, 7);
  }

  // ---- Rows ----

  ghost predicate FitsValues(vs: seq<Value>, realBytes: real -> seq<Byte>) {
    |vs| < 0x1_0000_0000_0000_0000 && forall i | 0 <= i < |vs| :: Fits(vs[i], realBytes)
  }

  function TokensOf(vs: seq<Value>, realBytes: real -> seq<Byte>): (ts: seq<DataToken>)
    ensures |ts| == |vs|
  {
    seq(|vs|, i requires 0 <= i < |vs| => TokenOf(vs[i], realBytes))
  }

  lemma TokensKept(vs: seq<Value>, realBytes: real -> seq<Byte>)
    requires FitsValues(vs, realBytes)
    ensures var ts := TokensOf(vs, realBytes); C.FitsTokens(ts) && C.CanonicalTokens(ts) == ts
  {
    Widths();
    hide C.Pow256, C.FitsToken, C.Canonical, TokenOf, Fits;
    var ts := TokensOf(vs, realBytes);
    forall i | 0 <= i < |ts| ensures C.FitsToken(ts[i]) && C.Canonical(ts[i]) == ts[i] {
      TokenKept(vs[i], realBytes);
    }
  }

  ghost predicate FitsTableRow(x: TableRow, realBytes: real -> seq<Byte>) {
    x.id < 0x1_0000_0000_0000_0000 && FitsValues(x.tokens, realBytes)
  }

  lemma RowKept(x: TableRow, realBytes: real -> seq<Byte>)
    requires FitsTableRow(x, realBytes)
    ensures var r := RowOf(x, realBytes); C.FitsRow(r) && C.CanonicalRow(r) == r
  {
    Widths();
    hide C.Pow256, C.FitsTokens, C.CanonicalTokens, TokenOf, FitsValues;
    TokensKept(x.tokens, realBytes);
    assert RowOf(x, realBytes).tokens == TokensOf(x.tokens, realBytes);
  }

  lemma RowSurvives(x: TableRow, realBytes: real -> seq<Byte>, rest: C.Bytes)
    requires FitsTableRow(x, realBytes)
    ensures C.GetRow(C.PutRow(RowOf(x, realBytes), rest)) == C.Got(RowOf(x, realBytes), rest)
  {
    hide C.GetRow, C.PutRow, C.FitsRow, C.CanonicalRow, RowOf;
    RowKept(x, realBytes);
    C.GetPutRow(RowOf(x, realBytes), rest);
  }

  // A live row with the id 258, a NULL and the integer 5.
  lemma RowOn(realBytes: real -> seq<Byte>)
    ensures C.PutRow(RowOf(TableRow(258, false, [Null, Integer(5)]), realBytes), []) ==
            [2, 1, 0, 0, 0, 0, 0, 0] + [0, 0, 0, 0] + [2, 0, 0, 0, 0, 0, 0, 0]
            + [1, 0, 0, 0, 0, 0, 0, 0]
            + [2, 0, 0, 0, 0, 0, 0, 0] + [4, 0, 0, 0, 0, 0, 0, 0] + [5, 0, 0, 0]
    ensures RowOf(TableRow(258, true, []), realBytes).flags == 1
  {
    hide C.LittleEndian, C.PutToken, C.PutTokens, TokenOf;
    var none, five := TokenOf(Null, realBytes), TokenOf(Integer(5), realBytes);
    assert RowOf(TableRow(258, false, [Null, Integer(5)]), realBytes).tokens == [none, five];
    EightBytes();
    OneByte(0, 4);
    assert C.LittleEndian(0, 4) == [0, 0, 0, 0];
    ValuesOn(realBytes);
    TwoTokens(none, five);
  }

  lemma TwoTokens(a: DataToken, b: DataToken)
    ensures C.PutTokens([a, b], []) == C.PutToken(a, []) + C.PutToken(b, [])
  {
    hide C.PutToken;
    assert [a, b][1..] == [b] && [b][1..] == [];
    assert C.PutTokens([b], []) == C.PutToken(b, []);
    C.PutTokenPrefix(a, [], C.PutToken(b, []));
    assert [] + C.PutToken(b, []) == C.PutToken(b, []);
  }

  // ---- Data pages and index keys ----

  ghost predicate FitsTableRows(rows: seq<TableRow>, realBytes: real -> seq<Byte>) {
    |rows| < 0x1_0000_0000_0000_0000 && forall i | 0 <= i < |rows| :: FitsTableRow(rows[i], realBytes)
  }

  lemma RowsKept(rows: seq<TableRow>, realBytes: real -> seq<Byte>)
    requires FitsTableRows(rows, realBytes)
    ensures var rs := RowsOf(rows, realBytes); S.FitsRows(rs) && S.CanonicalRows(rs) == rs
  {
    Widths();
    hide C.Pow256, C.FitsRow, C.CanonicalRow, RowOf, FitsTableRow;
    var rs := RowsOf(rows, realBytes);
    forall i | 0 <= i < |rs| ensures C.FitsRow(rs[i]) && C.CanonicalRow(rs[i]) == rs[i] {
      RowKept(rows[i], realBytes);
    }
  }

  // A data page of a table comes back as it was written.
  lemma PageSurvives(p: S.StoredPage, rows: seq<TableRow>, realBytes: real -> seq<Byte>, rest: C.Bytes)
    requires p.rows == RowsOf(rows, realBytes) && FitsTableRows(rows, realBytes)
    requires p.id < 0x1_0000_0000_0000_0000_0000_0000_0000_0000 && p.next < 0x1_0000_0000_0000_0000_0000_0000_0000_0000
    requires p.tableId < 0x1_0000_0000_0000_0000_0000_0000_0000_0000
    requires p.minRid < 0x1_0000_0000_0000_0000 && p.maxRid < 0x1_0000_0000_0000_0000 && p.lastLsn < 0x1_0000_0000_0000_0000
    ensures S.GetPage(S.PutPage(p, rest)) == C.Got(p, rest)
  {
    Widths();
    hide C.Pow256, S.FitsRows, S.CanonicalRows, RowsOf, FitsTableRows, S.PutPage, S.GetPage;
    RowsKept(rows, realBytes);
    S.GetPutPage(p, rest);
  }

  // The keys of an index page do too, so a page of an index file comes back whole.
  lemma IndexPageSurvives(p: S.StoredIndexPage, keys: seq<Value>, realBytes: real -> seq<Byte>, rest: C.Bytes)
    requires S.FitsIndexPage(p) && p.node.keys == TokensOf(keys, realBytes) && FitsValues(keys, realBytes)
    ensures S.GetIndexPage(S.PutIndexPage(p, rest)) == C.Got(p, rest)
  {
    hide S.FitsIndexPage, S.GetIndexPage, S.PutIndexPage, C.CanonicalTokens, C.FitsTokens, TokensOf, FitsValues;
    TokensKept(keys, realBytes);
    S.GetPutIndexPage(p, rest);
  }

  // ---- Records ----

  ghost predicate IsRow(r: Row, realBytes: real -> seq<Byte>) {
    exists x :: r == RowOf(x, realBytes) && FitsTableRow(x, realBytes)
  }

  // A change of rows of a table.
  ghost predicate ChangesRows(c: Change, realBytes: real -> seq<Byte>) {
    match c
    case InsertRow(_, _, after) => IsRow(after, realBytes)
    case UpdateRow(_, _, before, after) => IsRow(before, realBytes) && IsRow(after, realBytes)
    case DeleteRow(_, _, before) => IsRow(before, realBytes)
    case _ => false
  }

  ghost predicate FitsPlace(c: Change)
    requires c.IsData()
  {
    && c.tableId < 0x1_0000_0000_0000_0000_0000_0000_0000_0000
    && c.page < 0x1_0000_0000_0000_0000_0000_0000_0000_0000
  }

  ghost predicate FitsHeader(r: WalRecord) {
    && r.lsn < 0x1_0000_0000_0000_0000 && r.prev < 0x1_0000_0000_0000_0000
    && r.txn < 0x1_0000_0000_0000_0000_0000_0000_0000_0000
  }

  // The records there are: of rows of tables, of metadata, and the three markers.
  ghost predicate Typed(r: WalRecord, realBytes: real -> seq<Byte>) {
    FitsHeader(r) && match r.body
      case Do(c) => if c.IsData() then ChangesRows(c, realBytes) && FitsPlace(c) else W.FitsChange(c)
      case Clr(undoNext, c) =>
        undoNext < 0x1_0000_0000_0000_0000 && if c.IsData() then ChangesRows(c, realBytes) && FitsPlace(c) else W.FitsChange(c)
      case _ => true
  }

  lemma IsRowKept(r: Row, realBytes: real -> seq<Byte>)
    requires IsRow(r, realBytes)
    ensures C.FitsRow(r) && C.CanonicalRow(r) == r
  {
    hide C.FitsRow, C.CanonicalRow, RowOf, FitsTableRow;
    var x :| r == RowOf(x, realBytes) && FitsTableRow(x, realBytes);
    RowKept(x, realBytes);
  }

  lemma ChangeKept(c: Change, realBytes: real -> seq<Byte>)
    requires ChangesRows(c, realBytes) && FitsPlace(c)
    ensures W.FitsChange(c) && W.CanonicalChange(c) == c
  {
    Widths();
    hide C.Pow256, C.FitsRow, C.CanonicalRow, IsRow;
    match c
    case InsertRow(_, _, after) => IsRowKept(after, realBytes);
    case UpdateRow(_, _, before, after) => IsRowKept(before, realBytes); IsRowKept(after, realBytes);
    case DeleteRow(_, _, before) => IsRowKept(before, realBytes);
  }

  lemma RecordKept(r: WalRecord, realBytes: real -> seq<Byte>)
    requires Typed(r, realBytes)
    ensures W.FitsRecord(r) && W.CanonicalRecord(r) == r
  {
    Widths();
    hide C.Pow256, W.FitsChange, W.CanonicalChange, ChangesRows, FitsPlace;
    if r.body.Do? || r.body.Clr? {
      var c := r.body.change;
      if c.IsData() {
        ChangeKept(c, realBytes);
      } else {
        MetadataKept(c);
      }
    }
  }

  lemma MetadataKept(c: Change)
    requires !c.IsData()
    ensures W.CanonicalChange(c) == c
  {
  }

  // What a statement logs, and the compensation of it, comes back as it was written.
  lemma RecordSurvives(r: WalRecord, realBytes: real -> seq<Byte>, rest: C.Bytes, junk: nat -> Byte)
    requires Typed(r, realBytes)
    ensures W.GetRecord(W.PutRecord(r, rest), junk) == C.Got(r, rest)
  {
    hide W.FitsRecord, W.CanonicalRecord, W.GetRecord, W.PutRecord, Typed;
    RecordKept(r, realBytes);
    W.GetPutRecord(r, rest, junk);
  }

  // So a log of such records survives being flushed and reopened.
  lemma LogSurvives(log: seq<WalRecord>, realBytes: real -> seq<Byte>)
    requires forall i | 0 <= i < |log| :: Typed(log[i], realBytes) && |W.PutRecord(log[i], [])| < 0x1_0000_0000_0000_0000
    ensures F.Storable(log)
  {
    Widths();
    hide C.Pow256, W.FitsRecord, W.CanonicalRecord, W.PutRecord, Typed;
    forall i | 0 <= i < |log| ensures W.FitsRecord(log[i]) && W.CanonicalRecord(log[i]) == log[i] {
      RecordKept(log[i], realBytes);
    }
  }

  // A transaction's BEGIN with the LSN 258.
  lemma BeginOn()
    ensures W.PutRecord(WalRecord(258, 0, 6, Begin), []) ==
            [10, 0, 0, 0, 0, 0, 0, 0] + [2, 1, 0, 0, 0, 0, 0, 0] + [0, 0, 0, 0, 0, 0, 0, 0]
            + ([6, 0, 0, 0, 0, 0, 0, 0] + [0, 0, 0, 0, 0, 0, 0, 0])
  {
    EightBytes();
    OneByte(6, 16);
    hide C.LittleEndian;
  }

}
