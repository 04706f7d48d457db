/**
 Values and rows of values as the files have them: the bytes a token keeps its value in, and what comparing
 only those decides.
 */
module TokenBytes {
  import opened Types
  import opened Values
  import opened TablePages
  import Codec

  // An int has four bytes, a double is encoded in some way of its own; the type is not among the bytes.
  function StoredBytes(v: Value, realBytes: real -> seq<Byte>): seq<Byte> {
    match v
    case Undefined(raw) => raw
    case Null => []
    case Integer(i) => Codec.LittleEndian(i % 0x1_0000_0000, 4)
    case Real(r) => realBytes(r)
    case Char(c) => [c % 256]
    case Bool(b) => [if b then 1 else 0]
    case String(s) => s
  }

  function TokenOf(v: Value, realBytes: real -> seq<Byte>): DataToken {
    DataToken(TypeCode(v), StoredBytes(v, realBytes))
  }

  function RowOf(r: TableRow, realBytes: real -> seq<Byte>): Row {
    Row(r.id, if r.obsolete then 1 else 0,
        seq(|r.tokens|, i requires 0 <= i < |r.tokens| => TokenOf(r.tokens[i], realBytes)))
  }

  function RowsOf(rows: seq<TableRow>, realBytes: real -> seq<Byte>): (r: seq<Row>)
    ensures |r| == |rows|
  {
    seq(|rows|, i requires 0 <= i < |rows| => RowOf(rows[i], realBytes))
  }

  // The values a C++ int and a signed char can hold.
  predicate InWidth(v: Value) {
    match v
    case Integer(i) => -0x8000_0000 <= i < 0x8000_0000
    case Char(c) => -128 <= c < 128
    case _ => true
  }

  ghost predicate Injective(realBytes: real -> seq<Byte>) {
    forall r, q :: realBytes(r) == realBytes(q) ==> r == q
  }

  // Within one type the bytes tell two values apart.
  lemma SameBytes(v: Value, w: Value, realBytes: real -> seq<Byte>)
    requires TypeCode(v) == TypeCode(w) && InWidth(v) && InWidth(w) && Injective(realBytes)
    ensures StoredBytes(v, realBytes) == StoredBytes(w, realBytes) <==> v == w
  {
    hide Codec.LittleEndian;
    if v.Integer? {
      SameInts(v.i, w.i);
    } else if v.Char? {
      SameChars(v.c, w.c);
    }
  }

  lemma SameInts(i: int, j: int)
    requires -0x8000_0000 <= i < 0x8000_0000 && -0x8000_0000 <= j < 0x8000_0000
    ensures Codec.LittleEndian(i % 0x1_0000_0000, 4) == Codec.LittleEndian(j % 0x1_0000_0000, 4) <==> i == j
  {
    FourBytes();
    hide Codec.LittleEndian, Codec.Value, Codec.Pow256;
    Codec.ValueOf(i % 0x1_0000_0000, 4);
    Codec.ValueOf(j % 0x1_0000_0000, 4);
  }

  // An int is kept in two's complement, lowest byte first.
  lemma IntegerBytes(i: int, realBytes: real -> seq<Byte>)
    requires -0x8000_0000 <= i < 0x8000_0000
    ensures var b: seq<int> := StoredBytes(Integer(i), realBytes);
      && |b| == 4
      && b[0] + 256 * b[1] + 65536 * b[2] + 16777216 * b[3] == if i < 0 then i + 0x1_0000_0000 else i
  {
    FourBytes();
    hide Codec.LittleEndian, Codec.Value, Codec.Pow256;
    Codec.ValueOf(i % 0x1_0000_0000, 4);
    FourDigits(StoredBytes(Integer(i), realBytes));
  }

  lemma FourDigits(b: seq<Byte>)
    requires |b| == 4
    ensures var d: seq<int> := b; Codec.Value(b) == d[0] + 256 * d[1] + 65536 * d[2] + 16777216 * d[3]
  {
    assert Codec.Value(b[1..]) == b[1] + 256 * Codec.Value(b[2..]) by { assert b[1..][1..] == b[2..]; }
    assert Codec.Value(b[2..]) == b[2] + 256 * Codec.Value(b[3..]) by { assert b[2..][1..] == b[3..]; }
    assert Codec.Value(b[3..]) == b[3] by { assert b[3..] == [b[3]]; }
  }

  lemma IntegerBytesOn(realBytes: real -> seq<Byte>)
    ensures StoredBytes(Integer(5), realBytes) == [5, 0, 0, 0]
    ensures StoredBytes(Integer(-1), realBytes) == [255, 255, 255, 255]
    ensures StoredBytes(Integer(1000), realBytes) == [232, 3, 0, 0]
  {
  }

  lemma FourBytes()
    ensures Codec.Pow256(4) == 0x1_0000_0000
  {
    assert Codec.Pow256(0) == 1 && Codec.Pow256(1) == 256 && Codec.Pow256(2) == 0x1_0000;
  }

  lemma SameChars(c: int, d: int)
    requires -128 <= c < 128 && -128 <= d < 128
    ensures [c % 256] == [d % 256] <==> c == d
  {
    assert [c % 256] == [d % 256] ==> [c % 256][0] == [d % 256][0];
  }

  // Bytes and type together always do.
  lemma SameToken(v: Value, w: Value, realBytes: real -> seq<Byte>)
    requires InWidth(v) && InWidth(w) && Injective(realBytes)
    ensures TokenOf(v, realBytes) == TokenOf(w, realBytes) <==> v == w
  {
    if TypeCode(v) == TypeCode(w) {
      SameBytes(v, w, realBytes);
    }
  }

  // Bytes alone do not.
  lemma AcrossTypes(realBytes: real -> seq<Byte>)
    ensures StoredBytes(String([97]), realBytes) == StoredBytes(Char(97), realBytes)
    ensures StoredBytes(Bool(true), realBytes) == StoredBytes(Char(1), realBytes)
  {
  }
}
