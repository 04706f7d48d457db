/**
 A log file that was cut inside a record and appended to afterwards: when the appended records are found.
 */
module WalTails {
  import opened Types
  import opened Codec
  import opened WalCodec

  // ---- Numbers and headers, read back ----

  lemma {:induction false} ValueBack(b: Bytes)
    ensures Value(b) < Pow256(|b|) && LittleEndian(Value(b), |b|) == b
  {
    hide LittleEndian;
    if b == [] {
      NoBytes(Value(b));
    } else {
      var v := Value(b[1..]);
      ValueBack(b[1..]);
      ShiftedBy(b[0], v);
      assert Value(b) == b[0] + 256 * v;
      LittleEndianStep(Value(b), |b|);
      assert b == [b[0]] + b[1..];
    }
  }

  lemma {:induction false} ValueAtLeast(b: Bytes, i: nat)
    requires i < |b| && b[i] > 0
    ensures Value(b) >= Pow256(i)
  {
    if i > 0 {
      ValueAtLeast(b[1..], i - 1);
    }
  }

  // The first 40 bytes of every record.
  function Header(r: WalRecord): (b: Bytes)
    ensures |b| == 40
  {
    LittleEndian(TagOf(r.body), 8) + LittleEndian(r.lsn, 8) + LittleEndian(r.prev, 8) + LittleEndian(r.txn, 16)
  }

  lemma HeaderFirst(r: WalRecord, rest: Bytes)
    ensures PutRecord(r, rest) == Header(r) + PutBody(r.body, rest)
    ensures 1 <= TagOf(r.body) <= 25 && Header(r)[0] == TagOf(r.body)
  {
    hide PutBody, LittleEndian, TagOf;
    TagBound(r.body);
    LittleEndianStep(TagOf(r.body), 8);
    HeaderJoin(LittleEndian(TagOf(r.body), 8), LittleEndian(r.lsn, 8), LittleEndian(r.prev, 8), LittleEndian(r.txn, 16),
               PutBody(r.body, rest));
  }

  lemma HeaderJoin(a: Bytes, b: Bytes, c: Bytes, d: Bytes, e: Bytes)
    ensures a + (b + (c + (d + e))) == a + b + c + d + e
  {
  }

  lemma TagBound(b: Body)
    ensures 1 <= TagOf(b) <= 25
  {
  }

  lemma HeaderCanonical(r: WalRecord)
    ensures Header(CanonicalRecord(r)) == Header(r)
  {
    hide LittleEndian;
  }

  lemma TagBack(tag: nat, s: Bytes, junk: nat -> Byte)
    requires 1 <= tag <= 25 && GetBody(tag, s, junk).Got?
    ensures TagOf(GetBody(tag, s, junk).value) == tag
  {
    hide GetRow, GetSchema, GetTable, GetIndex, GetPlace, GetLoose;
  }

  lemma GetExact(width: nat, s: Bytes, junk: nat -> Byte)
    requires 0 < width <= |s|
    ensures GetLoose(width, s, junk) == Got(Value(s[..width]), s[width..])
  {
  }

  // What was read from at least 40 bytes has exactly those for its header.
  lemma HeaderBack(s: Bytes, junk: nat -> Byte)
    requires |s| >= 40 && GetRecord(s, junk).Got?
    ensures Header(GetRecord(s, junk).value) == s[..40]
  {
    hide GetBody, Value, LittleEndian, GetLoose;
    GetExact(8, s, junk);
    GetExact(8, s[8..], junk);
    GetExact(8, s[8..][8..], junk);
    GetExact(16, s[8..][8..][8..], NoBits);
    var r := GetRecord(s, junk).value;
    TagBack(Value(s[..8]), s[8..][8..][8..][16..], junk);
    ValueBack(s[..8]);
    ValueBack(s[8..][..8]);
    ValueBack(s[8..][8..][..8]);
    ValueBack(s[8..][8..][8..][..16]);
    FourParts(s);
  }

  lemma FourParts(s: Bytes)
    requires |s| >= 40
    ensures s[..8] + s[8..][..8] + s[8..][8..][..8] + s[8..][8..][8..][..16] == s[..40]
  {
  }

  // ---- When appended records are found ----

  // What the file then reads as.
  function AfterCut(rs: seq<WalRecord>, r: WalRecord, n: nat, more: seq<WalRecord>, junk: nat -> Byte): LogFile
    requires n <= |PutEntry(r, [])|
  {
    GetEntries(PutEntries(rs, PutEntry(r, [])[..n] + PutEntries(more, [])), junk)
  }

  // Of the torn header, a byte that reached the file is not the one the other record has there.
  ghost predicate HeadDiffers(r: WalRecord, n: nat, x: WalRecord) {
    exists i | 0 <= i < 40 && i + 8 < n :: Header(r)[i] != Header(x)[i]
  }

  // A cut inside the size field always hides what is appended: the first tag then read ends in the tag
  // of an appended record. So does a cut behind it as soon as what is there of the torn header differs
  // from the header of the first appended record. Otherwise only a cut between two records is harmless.
  lemma AppendedFound(rs: seq<WalRecord>, r: WalRecord, n: nat, more: seq<WalRecord>, junk: nat -> Byte)
    requires FitsEntries(rs) && FitsEntries([r]) && FitsEntries(more) && more != [] && n < |PutEntry(r, [])|
    requires n < 8 || HeadDiffers(r, n, more[0])
    ensures AfterCut(rs, r, n, more, junk) == Records(CanonicalRecords(rs) + CanonicalRecords(more)) <==> n == 0
  {
    hide PutEntry, PutEntries, FitsEntries, GetEntries, CanonicalRecords, ReadOn, LittleEndian, Value, PutRecord, Header, HeadDiffers;
    AppendedAfterCut(rs, r, n, more, junk);
    EntryParts(r);
    var written, size := PutEntries(more, []), |PutRecord(r, [])|;
    if 0 < n {
      var found :=
        if n < 8 then ReadOn(Value(LittleEndian(size, 8)[..n] + written[..8 - n]), written[8 - n..], junk)
        else ReadOn(size, PutRecord(r, [])[..n - 8] + written, junk);
      if n < 8 {
        CutInSize(Value(LittleEndian(size, 8)[..n] + written[..8 - n]), n, more, junk);
      } else {
        CutBehindSize(r, n, more, junk);
      }
      SameTail(CanonicalRecords(rs), found, CanonicalRecords(more));
    }
  }

  lemma SameTail(a: seq<WalRecord>, found: LogFile, b: seq<WalRecord>)
    ensures BeforeAll(a, found) == Records(a + b) <==> found == Records(b)
  {
    if found.Records? && a + found.rs == a + b {
      assert (a + found.rs)[|a|..] == found.rs && (a + b)[|a|..] == b;
    }
  }

  lemma CutInSize(size: nat, n: nat, more: seq<WalRecord>, junk: nat -> Byte)
    requires 0 < n < 8 && more != [] && |PutEntries(more, [])| >= 8
    ensures ReadOn(size, PutEntries(more, [])[8 - n..], junk) != Records(CanonicalRecords(more))
  {
    hide LittleEndian, Value, PutRecord, Header, GetEntries, GetBody, PutBody;
    var rest := PutEntries(more[1..], []);
    var s := PutEntries(more, [])[8 - n..];
    HeaderFirst(more[0], rest);
    var field := LittleEndian(|PutRecord(more[0], [])|, 8);
    assert PutEntries(more, []) == field + (Header(more[0]) + PutBody(more[0].body, rest));
    assert s[n] == Header(more[0])[0];
    GetExact(8, s, junk);
    ValueAtLeast(s[..8], n);
    BigPower(n);
    assert CanonicalRecords(more) != [];
  }

  lemma BigPower(n: nat)
    requires n > 0
    ensures Pow256(n) >= 256
  {
    assert Pow256(n) == 256 * Pow256(n - 1);
  }

  lemma CutBehindSize(r: WalRecord, n: nat, more: seq<WalRecord>, junk: nat -> Byte)
    requires 8 <= n < |PutEntry(r, [])| && more != [] && HeadDiffers(r, n, more[0])
    ensures |PutEntry(r, [])| == |PutRecord(r, [])| + 8
    ensures ReadOn(|PutRecord(r, [])|, PutRecord(r, [])[..n - 8] + PutEntries(more, []), junk) != Records(CanonicalRecords(more))
  {
    hide PutEntry, LittleEndian, Value, PutRecord, Header, GetEntries, GetRecord, PutBody, PutEntries, CanonicalRecord;
    EntryParts(r);
    HeaderFirst(r, []);
    var size, s := |PutRecord(r, [])|, PutRecord(r, [])[..n - 8] + PutEntries(more, []);
    assert CanonicalRecords(more)[0] == CanonicalRecord(more[0]);
    if |s| >= size && GetRecord(s, junk).Got? {
      HeaderBack(s, junk);
      HeaderCanonical(more[0]);
      var i :| 0 <= i < 40 && i + 8 < n && Header(r)[i] != Header(more[0])[i];
      assert s[..40][i] == s[i] == PutRecord(r, [])[i] == Header(r)[i];
    }
  }

  // In particular, a header torn off complete hides the records of a new transaction.
  lemma NewTxnFound(rs: seq<WalRecord>, r: WalRecord, n: nat, more: seq<WalRecord>, junk: nat -> Byte)
    requires FitsEntries(rs) && FitsEntries([r]) && FitsEntries(more) && more != [] && n < |PutEntry(r, [])|
    requires n == 0 || n >= 48
    requires more[0].txn != r.txn
    ensures AfterCut(rs, r, n, more, junk) == Records(CanonicalRecords(rs) + CanonicalRecords(more)) <==> n == 0
  {
    hide AfterCut, PutEntry, CanonicalRecords, Header;
    if n >= 48 {
      assert [r][0] == r;
      TxnDiffers(r, more[0]);
      assert HeadDiffers(r, n, more[0]);
    }
    AppendedFound(rs, r, n, more, junk);
  }

  lemma TxnDiffers(r: WalRecord, x: WalRecord)
    requires r.txn < Pow256(16) && x.txn < Pow256(16) && r.txn != x.txn
    ensures exists i :: 0 <= i < 40 && Header(r)[i] != Header(x)[i]
  {
    hide LittleEndian, Value, Pow256;
    ValueOf(r.txn, 16);
    ValueOf(x.txn, 16);
    assert Header(r)[24..] == LittleEndian(r.txn, 16) && Header(x)[24..] == LittleEndian(x.txn, 16);
    ByteDiffers(Header(r), Header(x));
  }

  lemma ByteDiffers(a: Bytes, b: Bytes)
    requires |a| == |b| && a != b
    ensures exists i :: 0 <= i < |a| && a[i] != b[i]
  {
  }

  // ---- A cut inside a record that hides nothing ----

  function Times(b: nat, p: nat): nat {
    b * p
  }

  lemma {:induction false} TopByte(low: nat, b: Byte, k: nat)
    requires low < Pow256(k)
    ensures low + Times(b, Pow256(k)) < Pow256(k + 1)
    ensures LittleEndian(low + Times(b, Pow256(k)), k + 1) == LittleEndian(low, k) + [b]
  {
    hide LittleEndian;
    var v := low + Times(b, Pow256(k));
    LittleEndianStep(v, k + 1);
    if k > 0 {
      LittleEndianStep(low, k);
      Shifted(low, b, Pow256(k - 1));
      TopByte(low / 256, b, k - 1);
    } else {
      NoBytes(v / 256);
      NoBytes(low);
    }
  }

  lemma LittleEndianStep(v: nat, width: nat)
    requires width > 0
    ensures LittleEndian(v, width) == [v % 256] + LittleEndian(v / 256, width - 1)
  {
  }

  lemma NoBytes(v: nat)
    ensures LittleEndian(v, 0) == []
  {
  }

  lemma Shifted(low: nat, b: nat, p: nat)
    ensures (low + Times(b, 256 * p)) / 256 == low / 256 + Times(b, p) && (low + Times(b, 256 * p)) % 256 == low % 256
  {
    assert b * (256 * p) == 256 * (b * p);
    ShiftedBy(low, b * p);
  }

  lemma ShiftedBy(low: nat, m: nat)
    ensures (low + 256 * m) / 256 == low / 256 + m && (low + 256 * m) % 256 == low % 256
  {
  }

  function BeginOf(lsn: nat, low: nat, top: Byte): WalRecord {
    WalRecord(lsn, 0, low + Times(top, Pow256(15)), Begin)
  }

  // A BEGIN cut before its last byte, followed by the BEGIN with the same LSN of a transaction whose id
  // differs at most in that byte, where it has 40, the first byte of a size field: it is found.
  lemma FoundAfterCut(lsn: nat, low: nat, top: Byte, junk: nat -> Byte)
    requires lsn < Pow256(8) && low < Pow256(15)
    ensures var r, x := BeginOf(lsn, low, top), BeginOf(lsn, low, 40);
      && FitsEntries([r]) && FitsEntries([x]) && |PutEntry(r, [])| == 48
      && AfterCut([], r, 47, [x], junk) == Records([x])
  {
    hide PutEntry, PutEntries, GetEntries, PutRecord, LittleEndian, Pow256, Value;
    var r, x := BeginOf(lsn, low, top), BeginOf(lsn, low, 40);
    TopByte(low, top, 15);
    TopByte(low, 40, 15);
    BeginEntry(lsn, low, top);
    BeginEntry(lsn, low, 40);
    OneEntry(x, []);
    var torn, written := PutEntry(r, [])[..47], PutEntries([x], []);
    var head := LittleEndian(40, 8) + LittleEndian(10, 8) + LittleEndian(lsn, 8) + LittleEndian(0, 8) + LittleEndian(low, 15);
    assert torn == head;
    Forty();
    assert written[0] == 40;
    assert torn + written == head + [40] + written[1..];
    EntryBefore(x, written[1..]);
    assert PutEntries([], torn + written) == torn + written by { NoneBefore(torn + written); }
    GetEntry(x, written[1..], junk);
    RestIsShort(x, junk);
  }

  lemma NoneBefore(s: Bytes)
    ensures PutEntries([], s) == s
  {
  }

  lemma Forty()
    ensures LittleEndian(40, 8) == [40, 0, 0, 0, 0, 0, 0, 0]
    ensures LittleEndian(10, 8) == [10, 0, 0, 0, 0, 0, 0, 0]
  {
    forall w: nat ensures LittleEndian(0, w) == seq(w, i => 0) {
      Zeros(w);
    }
    assert LittleEndian(40, 8) == [40] + LittleEndian(0, 7);
    assert LittleEndian(10, 8) == [10] + LittleEndian(0, 7);
  }

  lemma {:induction false} Zeros(w: nat)
    ensures LittleEndian(0, w) == seq(w, i => 0)
  {
    if w > 0 {
      Zeros(w - 1);
    }
  }

  lemma OneEntry(x: WalRecord, rest: Bytes)
    ensures PutEntries([x], rest) == PutEntry(x, rest)
  {
    hide PutEntry;
    assert [x][1..] == [];
  }

  lemma EntryBefore(x: WalRecord, rest: Bytes)
    ensures PutEntry(x, rest) == PutEntry(x, []) + rest
  {
    hide PutRecord, LittleEndian;
    PutRecordPrefix(x, [], rest);
    assert [] + rest == rest;
  }

  lemma BeginEntry(lsn: nat, low: nat, top: Byte)
    requires lsn < Pow256(8) && low < Pow256(15)
    ensures var x := BeginOf(lsn, low, top);
      && FitsRecord(x) && |PutRecord(x, [])| == 40 < Pow256(8)
      && PutEntry(x, []) == LittleEndian(40, 8) + LittleEndian(10, 8) + LittleEndian(lsn, 8) + LittleEndian(0, 8)
                            + LittleEndian(low, 15) + [top]
  {
    hide LittleEndian, Pow256, Value;
    var x := BeginOf(lsn, low, top);
    TopByte(low, top, 15);
    HeaderFirst(x, []);
    EntryParts(x);
    SevenBytes();
    assert Header(x) == LittleEndian(10, 8) + LittleEndian(lsn, 8) + LittleEndian(0, 8) + (LittleEndian(low, 15) + [top]);
  }

  // From its second byte on the appended entry reads as a torn record of enormous size.
  lemma RestIsShort(x: WalRecord, junk: nat -> Byte)
    requires |PutRecord(x, [])| == 40 && x.body.Begin?
    ensures |PutEntry(x, [])| == 48 && GetEntries(PutEntry(x, [])[1..], junk) == Records([])
  {
    hide PutEntry, PutRecord, GetRecord, LittleEndian, Value;
    EntryParts(x);
    HeaderFirst(x, []);
    Forty();
    var s := PutEntry(x, [])[1..];
    assert s[..8][7] == 10;
    GetExact(8, s, junk);
    ValueAtLeast(s[..8], 7);
    BigPower(7);
    SevenBytes();
  }

  lemma SevenBytes()
    ensures Pow256(8) > Pow256(7) > 48
  {
    assert Pow256(7) == 256 * Pow256(6) && Pow256(8) == 256 * Pow256(7);
  }
}
