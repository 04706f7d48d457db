/**
 The byte format of WAL records and of log files: decoding undoes encoding for every record kind,
 whatever follows the record, and a log file cut short decodes to the records before the cut.
 */
module WalCodec {
  import opened Types
  import opened Codec

  function ChangeTag(c: Change): nat {
    match c
    case InsertRow(_, _, _) => 1
    case UpdateRow(_, _, _, _) => 2
    case DeleteRow(_, _, _) => 3
    case CreateTable(_) => 4
    case UpdateTable(_, _) => 5
    case DeleteTable(_) => 6
    case CreateSchema(_) => 7
    case UpdateSchema(_, _) => 8
    case DeleteSchema(_) => 9
    case CreateIndex(_) => 22
    case DropIndex(_) => 24
  }

  function ClrTag(c: Change): nat {
    match c
    case InsertRow(_, _, _) => 13
    case UpdateRow(_, _, _, _) => 14
    case DeleteRow(_, _, _) => 15
    case CreateSchema(_) => 16
    case UpdateSchema(_, _) => 17
    case DeleteSchema(_) => 18
    case CreateTable(_) => 19
    case UpdateTable(_, _) => 20
    case DeleteTable(_) => 21
    case CreateIndex(_) => 23
    case DropIndex(_) => 25
  }

  function TagOf(b: Body): nat {
    match b
    case Begin => 10
    case Commit => 11
    case Rollback => 12
    case Do(change) => ChangeTag(change)
    case Clr(_, change) => ClrTag(change)
  }

  // The change kind behind a tag: its own tag for a change, the compensated one for a CLR.
  function ChangeTagOf(tag: nat): nat {
    if 13 <= tag <= 15 then tag - 12
    else if 16 <= tag <= 18 then tag - 9
    else if 19 <= tag <= 21 then tag - 15
    else if tag == 23 || tag == 25 then tag - 1
    else tag
  }

  predicate IsClrTag(tag: nat) {
    13 <= tag <= 21 || tag == 23 || tag == 25
  }

  predicate IsChangeTag(tag: nat) {
    1 <= tag <= 9 || tag == 22 || tag == 24
  }

  function PutChange(c: Change, rest: Bytes): Bytes {
    match c
    case InsertRow(_, _, after) => PutRow(after, rest)
    case UpdateRow(_, _, before, after) => PutRow(before, PutRow(after, rest))
    case DeleteRow(_, _, before) => PutRow(before, rest)
    case CreateSchema(schema) => PutSchema(schema, rest)
    case UpdateSchema(before, after) => PutSchema(before, PutSchema(after, rest))
    case DeleteSchema(schema) => PutSchema(schema, rest)
    case CreateTable(table) => PutTable(table, rest)
    case UpdateTable(before, after) => PutTable(before, PutTable(after, rest))
    case DeleteTable(table) => PutTable(table, rest)
    case CreateIndex(index) => PutIndex(index, rest)
    case DropIndex(index) => PutIndex(index, rest)
  }

  // The table and page ids that data records carry in front of their rows.
  function PutPlace(c: Change, rest: Bytes): Bytes {
    if c.IsData() then Put(c.tableId, 16, Put(c.page, 16, rest)) else rest
  }

  function PutBody(b: Body, rest: Bytes): Bytes {
    match b
    case Do(change) => PutPlace(change, PutChange(change, rest))
    case Clr(undoNext, change) => PutPlace(change, Put(undoNext, 8, PutChange(change, rest)))
    case _ => rest
  }

  function PutRecord(r: WalRecord, rest: Bytes): Bytes {
    Put(TagOf(r.body), 8, Put(r.lsn, 8, Put(r.prev, 8, Put(r.txn, 16, PutBody(r.body, rest)))))
  }

  function GetChange(tag: nat, tableId: Uuid, page: PageId, s: Bytes): (r: Read<Change>)
    requires IsChangeTag(tag)
    ensures r.Got? ==> |r.rest| <= |s|
  {
    match tag
    case 1 => var (after, s) :- GetRow(s); Got(InsertRow(tableId, page, after), s)
    case 2 => var (before, s) :- GetRow(s); var (after, s) :- GetRow(s); Got(UpdateRow(tableId, page, before, after), s)
    case 3 => var (before, s) :- GetRow(s); Got(DeleteRow(tableId, page, before), s)
    case 4 => var (table, s) :- GetTable(s); Got(CreateTable(table), s)
    case 5 => var (before, s) :- GetTable(s); var (after, s) :- GetTable(s); Got(UpdateTable(before, after), s)
    case 6 => var (table, s) :- GetTable(s); Got(DeleteTable(table), s)
    case 7 => var (schema, s) :- GetSchema(s); Got(CreateSchema(schema), s)
    case 8 => var (before, s) :- GetSchema(s); var (after, s) :- GetSchema(s); Got(UpdateSchema(before, after), s)
    case 9 => var (schema, s) :- GetSchema(s); Got(DeleteSchema(schema), s)
    case 22 => var (index, s) :- GetIndex(s); Got(CreateIndex(index), s)
    case _ => var (index, s) :- GetIndex(s); Got(DropIndex(index), s)
  }

  // UUID variables start out as all zeros.
  function NoBits(i: nat): Byte {
    0
  }

  function GetPlace(tag: nat, s: Bytes): (r: Read<(Uuid, PageId)>)
    ensures r.Got? ==> |r.rest| <= |s|
  {
    if tag <= 3 then
      var (tableId, s) :- GetLoose(16, s, NoBits);
      var (page, s) :- GetLoose(16, s, NoBits);
      Got((tableId, page), s)
    else Got((0, 0), s)
  }

  function GetBody(tag: nat, s: Bytes, junk: nat -> Byte): (r: Read<Body>)
    ensures r.Got? ==> |r.rest| <= |s|
  {
    if tag == 10 then Got(Begin, s)
    else if tag == 11 then Got(Commit, s)
    else if tag == 12 then Got(Rollback, s)
    else if IsChangeTag(tag) then
      var (place, s) :- GetPlace(tag, s);
      var (change, s) :- GetChange(tag, place.0, place.1, s);
      Got(Do(change), s)
    else if IsClrTag(tag) then
      var (place, s) :- GetPlace(ChangeTagOf(tag), s);
      var (undoNext, s) :- GetLoose(8, s, junk);
      var (change, s) :- GetChange(ChangeTagOf(tag), place.0, place.1, s);
      Got(Clr(undoNext, change), s)
    else Short
  }

  function GetRecord(s: Bytes, junk: nat -> Byte): (r: Read<WalRecord>)
    ensures r.Got? ==> |r.rest| < |s|
  {
    var (tag, s) :- GetLoose(8, s, junk);
    if 1 <= tag <= 25 then
      var (lsn, s) :- GetLoose(8, s, junk);
      var (prev, s) :- GetLoose(8, s, junk);
      var (txn, s) :- GetLoose(16, s, NoBits);
      var (body, s) :- GetBody(tag, s, junk);
      Got(WalRecord(lsn, prev, txn, body), s)
    else Short
  }

  ghost predicate FitsChange(c: Change) {
    match c
    case InsertRow(tableId, page, after) => tableId < Pow256(16) && page < Pow256(16) && FitsRow(after)
    case UpdateRow(tableId, page, before, after) =>
      tableId < Pow256(16) && page < Pow256(16) && FitsRow(before) && FitsRow(after)
    case DeleteRow(tableId, page, before) => tableId < Pow256(16) && page < Pow256(16) && FitsRow(before)
    case CreateSchema(schema) => FitsSchema(schema)
    case UpdateSchema(before, after) => FitsSchema(before) && FitsSchema(after)
    case DeleteSchema(schema) => FitsSchema(schema)
    case CreateTable(table) => FitsTable(table)
    case UpdateTable(before, after) => FitsTable(before) && FitsTable(after)
    case DeleteTable(table) => FitsTable(table)
    case CreateIndex(index) => FitsIndex(index)
    case DropIndex(index) => FitsIndex(index)
  }

  // Every number fits the C++ field that holds it.
  ghost predicate FitsRecord(r: WalRecord) {
    && r.lsn < Pow256(8) && r.prev < Pow256(8) && r.txn < Pow256(16)
    && (r.body.Do? ==> FitsChange(r.body.change))
    && (r.body.Clr? ==> r.body.undoNext < Pow256(8) && FitsChange(r.body.change))
  }

  function CanonicalChange(c: Change): Change {
    match c
    case InsertRow(tableId, page, after) => InsertRow(tableId, page, CanonicalRow(after))
    case UpdateRow(tableId, page, before, after) => UpdateRow(tableId, page, CanonicalRow(before), CanonicalRow(after))
    case DeleteRow(tableId, page, before) => DeleteRow(tableId, page, CanonicalRow(before))
    case _ => c
  }

  // The record as it comes back: NULL tokens without bytes.
  function CanonicalRecord(r: WalRecord): WalRecord {
    match r.body
    case Do(change) => r.(body := Do(CanonicalChange(change)))
    case Clr(undoNext, change) => r.(body := Clr(undoNext, CanonicalChange(change)))
    case _ => r
  }

  lemma GetPutChange(c: Change, rest: Bytes)
    requires FitsChange(c)
    ensures GetChange(ChangeTag(c), if c.IsData() then c.tableId else 0, if c.IsData() then c.page else 0, PutChange(c, rest))
         == Got(CanonicalChange(c), rest)
  {
    hide FitsRow, PutRow, GetRow, FitsSchema, PutSchema, GetSchema, FitsTable, PutTable, GetTable, FitsIndex, PutIndex,
         GetIndex, CanonicalRow, Pow256;
    match c
    case InsertRow(_, _, after) => GetPutRow(after, rest);
    case UpdateRow(_, _, before, after) => GetPutRow(before, PutRow(after, rest)); GetPutRow(after, rest);
    case DeleteRow(_, _, before) => GetPutRow(before, rest);
    case CreateSchema(schema) => GetPutSchema(schema, rest);
    case UpdateSchema(before, after) => GetPutSchema(before, PutSchema(after, rest)); GetPutSchema(after, rest);
    case DeleteSchema(schema) => GetPutSchema(schema, rest);
    case CreateTable(table) => GetPutTable(table, rest);
    case UpdateTable(before, after) => GetPutTable(before, PutTable(after, rest)); GetPutTable(after, rest);
    case DeleteTable(table) => GetPutTable(table, rest);
    case CreateIndex(index) => GetPutIndex(index, rest);
    case DropIndex(index) => GetPutIndex(index, rest);
  }

  lemma GetPutPlace(c: Change, rest: Bytes)
    requires FitsChange(c)
    ensures GetPlace(ChangeTag(c), PutPlace(c, rest))
         == Got((if c.IsData() then c.tableId else 0, if c.IsData() then c.page else 0), rest)
  {
    hide FitsRow, FitsSchema, FitsTable, FitsIndex, Pow256, Put, GetLoose;
    if c.IsData() {
      GetPut(c.tableId, 16, Put(c.page, 16, rest));
      GetPut(c.page, 16, rest);
    }
  }

  lemma GetPutBody(b: Body, rest: Bytes, junk: nat -> Byte)
    requires b.Do? ==> FitsChange(b.change)
    requires b.Clr? ==> b.undoNext < Pow256(8) && FitsChange(b.change)
    ensures GetBody(TagOf(b), PutBody(b, rest), junk) == Got(CanonicalRecord(WalRecord(0, 0, 0, b)).body, rest)
  {
    hide FitsChange, PutChange, GetChange, PutPlace, GetPlace, Pow256, Put, GetLoose, CanonicalChange;
    match b
    case Do(change) =>
      GetPutPlace(change, PutChange(change, rest));
      GetPutChange(change, rest);
    case Clr(undoNext, change) =>
      GetPutPlace(change, Put(undoNext, 8, PutChange(change, rest)));
      GetPut(undoNext, 8, PutChange(change, rest));
      GetPutChange(change, rest);
    case _ =>
  }

  // Decoding undoes encoding for all 25 record kinds and consumes exactly the encoded bytes.
  lemma GetPutRecord(r: WalRecord, rest: Bytes, junk: nat -> Byte)
    requires FitsRecord(r)
    ensures GetRecord(PutRecord(r, rest), junk) == Got(CanonicalRecord(r), rest)
  {
    hide FitsChange, PutBody, GetBody, Put, GetLoose, CanonicalChange;
    assert 25 < Pow256(8);
    hide Pow256;
    GetPut(TagOf(r.body), 8, Put(r.lsn, 8, Put(r.prev, 8, Put(r.txn, 16, PutBody(r.body, rest)))));
    GetPut(r.lsn, 8, Put(r.prev, 8, Put(r.txn, 16, PutBody(r.body, rest))));
    GetPut(r.prev, 8, Put(r.txn, 16, PutBody(r.body, rest)));
    GetPut(r.txn, 16, PutBody(r.body, rest));
    GetPutBody(r.body, rest, junk);
  }

  // What comes back is the record itself exactly when its NULL tokens hold no bytes.
  lemma CanonicalRowIff(r: Row)
    ensures CanonicalRow(r) == r <==> forall i :: 0 <= i < |r.tokens| && r.tokens[i].kind == NULL_TYPE ==> r.tokens[i].bytes == []
  {
    if CanonicalRow(r) == r {
      forall i | 0 <= i < |r.tokens| && r.tokens[i].kind == NULL_TYPE ensures r.tokens[i].bytes == [] {
        assert CanonicalRow(r).tokens[i] == r.tokens[i];
      }
    } else {
      assert CanonicalTokens(r.tokens) != r.tokens;
    }
  }

  // ---- Encodings as prefixes ----

  lemma PutChangePrefix(c: Change, a: Bytes, b: Bytes)
    ensures PutChange(c, a) + b == PutChange(c, a + b)
  {
    hide PutRow, PutSchema, PutTable, PutIndex;
    match c
    case InsertRow(_, _, after) => PutRowPrefix(after, a, b);
    case UpdateRow(_, _, before, after) => PutRowPrefix(before, PutRow(after, a), b); PutRowPrefix(after, a, b);
    case DeleteRow(_, _, before) => PutRowPrefix(before, a, b);
    case CreateSchema(schema) => PutSchemaPrefix(schema, a, b);
    case UpdateSchema(before, after) => PutSchemaPrefix(before, PutSchema(after, a), b); PutSchemaPrefix(after, a, b);
    case DeleteSchema(schema) => PutSchemaPrefix(schema, a, b);
    case CreateTable(table) => PutTablePrefix(table, a, b);
    case UpdateTable(before, after) => PutTablePrefix(before, PutTable(after, a), b); PutTablePrefix(after, a, b);
    case DeleteTable(table) => PutTablePrefix(table, a, b);
    case CreateIndex(index) => PutIndexPrefix(index, a, b);
    case DropIndex(index) => PutIndexPrefix(index, a, b);
  }

  lemma PutPlacePrefix(c: Change, a: Bytes, b: Bytes)
    ensures PutPlace(c, a) + b == PutPlace(c, a + b)
  {
    hide Put;
    if c.IsData() {
      PutPrefix(c.tableId, 16, Put(c.page, 16, a), b);
      PutPrefix(c.page, 16, a, b);
    }
  }

  lemma PutBodyPrefix(body: Body, a: Bytes, b: Bytes)
    ensures PutBody(body, a) + b == PutBody(body, a + b)
  {
    hide PutPlace, PutChange, Put;
    match body
    case Do(change) =>
      PutPlacePrefix(change, PutChange(change, a), b);
      PutChangePrefix(change, a, b);
    case Clr(undoNext, change) =>
      PutPlacePrefix(change, Put(undoNext, 8, PutChange(change, a)), b);
      PutPrefix(undoNext, 8, PutChange(change, a), b);
      PutChangePrefix(change, a, b);
    case _ =>
  }

  lemma PutRecordPrefix(r: WalRecord, a: Bytes, b: Bytes)
    ensures PutRecord(r, a) + b == PutRecord(r, a + b)
  {
    hide PutBody, Put;
    PutPrefix(TagOf(r.body), 8, Put(r.lsn, 8, Put(r.prev, 8, Put(r.txn, 16, PutBody(r.body, a)))), b);
    PutPrefix(r.lsn, 8, Put(r.prev, 8, Put(r.txn, 16, PutBody(r.body, a))), b);
    PutPrefix(r.prev, 8, Put(r.txn, 16, PutBody(r.body, a)), b);
    PutPrefix(r.txn, 16, PutBody(r.body, a), b);
    PutBodyPrefix(r.body, a, b);
  }

  // ---- Log files ----

  // A record in a log file: its size, then its bytes.
  function PutEntry(r: WalRecord, rest: Bytes): Bytes {
    Put(|PutRecord(r, [])|, 8, PutRecord(r, rest))
  }

  function PutEntries(rs: seq<WalRecord>, rest: Bytes): Bytes {
    if rs == [] then rest else PutEntry(rs[0], PutEntries(rs[1..], rest))
  }

  // What reading a log file gives: the records, or an exception.
  datatype LogFile = Records(rs: seq<WalRecord>) | Broken

  function GetEntries(s: Bytes, junk: nat -> Byte): LogFile
    decreases |s|
  {
    match GetLoose(8, s, junk)
    case Short => Records([])
    case Got(size, s') =>
      if |s'| < size then Records([])
      else
        match GetRecord(s', junk)
        case Short => Broken
        case Got(r, s'') =>
          match GetEntries(s'', junk)
          case Broken => Broken
          case Records(rs) => Records([r] + rs)
  }

  ghost predicate FitsEntries(rs: seq<WalRecord>) {
    forall i :: 0 <= i < |rs| ==> FitsRecord(rs[i]) && |PutRecord(rs[i], [])| < Pow256(8)
  }

  function CanonicalRecords(rs: seq<WalRecord>): seq<WalRecord> {
    if rs == [] then [] else [CanonicalRecord(rs[0])] + CanonicalRecords(rs[1..])
  }

  // What reading gives when one record precedes the rest.
  function Before(r: WalRecord, more: LogFile): LogFile {
    match more case Broken => Broken case Records(rs) => Records([r] + rs)
  }

  function BeforeAll(rs: seq<WalRecord>, more: LogFile): LogFile {
    match more case Broken => Broken case Records(ms) => Records(rs + ms)
  }

  lemma GetEntry(r: WalRecord, after: Bytes, junk: nat -> Byte)
    requires FitsRecord(r) && |PutRecord(r, [])| < Pow256(8)
    ensures GetEntries(PutEntry(r, after), junk) == Before(CanonicalRecord(r), GetEntries(after, junk))
  {
    hide FitsRecord, PutRecord, GetRecord, Put, GetLoose, CanonicalRecord, Pow256;
    GetPut(|PutRecord(r, [])|, 8, PutRecord(r, after));
    PutRecordPrefix(r, [], after);
    assert [] + after == after;
    GetPutRecord(r, after, junk);
  }

  // Reading a log file gives the records written to it, followed by what its remaining bytes give.
  lemma {:induction false} GetPutEntries(rs: seq<WalRecord>, tail: Bytes, junk: nat -> Byte)
    requires FitsEntries(rs)
    ensures GetEntries(PutEntries(rs, tail), junk) == BeforeAll(CanonicalRecords(rs), GetEntries(tail, junk))
  {
    hide FitsRecord, PutRecord, CanonicalRecord, Pow256, GetEntries, PutEntry;
    var more := GetEntries(tail, junk);
    if rs == [] {
      assert more.Records? ==> [] + more.rs == more.rs;
    } else {
      GetPutEntries(rs[1..], tail, junk);
      GetEntry(rs[0], PutEntries(rs[1..], tail), junk);
      assert more.Records? ==>
               CanonicalRecords(rs) + more.rs == [CanonicalRecord(rs[0])] + (CanonicalRecords(rs[1..]) + more.rs);
    }
  }

  // The number a size field cut after n bytes is taken for.
  function CutSize(size: nat, n: nat, junk: nat -> Byte): nat
    requires n <= 8
  {
    Value(LittleEndian(size, 8)[..n] + seq(8 - n, i requires i >= 0 => junk(i)))
  }

  // A log file whose last record is cut after n bytes decodes to exactly the records before it,
  // unless the cut falls inside the size field and the rest of that field happens to make it zero:
  // then reading fails.
  lemma CutFile(rs: seq<WalRecord>, r: WalRecord, n: nat, junk: nat -> Byte)
    requires FitsEntries(rs) && FitsEntries([r]) && n < |PutEntry(r, [])|
    ensures GetEntries(PutEntries(rs, PutEntry(r, [])[..n]), junk) ==
            if 0 < n < 8 && CutSize(|PutRecord(r, [])|, n, junk) == 0 then Broken else Records(CanonicalRecords(rs))
  {
    hide FitsRecord, PutRecord, CanonicalRecord, GetEntries, CutSize, PutEntry;
    GetPutEntries(rs, PutEntry(r, [])[..n], junk);
    assert CanonicalRecords(rs) + [] == CanonicalRecords(rs);
    assert [r][0] == r;
    CutEntry(r, n, junk);
  }

  lemma CutEntry(r: WalRecord, n: nat, junk: nat -> Byte)
    requires FitsRecord(r) && |PutRecord(r, [])| < Pow256(8) && n < |PutEntry(r, [])|
    ensures GetEntries(PutEntry(r, [])[..n], junk) ==
            if 0 < n < 8 && CutSize(|PutRecord(r, [])|, n, junk) == 0 then Broken else Records([])
  {
    hide FitsRecord, PutRecord;
    var tail := PutEntry(r, [])[..n];
    var size := |PutRecord(r, [])|;
    if 0 < n < 8 {
      assert tail == LittleEndian(size, 8)[..n];
    } else if 8 <= n {
      assert tail[..8] == LittleEndian(size, 8);
      ValueOf(size, 8);
      assert GetLoose(8, tail, junk) == Got(size, tail[8..]);
    }
  }

  // ---- Records appended behind a cut ----

  // Reading on behind a size field.
  function ReadOn(size: nat, s: Bytes, junk: nat -> Byte): LogFile {
    if |s| < size then Records([])
    else
      match GetRecord(s, junk)
      case Short => Broken
      case Got(r, s') => Before(r, GetEntries(s', junk))
  }

  // Flushing after a reopening appends to the file, cut tail included. Behind a cut between two records the
  // new ones are read as written; behind one inside a record their bytes are read as the missing bytes of
  // that record, or of its size field.
  lemma AppendedAfterCut(rs: seq<WalRecord>, r: WalRecord, n: nat, more: seq<WalRecord>, junk: nat -> Byte)
    requires FitsEntries(rs) && FitsEntries([r]) && FitsEntries(more) && more != [] && n < |PutEntry(r, [])|
    ensures var written, size := PutEntries(more, []), |PutRecord(r, [])|;
      |written| >= 8 &&
      GetEntries(PutEntries(rs, PutEntry(r, [])[..n] + written), junk) == BeforeAll(CanonicalRecords(rs),
        if n == 0 then Records(CanonicalRecords(more))
        else if n < 8 then ReadOn(Value(LittleEndian(size, 8)[..n] + written[..8 - n]), written[8 - n..], junk)
        else ReadOn(size, PutRecord(r, [])[..n - 8] + written, junk))
  {
    hide FitsRecord, PutRecord, CanonicalRecord, GetEntries, GetRecord, Pow256, LittleEndian, Codec.Value, PutEntries, ReadOn, PutEntry;
    var written, size := PutEntries(more, []), |PutRecord(r, [])|;
    var cut := PutEntry(r, [])[..n];
    GetPutEntries(rs, cut + written, junk);
    assert [r][0] == r;
    EntryParts(r);
    FirstWritten(more);
    if n == 0 {
      assert cut + written == written;
      GetPutEntries(more, [], junk);
      NoEntries(junk);
      assert CanonicalRecords(more) + [] == CanonicalRecords(more);
    } else if n < 8 {
      assert cut == LittleEndian(size, 8)[..n];
      ReadsOn(cut + written[..8 - n], written[8 - n..], junk);
      assert cut + written == (cut + written[..8 - n]) + written[8 - n..];
    } else {
      var torn := PutRecord(r, [])[..n - 8];
      assert cut == LittleEndian(size, 8) + torn;
      ReadsOn(LittleEndian(size, 8), torn + written, junk);
      assert cut + written == LittleEndian(size, 8) + (torn + written);
      ValueOf(size, 8);
    }
  }

  lemma EntryParts(r: WalRecord)
    ensures PutEntry(r, []) == LittleEndian(|PutRecord(r, [])|, 8) + PutRecord(r, [])
  {
    hide PutRecord, LittleEndian;
  }

  lemma FirstWritten(more: seq<WalRecord>)
    requires more != []
    ensures |PutEntries(more, [])| >= 8
  {
    hide PutRecord, LittleEndian;
  }

  lemma NoEntries(junk: nat -> Byte)
    ensures GetEntries([], junk) == Records([])
  {
  }

  lemma ReadsOn(field: Bytes, s: Bytes, junk: nat -> Byte)
    requires |field| == 8
    ensures GetEntries(field + s, junk) == ReadOn(Codec.Value(field), s, junk)
  {
    hide GetRecord, Codec.Value;
    assert (field + s)[..8] == field && (field + s)[8..] == s;
  }

  // As long as they do not make up for the bytes missing from a torn record, appended records are lost.
  lemma AppendedLost(rs: seq<WalRecord>, r: WalRecord, n: nat, more: seq<WalRecord>, junk: nat -> Byte)
    requires FitsEntries(rs) && FitsEntries([r]) && FitsEntries(more) && more != []
    requires 8 <= n < |PutEntry(r, [])| && n + |PutEntries(more, [])| < |PutEntry(r, [])|
    ensures GetEntries(PutEntries(rs, PutEntry(r, [])[..n] + PutEntries(more, [])), junk) == Records(CanonicalRecords(rs))
  {
    hide FitsEntries, PutRecord, PutEntries, GetEntries, CanonicalRecords;
    AppendedAfterCut(rs, r, n, more, junk);
    assert CanonicalRecords(rs) + [] == CanonicalRecords(rs);
  }
}
