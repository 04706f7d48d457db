/**
 The byte format of data pages and index files. The last page number of an index file is not
 written.
 */
module StorageCodec {
  import opened Types
  import opened Codec

  datatype StoredPage = StoredPage(id: PageId, next: PageId, tableId: Uuid, minRid: nat, maxRid: nat, lastLsn: nat, rows: seq<Row>)

  datatype StoredNode =
    | StoredInternal(keys: seq<DataToken>, children: seq<nat>)
    | StoredLeaf(keys: seq<DataToken>, rows: seq<(PageId, nat)>, next: nat)

  datatype StoredIndexPage = StoredIndexPage(id: nat, parent: nat, indexId: Uuid, node: StoredNode)

  datatype StoredIndex = StoredIndex(indexId: Uuid, rootPage: nat, lastPage: nat, lastLsn: nat, pages: seq<StoredIndexPage>)

  // ---- Data pages ----

  function PutRows(rs: seq<Row>, rest: Bytes): Bytes {
    if rs == [] then rest else PutRow(rs[0], PutRows(rs[1..], rest))
  }

  function GetRows(n: nat, s: Bytes): Read<seq<Row>> {
    if n == 0 then Got([], s)
    else
      var (r, s) :- GetRow(s);
      var (rs, s) :- GetRows(n - 1, s);
      Got([r] + rs, s)
  }

  function CanonicalRows(rs: seq<Row>): seq<Row> {
    seq(|rs|, i requires 0 <= i < |rs| => CanonicalRow(rs[i]))
  }

  ghost predicate FitsRows(rs: seq<Row>) {
    |rs| < Pow256(8) && forall i | 0 <= i < |rs| :: FitsRow(rs[i])
  }

  lemma {:induction false} GetPutRows(rs: seq<Row>, rest: Bytes)
    requires FitsRows(rs)
    ensures GetRows(|rs|, PutRows(rs, rest)) == Got(CanonicalRows(rs), rest)
  {
    hide Pow256, GetRow, PutRow, CanonicalRow, FitsRow;
    if rs == [] {
      assert CanonicalRows(rs) == [];
    } else {
      GetPutRows(rs[1..], rest);
      GetPutRow(rs[0], PutRows(rs[1..], rest));
      assert CanonicalRows(rs) == [CanonicalRow(rs[0])] + CanonicalRows(rs[1..]);
    }
  }

  ghost predicate FitsPage(p: StoredPage) {
    && p.id < Pow256(16) && p.next < Pow256(16) && p.tableId < Pow256(16)
    && p.minRid < Pow256(8) && p.maxRid < Pow256(8) && p.lastLsn < Pow256(8) && FitsRows(p.rows)
  }

  function PutPage(p: StoredPage, rest: Bytes): Bytes {
    Put(p.id, 16, Put(p.next, 16, Put(p.tableId, 16, Put(p.minRid, 8, Put(p.maxRid, 8,
      Put(|p.rows|, 8, Put(p.lastLsn, 8, PutRows(p.rows, rest))))))))
  }

  function GetPage(s: Bytes): Read<StoredPage> {
    var (id, s) :- Get(16, s);
    var (next, s) :- Get(16, s);
    var (tableId, s) :- Get(16, s);
    var (minRid, s) :- Get(8, s);
    var (maxRid, s) :- Get(8, s);
    var (count, s) :- Get(8, s);
    var (lastLsn, s) :- Get(8, s);
    var (rows, s) :- GetRows(count, s);
    Got(StoredPage(id, next, tableId, minRid, maxRid, lastLsn, rows), s)
  }

  // Reading undoes writing and stops where the page ends, whatever follows.
  lemma GetPutPage(p: StoredPage, rest: Bytes)
    requires FitsPage(p)
    ensures GetPage(PutPage(p, rest)) == Got(p.(rows := CanonicalRows(p.rows)), rest)
  {
    hide Pow256, Put, Get, PutRows, GetRows, CanonicalRows, FitsRows;
    var s7 := PutRows(p.rows, rest);
    var s6 := Put(p.lastLsn, 8, s7);
    var s5 := Put(|p.rows|, 8, s6);
    var s4 := Put(p.maxRid, 8, s5);
    var s3 := Put(p.minRid, 8, s4);
    var s2 := Put(p.tableId, 16, s3);
    GetPut(p.id, 16, Put(p.next, 16, s2));
    GetPut(p.next, 16, s2);
    GetPut(p.tableId, 16, s3);
    GetPut(p.minRid, 8, s4);
    GetPut(p.maxRid, 8, s5);
    RowCount(p.rows);
    GetPut(|p.rows|, 8, s6);
    GetPut(p.lastLsn, 8, s7);
    GetPutRows(p.rows, rest);
  }

  lemma RowCount(rs: seq<Row>)
    requires FitsRows(rs)
    ensures |rs| < Pow256(8)
  {
  }

  // ---- Index files ----

  function PutNumbers(ns: seq<nat>, rest: Bytes): Bytes {
    if ns == [] then rest else Put(ns[0], 8, PutNumbers(ns[1..], rest))
  }

  function GetNumbers(n: nat, s: Bytes): Read<seq<nat>> {
    if n == 0 then Got([], s)
    else
      var (v, s) :- Get(8, s);
      var (vs, s) :- GetNumbers(n - 1, s);
      Got([v] + vs, s)
  }

  ghost predicate FitsNumbers(ns: seq<nat>) {
    |ns| < Pow256(8) && forall i | 0 <= i < |ns| :: ns[i] < Pow256(8)
  }

  lemma {:induction false} GetPutNumbers(ns: seq<nat>, rest: Bytes)
    requires FitsNumbers(ns)
    ensures GetNumbers(|ns|, PutNumbers(ns, rest)) == Got(ns, rest)
  {
    hide Pow256, Get, Put;
    if ns != [] {
      assert ns == [ns[0]] + ns[1..];
      GetPutNumbers(ns[1..], rest);
      GetPut(ns[0], 8, PutNumbers(ns[1..], rest));
    }
  }

  function PutPointers(ps: seq<(PageId, nat)>, rest: Bytes): Bytes {
    if ps == [] then rest else Put(ps[0].0, 16, Put(ps[0].1, 8, PutPointers(ps[1..], rest)))
  }

  function GetPointers(n: nat, s: Bytes): Read<seq<(PageId, nat)>> {
    if n == 0 then Got([], s)
    else
      var (page, s) :- Get(16, s);
      var (row, s) :- Get(8, s);
      var (ps, s) :- GetPointers(n - 1, s);
      Got([(page, row)] + ps, s)
  }

  ghost predicate FitsPointers(ps: seq<(PageId, nat)>) {
    |ps| < Pow256(8) && forall i | 0 <= i < |ps| :: ps[i].0 < Pow256(16) && ps[i].1 < Pow256(8)
  }

  lemma {:induction false} GetPutPointers(ps: seq<(PageId, nat)>, rest: Bytes)
    requires FitsPointers(ps)
    ensures GetPointers(|ps|, PutPointers(ps, rest)) == Got(ps, rest)
  {
    hide Pow256, Get, Put;
    if ps != [] {
      assert ps == [(ps[0].0, ps[0].1)] + ps[1..];
      GetPutPointers(ps[1..], rest);
      GetPut(ps[0].0, 16, Put(ps[0].1, 8, PutPointers(ps[1..], rest)));
      GetPut(ps[0].1, 8, PutPointers(ps[1..], rest));
    }
  }

  ghost predicate FitsNode(n: StoredNode) {
    FitsTokens(n.keys) && match n
      case StoredInternal(_, children) => FitsNumbers(children)
      case StoredLeaf(_, rows, next) => FitsPointers(rows) && next < Pow256(8)
  }

  function PutNode(n: StoredNode, rest: Bytes): Bytes {
    match n
    case StoredInternal(keys, children) =>
      Put(|keys|, 8, PutTokens(keys, Put(|children|, 8, PutNumbers(children, rest))))
    case StoredLeaf(keys, rows, next) =>
      Put(|keys|, 8, PutTokens(keys, Put(|rows|, 8, PutPointers(rows, Put(next, 8, rest)))))
  }

  function GetNode(isLeaf: bool, s: Bytes): Read<StoredNode> {
    var (keyCount, s) :- Get(8, s);
    var (keys, s) :- GetTokens(keyCount, s);
    var (count, s) :- Get(8, s);
    if isLeaf then
      var (rows, s) :- GetPointers(count, s);
      var (next, s) :- Get(8, s);
      Got(StoredLeaf(keys, rows, next), s)
    else
      var (children, s) :- GetNumbers(count, s);
      Got(StoredInternal(keys, children), s)
  }

  function CanonicalNode(n: StoredNode): StoredNode {
    n.(keys := CanonicalTokens(n.keys))
  }

  lemma GetPutNode(n: StoredNode, rest: Bytes)
    requires FitsNode(n)
    ensures GetNode(n.StoredLeaf?, PutNode(n, rest)) == Got(CanonicalNode(n), rest)
  {
    hide Pow256, Get, Put, PutTokens, GetTokens, CanonicalTokens, PutNumbers, GetNumbers, PutPointers, GetPointers;
    match n
    case StoredInternal(keys, children) =>
      var tail := Put(|children|, 8, PutNumbers(children, rest));
      GetPut(|keys|, 8, PutTokens(keys, tail));
      GetPutTokens(keys, tail);
      GetPut(|children|, 8, PutNumbers(children, rest));
      GetPutNumbers(children, rest);
    case StoredLeaf(keys, rows, next) =>
      var tail := Put(|rows|, 8, PutPointers(rows, Put(next, 8, rest)));
      GetPut(|keys|, 8, PutTokens(keys, tail));
      GetPutTokens(keys, tail);
      GetPut(|rows|, 8, PutPointers(rows, Put(next, 8, rest)));
      GetPutPointers(rows, Put(next, 8, rest));
      GetPut(next, 8, rest);
  }

  ghost predicate FitsIndexPage(p: StoredIndexPage) {
    p.id < Pow256(8) && p.parent < Pow256(8) && p.indexId < Pow256(16) && FitsNode(p.node)
  }

  function PutIndexPage(p: StoredIndexPage, rest: Bytes): Bytes {
    Put(p.id, 8, Put(p.parent, 8, Put(p.indexId, 16, Put(if p.node.StoredLeaf? then 1 else 0, 1, PutNode(p.node, rest)))))
  }

  function GetIndexPage(s: Bytes): Read<StoredIndexPage> {
    var (id, s) :- Get(8, s);
    var (parent, s) :- Get(8, s);
    var (indexId, s) :- Get(16, s);
    var (isLeaf, s) :- Get(1, s);
    var (node, s) :- GetNode(isLeaf != 0, s);
    Got(StoredIndexPage(id, parent, indexId, node), s)
  }

  function CanonicalIndexPage(p: StoredIndexPage): StoredIndexPage {
    p.(node := CanonicalNode(p.node))
  }

  lemma GetPutIndexPage(p: StoredIndexPage, rest: Bytes)
    requires FitsIndexPage(p)
    ensures GetIndexPage(PutIndexPage(p, rest)) == Got(CanonicalIndexPage(p), rest)
  {
    var flag := if p.node.StoredLeaf? then 1 else 0;
    assert flag < Pow256(1);
    hide Pow256, Get, Put, PutNode, GetNode, CanonicalNode, FitsNode;
    var s3 := PutNode(p.node, rest);
    var s2 := Put(flag, 1, s3);
    var s1 := Put(p.indexId, 16, s2);
    GetPut(p.id, 8, Put(p.parent, 8, s1));
    GetPut(p.parent, 8, s1);
    GetPut(p.indexId, 16, s2);
    GetPut(flag, 1, s3);
    GetPutNode(p.node, rest);
  }

  function PutIndexPages(ps: seq<StoredIndexPage>, rest: Bytes): Bytes {
    if ps == [] then rest else PutIndexPage(ps[0], PutIndexPages(ps[1..], rest))
  }

  function GetIndexPages(n: nat, s: Bytes): Read<seq<StoredIndexPage>> {
    if n == 0 then Got([], s)
    else
      var (p, s) :- GetIndexPage(s);
      var (ps, s) :- GetIndexPages(n - 1, s);
      Got([p] + ps, s)
  }

  function CanonicalIndexPages(ps: seq<StoredIndexPage>): seq<StoredIndexPage> {
    seq(|ps|, i requires 0 <= i < |ps| => CanonicalIndexPage(ps[i]))
  }

  lemma {:induction false} GetPutIndexPages(ps: seq<StoredIndexPage>, rest: Bytes)
    requires forall i | 0 <= i < |ps| :: FitsIndexPage(ps[i])
    ensures GetIndexPages(|ps|, PutIndexPages(ps, rest)) == Got(CanonicalIndexPages(ps), rest)
  {
    hide GetIndexPage, PutIndexPage, CanonicalIndexPage, FitsIndexPage;
    if ps == [] {
      assert CanonicalIndexPages(ps) == [];
    } else {
      GetPutIndexPages(ps[1..], rest);
      GetPutIndexPage(ps[0], PutIndexPages(ps[1..], rest));
      assert CanonicalIndexPages(ps) == [CanonicalIndexPage(ps[0])] + CanonicalIndexPages(ps[1..]);
    }
  }

  ghost predicate FitsIndexFile(f: StoredIndex) {
    && f.indexId < Pow256(16) && f.rootPage < Pow256(8) && f.lastLsn < Pow256(8) && |f.pages| < Pow256(8)
    && forall i | 0 <= i < |f.pages| :: FitsIndexPage(f.pages[i])
  }

  function PutIndexFile(f: StoredIndex, rest: Bytes): Bytes {
    Put(f.indexId, 16, Put(f.rootPage, 8, Put(f.lastLsn, 8, Put(|f.pages|, 8, PutIndexPages(f.pages, rest)))))
  }

  // The last page number keeps its initial value, 0.
  function GetIndexFile(s: Bytes): Read<StoredIndex> {
    var (indexId, s) :- Get(16, s);
    var (rootPage, s) :- Get(8, s);
    var (lastLsn, s) :- Get(8, s);
    var (count, s) :- Get(8, s);
    var (pages, s) :- GetIndexPages(count, s);
    Got(StoredIndex(indexId, rootPage, 0, lastLsn, pages), s)
  }

  lemma GetPutIndexFile(f: StoredIndex, rest: Bytes)
    requires FitsIndexFile(f)
    ensures GetIndexFile(PutIndexFile(f, rest)) == Got(f.(lastPage := 0, pages := CanonicalIndexPages(f.pages)), rest)
  {
    hide Pow256, Put, Get, PutIndexPages, GetIndexPages, CanonicalIndexPages, FitsIndexPage;
    var s3 := PutIndexPages(f.pages, rest);
    var s2 := Put(|f.pages|, 8, s3);
    var s1 := Put(f.lastLsn, 8, s2);
    GetPut(f.indexId, 16, Put(f.rootPage, 8, s1));
    GetPut(f.rootPage, 8, s1);
    GetPut(f.lastLsn, 8, s2);
    GetPut(|f.pages|, 8, s3);
    GetPutIndexPages(f.pages, rest);
  }

  // An index file survives being written and read back exactly when no page was ever numbered and
  // its keys hold no bytes that are not written.
  lemma IndexFileSurvives(f: StoredIndex, rest: Bytes)
    requires FitsIndexFile(f)
    ensures GetIndexFile(PutIndexFile(f, rest)) == Got(f, rest) <==> f.lastPage == 0 && CanonicalIndexPages(f.pages) == f.pages
  {
    hide PutIndexFile, GetIndexFile, CanonicalIndexPages;
    GetPutIndexFile(f, rest);
  }
}
