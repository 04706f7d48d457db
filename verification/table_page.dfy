/**
 Data pages as tables use them: rows of typed values, the next page of the table's chain, the
 accounted size and the largest row id noted.
 */
module TablePages {
  import opened Types
  import opened Values

  datatype TableRow = TableRow(id: nat, obsolete: bool, tokens: seq<Value>)

  datatype TablePage = TablePage(rows: seq<TableRow>, next: Option<PageId>, size: nat, maxRid: nat, lastLsn: nat)

  const MAX_SIZE: nat := 32768
  const HEADER_SIZE: nat := 80

  const NEW_PAGE: TablePage := TablePage([], None, HEADER_SIZE, 0, 0)

  // The page is there, and takes size more bytes without growing over 32 KiB.
  predicate HasRoom(m: map<PageId, TablePage>, p: PageId, size: nat) {
    p in m && m[p].size + size <= 32 * 1024
  }

  ghost predicate FirstAt(m: map<PageId, TablePage>, ids: seq<PageId>, p: PageId, size: nat) {
    exists i :: 0 <= i < |ids| && ids[i] == p && HasRoom(m, p, size) && forall j | 0 <= j < i :: !HasRoom(m, ids[j], size)
  }

  // The first listed page with room for size more bytes.
  function FirstFit(m: map<PageId, TablePage>, ids: seq<PageId>, size: nat): (fit: Option<PageId>)
    ensures fit.Some? ==> fit.value in ids && fit.value in m
  {
    if ids == [] then None
    else if ids[0] in m && m[ids[0]].size + size <= MAX_SIZE then Some(ids[0])
    else FirstFit(m, ids[1..], size)
  }

  lemma {:induction false} FirstFitIs(m: map<PageId, TablePage>, ids: seq<PageId>, size: nat)
    ensures match FirstFit(m, ids, size)
      case Some(p) => FirstAt(m, ids, p, size)
      case None => forall j | 0 <= j < |ids| :: !HasRoom(m, ids[j], size)
  {
    if ids != [] && !HasRoom(m, ids[0], size) {
      FirstFitIs(m, ids[1..], size);
      var fit := FirstFit(m, ids[1..], size);
      if fit.Some? {
        var i :| 0 <= i < |ids[1..]| && ids[1..][i] == fit.value && HasRoom(m, fit.value, size)
                 && forall j | 0 <= j < i :: !HasRoom(m, ids[1..][j], size);
        forall j | 0 <= j < i + 1 ensures !HasRoom(m, ids[j], size) {
          assert j > 0 ==> ids[j] == ids[1..][j - 1];
        }
        assert ids[i + 1] == fit.value;
      } else {
        forall j | 0 <= j < |ids| ensures !HasRoom(m, ids[j], size) {
          assert j > 0 ==> ids[j] == ids[1..][j - 1];
        }
      }
    }
  }
}
