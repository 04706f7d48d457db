/**
 The rows of a table as one sequence over its pages, what is live in it, and what its indexes should
 hold.
 */
module TableRows {
  import opened Types
  import opened Values
  import opened BTreeModel
  import opened TablePages

  // A row version and the page it is on.
  type Located = (PageId, TableRow)

  function OnPage(p: PageId, rows: seq<TableRow>): seq<Located> {
    seq(|rows|, i requires 0 <= i < |rows| => (p, rows[i]))
  }

  // The row versions of the listed pages, page by page.
  function AllRows(pages: map<PageId, TablePage>, ids: seq<PageId>): seq<Located>
    requires forall p | p in ids :: p in pages
  {
    if ids == [] then [] else OnPage(ids[0], pages[ids[0]].rows) + AllRows(pages, ids[1..])
  }

  function LiveOf(ls: seq<Located>): seq<Located> {
    if ls == [] then []
    else if ls[0].1.obsolete then LiveOf(ls[1..])
    else [ls[0]] + LiveOf(ls[1..])
  }

  // The index entries of rows: their value in the column, unless it is NULL.
  function EntriesFor(ls: seq<Located>, column: nat): seq<Entry> {
    if ls == [] then []
    else if Indexed(ls[0].1, column) then [EntryOf(ls[0], column)] + EntriesFor(ls[1..], column)
    else EntriesFor(ls[1..], column)
  }

  predicate Indexed(row: TableRow, column: nat) {
    column < |row.tokens| && !row.tokens[column].Null?
  }

  function EntryOf(l: Located, column: nat): Entry
    requires Indexed(l.1, column)
  {
    (l.1.tokens[column], (l.0, l.1.id))
  }

  function Tokens(ls: seq<Located>): seq<seq<Value>> {
    seq(|ls|, i requires 0 <= i < |ls| => ls[i].1.tokens)
  }

  function Hidden(x: Located): Located {
    (x.0, x.1.(obsolete := true))
  }

  ghost predicate HiddenAt(ls: seq<Located>, ls': seq<Located>, x: Located) {
    exists n :: 0 <= n < |ls| && ls[n] == x && ls' == ls[..n] + [Hidden(x)] + ls[n + 1..]
  }

  lemma {:induction false} LiveConcat(a: seq<Located>, b: seq<Located>)
    ensures LiveOf(a + b) == LiveOf(a) + LiveOf(b)
  {
    if a == [] {
      assert a + b == b;
    } else {
      assert (a + b)[1..] == a[1..] + b;
      LiveConcat(a[1..], b);
    }
  }

  lemma {:induction false} EntriesConcat(a: seq<Located>, b: seq<Located>, column: nat)
    ensures EntriesFor(a + b, column) == EntriesFor(a, column) + EntriesFor(b, column)
  {
    if a == [] {
      assert a + b == b;
    } else {
      assert (a + b)[1..] == a[1..] + b;
      EntriesConcat(a[1..], b, column);
    }
  }

  lemma {:induction false} RowsConcat(pages: map<PageId, TablePage>, a: seq<PageId>, b: seq<PageId>)
    requires forall p | p in a + b :: p in pages
    ensures forall p | p in a :: p in pages
    ensures forall p | p in b :: p in pages
    ensures AllRows(pages, a + b) == AllRows(pages, a) + AllRows(pages, b)
  {
    assert forall p | p in a :: p in a + b;
    assert forall p | p in b :: p in a + b;
    if a == [] {
      assert a + b == b;
    } else {
      assert (a + b)[1..] == a[1..] + b;
      RowsConcat(pages, a[1..], b);
    }
  }

  function LiveOne(x: Located): seq<Located> {
    if x.1.obsolete then [] else [x]
  }

  function EntryOne(x: Located, column: nat): seq<Entry> {
    if Indexed(x.1, column) then [EntryOf(x, column)] else []
  }

  // What a row in the middle contributes.
  lemma Middle(a: seq<Located>, x: Located, b: seq<Located>, column: nat)
    ensures LiveOf(a + [x] + b) == LiveOf(a) + LiveOne(x) + LiveOf(b)
    ensures EntriesFor(a + [x] + b, column) == EntriesFor(a, column) + EntryOne(x, column) + EntriesFor(b, column)
  {
    LiveConcat(a + [x], b);
    LiveConcat(a, [x]);
    EntriesConcat(a + [x], b, column);
    EntriesConcat(a, [x], column);
  }

  lemma SplitRows(ls: seq<Located>, n: nat, column: nat)
    requires n <= |ls|
    ensures LiveOf(ls) == LiveOf(ls[..n]) + LiveOf(ls[n..])
    ensures EntriesFor(ls, column) == EntriesFor(ls[..n], column) + EntriesFor(ls[n..], column)
  {
    assert ls == ls[..n] + ls[n..];
    LiveConcat(ls[..n], ls[n..]);
    EntriesConcat(ls[..n], ls[n..], column);
  }

  lemma AddedEffect(ls: seq<Located>, ls': seq<Located>, x: Located, column: nat)
    requires Spliced(ls, ls', x)
    ensures |ls'| == |ls| + 1 && multiset(ls') == multiset(ls) + multiset{x}
    ensures multiset(LiveOf(ls')) == multiset(LiveOf(ls)) + multiset(LiveOne(x))
    ensures multiset(EntriesFor(ls', column)) == multiset(EntriesFor(ls, column)) + multiset(EntryOne(x, column))
  {
    hide LiveOf, EntriesFor, LiveOne, EntryOne;
    var n :| 0 <= n <= |ls| && ls' == ls[..n] + [x] + ls[n..];
    assert ls == ls[..n] + ls[n..];
    SplitRows(ls, n, column);
    Middle(ls[..n], x, ls[n..], column);
  }

  lemma HiddenEffect(ls: seq<Located>, ls': seq<Located>, x: Located, column: nat)
    requires HiddenAt(ls, ls', x) && !x.1.obsolete
    ensures |ls'| == |ls| && multiset(ls) == multiset(ls') - multiset{Hidden(x)} + multiset{x}
    ensures multiset(LiveOf(ls)) == multiset(LiveOf(ls')) + multiset{x}
    ensures EntriesFor(ls', column) == EntriesFor(ls, column)
  {
    hide LiveOf, EntriesFor;
    var n :| 0 <= n < |ls| && ls[n] == x && ls' == ls[..n] + [Hidden(x)] + ls[n + 1..];
    assert ls == ls[..n] + [x] + ls[n + 1..];
    Middle(ls[..n], x, ls[n + 1..], column);
    Middle(ls[..n], Hidden(x), ls[n + 1..], column);
    assert EntryOne(Hidden(x), column) == EntryOne(x, column);
  }

  // ---- One page changes ----

  lemma {:induction false} OthersSame(pages: map<PageId, TablePage>, pages': map<PageId, TablePage>, ids: seq<PageId>)
    requires forall p | p in ids :: p in pages && p in pages' && pages'[p].rows == pages[p].rows
    ensures AllRows(pages', ids) == AllRows(pages, ids)
  {
    if ids != [] {
      OthersSame(pages, pages', ids[1..]);
    }
  }

  ghost predicate NoRepeats(ids: seq<PageId>) {
    forall i, j | 0 <= i < j < |ids| :: ids[i] != ids[j]
  }

  // The rows around those of one page.
  lemma RowsAround(pages: map<PageId, TablePage>, ids: seq<PageId>, i: nat)
    requires (forall p | p in ids :: p in pages) && i < |ids|
    ensures (forall p | p in ids[..i] :: p in pages) && (forall p | p in ids[i + 1..] :: p in pages)
    ensures AllRows(pages, ids) == AllRows(pages, ids[..i]) + OnPage(ids[i], pages[ids[i]].rows) + AllRows(pages, ids[i + 1..])
  {
    assert ids == ids[..i] + ([ids[i]] + ids[i + 1..]);
    RowsConcat(pages, ids[..i], [ids[i]] + ids[i + 1..]);
    assert ([ids[i]] + ids[i + 1..])[1..] == ids[i + 1..];
  }

  lemma PageChange(pages: map<PageId, TablePage>, pages': map<PageId, TablePage>, ids: seq<PageId>, i: nat)
    requires NoRepeats(ids) && i < |ids| && (forall p | p in ids :: p in pages && p in pages')
    requires forall p | p in ids && p != ids[i] :: pages'[p].rows == pages[p].rows
    ensures (forall p | p in ids[..i] :: p in pages) && (forall p | p in ids[i + 1..] :: p in pages)
    ensures AllRows(pages', ids) == AllRows(pages, ids[..i]) + OnPage(ids[i], pages'[ids[i]].rows) + AllRows(pages, ids[i + 1..])
  {
    RowsAround(pages', ids, i);
    RowsAround(pages, ids, i);
    OthersSame(pages, pages', ids[..i]);
    OthersSame(pages, pages', ids[i + 1..]);
  }

  lemma IndexIn(ids: seq<PageId>, p: PageId) returns (i: nat)
    requires p in ids
    ensures i < |ids| && ids[i] == p
  {
    i :| i < |ids| && ids[i] == p;
  }

  // A row appended to one page is one row more in the table.
  lemma RowAppended(pages: map<PageId, TablePage>, pages': map<PageId, TablePage>, ids: seq<PageId>, p: PageId, row: TableRow)
    requires NoRepeats(ids) && p in ids && (forall q | q in ids :: q in pages && q in pages')
    requires forall q | q in ids && q != p :: pages'[q].rows == pages[q].rows
    requires pages'[p].rows == pages[p].rows + [row]
    ensures Spliced(AllRows(pages, ids), AllRows(pages', ids), (p, row))
  {
    hide AllRows;
    var i := IndexIn(ids, p);
    PageChange(pages, pages', ids, i);
    RowsAround(pages, ids, i);
    var a, b := AllRows(pages, ids[..i]), AllRows(pages, ids[i + 1..]);
    var on := OnPage(p, pages[p].rows);
    assert OnPage(p, pages'[p].rows) == on + [(p, row)];
    var ls, n := AllRows(pages, ids), |a| + |on|;
    assert ls == a + on + b;
    assert ls[..n] == a + on && ls[n..] == b;
    assert AllRows(pages', ids) == ls[..n] + [(p, row)] + ls[n..];
  }

  // Marking the k-th row of a page hides that row version.
  lemma RowHidden(pages: map<PageId, TablePage>, pages': map<PageId, TablePage>, ids: seq<PageId>, p: PageId, k: nat)
    requires NoRepeats(ids) && p in ids && (forall q | q in ids :: q in pages && q in pages')
    requires forall q | q in ids && q != p :: pages'[q].rows == pages[q].rows
    requires k < |pages[p].rows| && pages'[p].rows == pages[p].rows[k := pages[p].rows[k].(obsolete := true)]
    ensures HiddenAt(AllRows(pages, ids), AllRows(pages', ids), (p, pages[p].rows[k]))
  {
    hide AllRows;
    var i := IndexIn(ids, p);
    PageChange(pages, pages', ids, i);
    RowsAround(pages, ids, i);
    var a, b := AllRows(pages, ids[..i]), AllRows(pages, ids[i + 1..]);
    var on, on' := OnPage(p, pages[p].rows), OnPage(p, pages'[p].rows);
    HiddenInPage(a, on, on', b, p, pages[p].rows, k);
  }

  lemma HiddenInPage(a: seq<Located>, on: seq<Located>, on': seq<Located>, b: seq<Located>, p: PageId, rows: seq<TableRow>, k: nat)
    requires k < |rows| && on == OnPage(p, rows) && on' == OnPage(p, rows[k := rows[k].(obsolete := true)])
    ensures HiddenAt(a + on + b, a + on' + b, (p, rows[k]))
  {
    var ls, n, x := a + on + b, |a| + k, (p, rows[k]);
    assert ls[n] == x;
    assert on' == on[..k] + [Hidden(x)] + on[k + 1..];
    assert ls[..n] == a + on[..k];
    assert ls[n + 1..] == on[k + 1..] + b;
    assert a + on' + b == ls[..n] + [Hidden(x)] + ls[n + 1..];
  }

  // A new, empty page adds no row.
  lemma PageAppended(pages: map<PageId, TablePage>, pages': map<PageId, TablePage>, ids: seq<PageId>, p: PageId)
    requires (forall q | q in ids :: q in pages && q in pages' && pages'[q].rows == pages[q].rows)
    requires p in pages' && pages'[p].rows == []
    ensures AllRows(pages', ids + [p]) == AllRows(pages, ids)
  {
    RowsConcat(pages', ids, [p]);
    OthersSame(pages, pages', ids);
    assert AllRows(pages', [p]) == [];
  }

  // ---- The order of the pages does not matter ----

  lemma BagWithout<T>(a: seq<T>, b: seq<T>, i: nat)
    requires a != [] && multiset(a) == multiset(b) && i < |b| && b[i] == a[0]
    ensures multiset(a[1..]) == multiset(b[..i] + b[i + 1..])
  {
    assert a == [a[0]] + a[1..];
    assert b == b[..i] + ([b[i]] + b[i + 1..]);
    assert multiset(b) == multiset(b[..i]) + multiset([b[i]] + b[i + 1..]);
    assert multiset([b[i]] + b[i + 1..]) == multiset([b[i]]) + multiset(b[i + 1..]);
    assert multiset([a[0]] + a[1..]) == multiset([a[0]]) + multiset(a[1..]);
    assert multiset(b[..i] + b[i + 1..]) == multiset(b[..i]) + multiset(b[i + 1..]);
    assert multiset(a) - multiset([a[0]]) == multiset(a[1..]);
    assert multiset(b) - multiset([a[0]]) == multiset(b[..i]) + multiset(b[i + 1..]);
  }

  lemma {:induction false} SameBag(pages: map<PageId, TablePage>, a: seq<PageId>, b: seq<PageId>)
    requires (forall p | p in a :: p in pages) && (forall p | p in b :: p in pages)
    requires multiset(a) == multiset(b)
    ensures multiset(AllRows(pages, a)) == multiset(AllRows(pages, b))
    ensures multiset(LiveOf(AllRows(pages, a))) == multiset(LiveOf(AllRows(pages, b)))
    decreases |a|
  {
    hide LiveOf, OnPage;
    if a == [] {
      assert |multiset(b)| == 0;
    } else {
      assert a[0] in multiset(b);
      var i := IndexIn(b, a[0]);
      BagWithout(a, b, i);
      forall p | p in b[..i] + b[i + 1..] ensures p in b {
      }
      SameBag(pages, a[1..], b[..i] + b[i + 1..]);
      RowsAround(pages, b, i);
      RowsConcat(pages, b[..i], b[i + 1..]);
      Shuffle(OnPage(a[0], pages[a[0]].rows), AllRows(pages, a[1..]), AllRows(pages, b[..i]), AllRows(pages, b[i + 1..]));
    }
  }

  lemma Shuffle(on: seq<Located>, rest: seq<Located>, x: seq<Located>, z: seq<Located>)
    requires multiset(rest) == multiset(x + z) && multiset(LiveOf(rest)) == multiset(LiveOf(x + z))
    ensures multiset(on + rest) == multiset(x + on + z)
    ensures multiset(LiveOf(on + rest)) == multiset(LiveOf(x + on + z))
  {
    hide LiveOf;
    LiveParts(x, on, z);
    LiveConcat(on, rest);
  }

  lemma LiveParts(x: seq<Located>, y: seq<Located>, z: seq<Located>)
    ensures LiveOf(x + y + z) == LiveOf(x) + LiveOf(y) + LiveOf(z)
    ensures LiveOf(x + z) == LiveOf(x) + LiveOf(z)
  {
    LiveConcat(x + y, z);
    LiveConcat(x, y);
    LiveConcat(x, z);
  }

  // ---- The entries of live rows ----

  function LiveEntries(ls: seq<Located>, column: nat): seq<Entry> {
    EntriesFor(LiveOf(ls), column)
  }

  lemma LiveEntriesMiddle(a: seq<Located>, x: Located, b: seq<Located>, column: nat)
    ensures LiveEntries(a + [x] + b, column)
         == LiveEntries(a, column) + EntriesFor(LiveOne(x), column) + LiveEntries(b, column)
  {
    hide LiveOf, EntriesFor;
    Middle(a, x, b, column);
    EntriesConcat(LiveOf(a) + LiveOne(x), LiveOf(b), column);
    EntriesConcat(LiveOf(a), LiveOne(x), column);
  }

  lemma AddedLiveEntries(ls: seq<Located>, ls': seq<Located>, x: Located, column: nat)
    requires Spliced(ls, ls', x)
    ensures multiset(LiveEntries(ls', column)) == multiset(LiveEntries(ls, column)) + multiset(EntriesFor(LiveOne(x), column))
  {
    hide LiveOf, EntriesFor, LiveOne;
    var n :| 0 <= n <= |ls| && ls' == ls[..n] + [x] + ls[n..];
    SplitRows(ls, n, column);
    EntriesConcat(LiveOf(ls[..n]), LiveOf(ls[n..]), column);
    LiveEntriesMiddle(ls[..n], x, ls[n..], column);
  }

  lemma HiddenLiveEntries(ls: seq<Located>, ls': seq<Located>, x: Located, column: nat)
    requires HiddenAt(ls, ls', x) && !x.1.obsolete
    ensures multiset(LiveEntries(ls, column)) == multiset(LiveEntries(ls', column)) + multiset(EntryOne(x, column))
  {
    hide LiveOf, EntriesFor;
    var n :| 0 <= n < |ls| && ls[n] == x && ls' == ls[..n] + [Hidden(x)] + ls[n + 1..];
    assert ls == ls[..n] + [x] + ls[n + 1..];
    LiveEntriesMiddle(ls[..n], x, ls[n + 1..], column);
    LiveEntriesMiddle(ls[..n], Hidden(x), ls[n + 1..], column);
    OneEntries(x, column);
    OneEntries(Hidden(x), column);
  }

  lemma OneEntries(x: Located, column: nat)
    ensures EntriesFor(LiveOne(x), column) == if x.1.obsolete then [] else EntryOne(x, column)
  {
  }
}
