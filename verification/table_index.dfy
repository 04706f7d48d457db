/**
 What the indexes of a table hold, and what looking their entries up yields.
 */
module TableIndexes {
  import opened Types
  import opened Values
  import opened BTreeModel
  import opened BTreeInvariant
  import opened TablePages
  import opened TableRows

  const MAX_KEYS: nat := 64

  datatype TableIndex = TableIndex(id: Uuid, column: nat, isUnique: bool, tree: Tree, lastPage: nat)

  // The index covers every live row with a value in its column, and otherwise only row versions of
  // the table, each under its own value.
  ghost predicate Covers(idx: TableIndex, ls: seq<Located>) {
    && WellFormed(idx.tree, idx.lastPage, MAX_KEYS, MAX_KEYS)
    && multiset(LiveEntries(ls, idx.column)) <= multiset(Entries(idx.tree)) <= multiset(EntriesFor(ls, idx.column))
  }

  // The index after the row has been put into it.
  function WithRow(idx: TableIndex, x: Located): TableIndex
    requires Shaped(idx.tree)
  {
    if Indexed(x.1, idx.column) then
      var e := EntryOf(x, idx.column);
      var (tree, lastPage) := Rooted(Insert(idx.tree, e.0, e.1, idx.lastPage, MAX_KEYS, MAX_KEYS));
      idx.(tree := tree, lastPage := lastPage)
    else idx
  }

  lemma WithRowEntries(idx: TableIndex, x: Located)
    requires WellFormed(idx.tree, idx.lastPage, MAX_KEYS, MAX_KEYS)
    ensures var idx' := WithRow(idx, x);
      && WellFormed(idx'.tree, idx'.lastPage, MAX_KEYS, MAX_KEYS) && idx'.column == idx.column
      && multiset(Entries(idx'.tree)) == multiset(Entries(idx.tree)) + multiset(EntryOne(x, idx.column))
  {
    hide WellFormed, Insert, Rooted, Entries, Spliced;
    WellFormedParts(idx.tree, idx.lastPage, MAX_KEYS, MAX_KEYS);
    if Indexed(x.1, idx.column) {
      var e := EntryOf(x, idx.column);
      InsertKeeps(idx.tree, e.0, e.1, idx.lastPage, MAX_KEYS, MAX_KEYS);
      WellFormedParts(WithRow(idx, x).tree, WithRow(idx, x).lastPage, MAX_KEYS, MAX_KEYS);
      SplicedMultiset(Entries(idx.tree), Entries(WithRow(idx, x).tree), e);
    }
  }

  // An index that takes in each new row keeps covering the table.
  lemma CoversAdded(idx: TableIndex, ls: seq<Located>, ls': seq<Located>, x: Located)
    requires Covers(idx, ls) && Spliced(ls, ls', x)
    ensures Shaped(idx.tree) && Covers(WithRow(idx, x), ls')
  {
    hide WellFormed, Entries, LiveOf, EntriesFor, LiveEntries, LiveOne, EntryOne, Spliced, WithRow;
    WellFormedParts(idx.tree, idx.lastPage, MAX_KEYS, MAX_KEYS);
    WithRowEntries(idx, x);
    var idx' := WithRow(idx, x);
    WellFormedParts(idx'.tree, idx'.lastPage, MAX_KEYS, MAX_KEYS);
    AddedEffect(ls, ls', x, idx.column);
    AddedLiveEntries(ls, ls', x, idx.column);
    OneEntries(x, idx.column);
    assert multiset(EntriesFor(LiveOne(x), idx.column)) <= multiset(EntryOne(x, idx.column));
  }

  // Hiding a row leaves its entry behind.
  lemma CoversHidden(idx: TableIndex, ls: seq<Located>, ls': seq<Located>, x: Located)
    requires Covers(idx, ls) && HiddenAt(ls, ls', x) && !x.1.obsolete
    ensures Covers(idx, ls')
  {
    hide WellFormed, Entries, LiveOf, EntriesFor, LiveEntries, LiveOne, EntryOne, HiddenAt;
    WellFormedParts(idx.tree, idx.lastPage, MAX_KEYS, MAX_KEYS);
    HiddenEffect(ls, ls', x, idx.column);
    HiddenLiveEntries(ls, ls', x, idx.column);
  }

  // ---- Looking entries up ----

  // No two row versions on one page share an id.
  ghost predicate IdsApart(ls: seq<Located>) {
    forall i, j | 0 <= i < j < |ls| :: !(ls[i].0 == ls[j].0 && ls[i].1.id == ls[j].1.id)
  }

  ghost predicate Taken(ls: seq<Located>, x: Located) {
    exists y :: y in ls && y.0 == x.0 && y.1.id == x.1.id
  }

  // A row more keeps the ids of its page apart exactly when its id is not taken there.
  lemma AddedApart(ls: seq<Located>, ls': seq<Located>, x: Located)
    requires Spliced(ls, ls', x) && IdsApart(ls)
    ensures IdsApart(ls') <==> !Taken(ls, x)
  {
    hide IdsApart;
    var n :| 0 <= n <= |ls| && ls' == ls[..n] + [x] + ls[n..];
    if y :| y in ls && y.0 == x.0 && y.1.id == x.1.id {
      var i :| 0 <= i < |ls| && ls[i] == y;
      assert ls'[n] == x && ls'[if i < n then i else i + 1] == y;
      Clash(ls', if i < n then i else n, if i < n then n else i + 1);
    } else {
      NotTakenApart(ls, n, x);
    }
  }

  lemma Clash(ls: seq<Located>, i: nat, j: nat)
    requires i < j < |ls| && ls[i].0 == ls[j].0 && ls[i].1.id == ls[j].1.id
    ensures !IdsApart(ls)
  {
  }

  lemma NotTakenApart(ls: seq<Located>, n: nat, x: Located)
    requires n <= |ls| && IdsApart(ls) && !Taken(ls, x)
    ensures IdsApart(ls[..n] + [x] + ls[n..])
  {
    var ls' := ls[..n] + [x] + ls[n..];
    forall i: nat | i < |ls| ensures !(ls[i].0 == x.0 && ls[i].1.id == x.1.id) {
      assert ls[i] in ls;
    }
    forall i, j | 0 <= i < j < |ls'| ensures !(ls'[i].0 == ls'[j].0 && ls'[i].1.id == ls'[j].1.id) {
      var a, b := if i < n then i else i - 1, if j < n then j else j - 1;
      assert i != n ==> ls'[i] == ls[a];
      assert j != n ==> ls'[j] == ls[b];
    }
  }

  lemma HiddenApart(ls: seq<Located>, ls': seq<Located>, x: Located)
    requires HiddenAt(ls, ls', x) && IdsApart(ls)
    ensures IdsApart(ls')
  {
    var n :| 0 <= n < |ls| && ls[n] == x && ls' == ls[..n] + [Hidden(x)] + ls[n + 1..];
    forall i | 0 <= i < |ls| ensures ls'[i].0 == ls[i].0 && ls'[i].1.id == ls[i].1.id {
    }
  }

  // All ids are below the next one an insert gives out.
  ghost predicate Below(ls: seq<Located>, next: nat) {
    forall x | x in ls :: x.1.id < next
  }

  // Ids stay distinct through inserts as long as no update has used the counter's value.
  lemma InsertApart(ls: seq<Located>, ls': seq<Located>, x: Located, next: nat)
    requires Spliced(ls, ls', x) && IdsApart(ls) && Below(ls, next) && x.1.id == next
    ensures IdsApart(ls') && Below(ls', next + 1)
  {
    hide IdsApart;
    AddedApart(ls, ls', x);
    var n :| 0 <= n <= |ls| && ls' == ls[..n] + [x] + ls[n..];
  }

  // An update's new version has an id above all others.
  lemma UpdateApart(ls: seq<Located>, mid: seq<Located>, ls': seq<Located>, x: Located, y: Located, lastRid: nat)
    requires HiddenAt(ls, mid, x) && Spliced(mid, ls', y) && y.1.id == lastRid + 1 && forall z | z in ls :: z.1.id <= lastRid
    requires IdsApart(ls)
    ensures IdsApart(ls')
  {
    hide IdsApart;
    HiddenApart(ls, mid, x);
    var n :| 0 <= n < |ls| && ls[n] == x && mid == ls[..n] + [Hidden(x)] + ls[n + 1..];
    forall z | z in mid ensures z.1.id <= lastRid {
      assert z in ls || z == Hidden(x);
    }
    AddedApart(mid, ls', y);
  }

  // After an insert (id 0), an update of that row (new id 2) and one more insert, two row versions
  // share id 2: the pointers of both lead to the older one, and the newer one is never found.
  lemma InsertAfterUpdateRepeats(p: PageId, a: Value, b: Value, c: Value)
    requires b != c
    ensures var rows := [TableRow(0, true, [a]), TableRow(2, false, [b])];
      var ls := OnPage(p, rows);
      var x := (p, TableRow(2, false, [c]));
      var pages := map[p := TablePage(rows + [x.1], None, HEADER_SIZE, 2, 0)];
      && IdsApart(ls) && Spliced(ls, ls + [x], x) && !IdsApart(ls + [x])
      && ResolveAll(pages, [(p, 2), (p, 2)]) == [(p, rows[1]), (p, rows[1])]
  {
    var rows := [TableRow(0, true, [a]), TableRow(2, false, [b])];
    var ls := OnPage(p, rows);
    var x := (p, TableRow(2, false, [c]));
    assert ls + [x] == ls[..2] + [x] + ls[2..];
    assert ls[1].1.id == 2 && ls[1] in ls && Taken(ls, x);
    AddedApart(ls, ls + [x], x);
    var pages := map[p := TablePage(rows + [x.1], None, HEADER_SIZE, 2, 0)];
    assert (rows + [x.1])[1..] == [rows[1], x.1];
    assert FirstWithId(rows + [x.1], 2) == Some(rows[1]);
    assert Resolve(pages, (p, 2)) == [(p, rows[1])];
    assert [(p, 2), (p, 2)][1..] == [(p, 2)];
    assert ResolveAll(pages, [(p, 2)]) == [(p, rows[1])];
  }

  function FirstWithId(rows: seq<TableRow>, id: nat): Option<TableRow> {
    if rows == [] then None
    else if rows[0].id == id then Some(rows[0])
    else FirstWithId(rows[1..], id)
  }

  // The live row a pointer leads to: the first of its page with the id, unless that one is obsolete.
  function Resolve(pages: map<PageId, TablePage>, p: RowPtr): seq<Located> {
    if p.0 !in pages then []
    else
      match FirstWithId(pages[p.0].rows, p.1)
      case None => []
      case Some(row) => if row.obsolete then [] else [(p.0, row)]
  }

  function ResolveAll(pages: map<PageId, TablePage>, ps: seq<RowPtr>): seq<Located> {
    if ps == [] then [] else Resolve(pages, ps[0]) + ResolveAll(pages, ps[1..])
  }

  // ls lists the rows of the pages.
  ghost predicate Lists(ls: seq<Located>, pages: map<PageId, TablePage>) {
    forall x: Located :: x in ls <==> x.0 in pages && x.1 in pages[x.0].rows
  }

  lemma {:induction false} AllRowsMembers(pages: map<PageId, TablePage>, ids: seq<PageId>, x: Located)
    requires forall p | p in ids :: p in pages
    ensures x in AllRows(pages, ids) <==> x.0 in ids && x.1 in pages[x.0].rows
  {
    if ids != [] {
      AllRowsMembers(pages, ids[1..], x);
      OnPageMembers(ids[0], pages[ids[0]].rows, x);
      assert ids == [ids[0]] + ids[1..];
    }
  }

  lemma OnPageMembers(p: PageId, rows: seq<TableRow>, x: Located)
    ensures x in OnPage(p, rows) <==> x.0 == p && x.1 in rows
  {
    if x.0 == p && x.1 in rows {
      var i :| 0 <= i < |rows| && rows[i] == x.1;
      assert OnPage(p, rows)[i] == x;
    }
  }

  lemma {:induction false} FirstWithIdIs(rows: seq<TableRow>, id: nat)
    ensures match FirstWithId(rows, id)
      case Some(row) => row in rows && row.id == id
      case None => forall row | row in rows :: row.id != id
  {
    if rows != [] && rows[0].id != id {
      FirstWithIdIs(rows[1..], id);
    }
  }

  lemma Same(ls: seq<Located>, x: Located, y: Located)
    requires IdsApart(ls) && x in ls && y in ls && x.0 == y.0 && x.1.id == y.1.id
    ensures x == y
  {
    var i :| 0 <= i < |ls| && ls[i] == x;
    var j :| 0 <= j < |ls| && ls[j] == y;
    if i < j {
    } else if j < i {
    }
  }

  lemma HeadApart(ls: seq<Located>, x: Located)
    requires IdsApart(ls) && ls != [] && x in ls[1..]
    ensures !(x.0 == ls[0].0 && x.1.id == ls[0].1.id)
  {
    var j :| 0 <= j < |ls[1..]| && ls[1..][j] == x;
    assert ls[j + 1] == x;
  }

  // A row's own pointer leads to it exactly when it is live.
  lemma ResolveOwn(ls: seq<Located>, pages: map<PageId, TablePage>, x: Located)
    requires Lists(ls, pages) && IdsApart(ls) && x in ls
    ensures Resolve(pages, (x.0, x.1.id)) == LiveOne(x)
  {
    hide IdsApart;
    FirstWithIdIs(pages[x.0].rows, x.1.id);
    var y := FirstWithId(pages[x.0].rows, x.1.id);
    if y.Some? {
      assert (x.0, y.value) in ls;
      Same(ls, x, (x.0, y.value));
    }
  }

  lemma {:induction false} EntryOrigin(ls: seq<Located>, column: nat, e: Entry)
    requires e in EntriesFor(ls, column)
    ensures exists x :: x in ls && Indexed(x.1, column) && EntryOf(x, column) == e
  {
    if Indexed(ls[0].1, column) && EntryOf(ls[0], column) == e {
      assert ls[0] in ls;
    } else {
      EntryOrigin(ls[1..], column, e);
      var x :| x in ls[1..] && Indexed(x.1, column) && EntryOf(x, column) == e;
      assert x in ls;
    }
  }

  lemma {:induction false} EntryThere(ls: seq<Located>, column: nat, x: Located)
    requires x in ls && Indexed(x.1, column)
    ensures EntryOf(x, column) in EntriesFor(ls, column)
  {
    if ls[0] != x {
      assert x in ls[1..];
      EntryThere(ls[1..], column, x);
    }
  }

  lemma {:induction false} EntryOnce(ls: seq<Located>, column: nat, e: Entry)
    requires IdsApart(ls)
    ensures multiset(EntriesFor(ls, column))[e] <= 1
  {
    if ls != [] {
      var rest := EntriesFor(ls[1..], column);
      EntryOnce(ls[1..], column, e);
      if Indexed(ls[0].1, column) {
        var own := EntryOf(ls[0], column);
        assert EntriesFor(ls, column) == [own] + rest;
        if own == e && e in rest {
          EntryOrigin(ls[1..], column, e);
          var x :| x in ls[1..] && Indexed(x.1, column) && EntryOf(x, column) == e;
          HeadApart(ls, x);
        }
        assert multiset(rest)[e] > 0 <==> e in rest;
      }
    }
  }

  // Rows with a value in the column.
  function WithValue(ls: seq<Located>, column: nat): seq<Located> {
    if ls == [] then []
    else if Indexed(ls[0].1, column) then [ls[0]] + WithValue(ls[1..], column)
    else WithValue(ls[1..], column)
  }

  // How often looking up a sequence of entries yields row x: as often as its entry occurs.
  lemma {:induction false} ResolveCount(ls: seq<Located>, pages: map<PageId, TablePage>, column: nat, es: seq<Entry>, x: Located)
    requires Lists(ls, pages) && IdsApart(ls)
    requires forall e | e in es :: e in EntriesFor(ls, column)
    ensures multiset(ResolveAll(pages, Pointers(es)))[x]
         == if x in ls && !x.1.obsolete && Indexed(x.1, column) then multiset(es)[EntryOf(x, column)] else 0
  {
    hide Lists, IdsApart, Resolve, EntriesFor;
    if es == [] {
    } else {
      var e, rest := es[0], es[1..];
      ResolveCount(ls, pages, column, rest, x);
      EntryOrigin(ls, column, e);
      var y :| y in ls && Indexed(y.1, column) && EntryOf(y, column) == e;
      ResolveOwn(ls, pages, y);
      assert Pointers(es)[1..] == Pointers(rest);
      assert ResolveAll(pages, Pointers(es)) == LiveOne(y) + ResolveAll(pages, Pointers(rest));
      assert es == [e] + rest;
      if x in ls && Indexed(x.1, column) && EntryOf(x, column) == e {
        Same(ls, x, y);
      }
    }
  }

  lemma {:induction false} LiveMember(ls: seq<Located>, x: Located)
    ensures x in LiveOf(ls) <==> x in ls && !x.1.obsolete
  {
    if ls != [] {
      LiveMember(ls[1..], x);
      assert ls == [ls[0]] + ls[1..];
    }
  }

  lemma {:induction false} WithValueCount(ls: seq<Located>, column: nat, x: Located)
    ensures multiset(WithValue(ls, column))[x] == if Indexed(x.1, column) then multiset(ls)[x] else 0
  {
    if ls != [] {
      WithValueCount(ls[1..], column, x);
      assert ls == [ls[0]] + ls[1..];
    }
  }

  lemma {:induction false} LiveCount(ls: seq<Located>, x: Located)
    ensures multiset(LiveOf(ls))[x] == if x.1.obsolete then 0 else multiset(ls)[x]
  {
    if ls != [] {
      LiveCount(ls[1..], x);
      assert ls == [ls[0]] + ls[1..];
    }
  }

  lemma {:induction false} ApartOnce(ls: seq<Located>, x: Located)
    requires IdsApart(ls)
    ensures multiset(ls)[x] == if x in ls then 1 else 0
  {
    if ls != [] {
      ApartOnce(ls[1..], x);
      assert ls == [ls[0]] + ls[1..];
      if x in ls[1..] {
        HeadApart(ls, x);
      }
    }
  }

  // Looking up every entry of a covering index yields each live row with a value exactly once, and
  // nothing stale, whatever order the entries stand in.
  lemma LookupExact(ls: seq<Located>, pages: map<PageId, TablePage>, idx: TableIndex)
    requires Lists(ls, pages) && IdsApart(ls) && Covers(idx, ls)
    ensures Shaped(idx.tree)
    ensures multiset(ResolveAll(pages, Pointers(Entries(idx.tree)))) == multiset(WithValue(LiveOf(ls), idx.column))
  {
    hide Lists, IdsApart, WellFormed, LiveOf, EntriesFor, WithValue, ResolveAll, Entries;
    WellFormedParts(idx.tree, idx.lastPage, MAX_KEYS, MAX_KEYS);
    var es := Entries(idx.tree);
    forall e | e in es ensures e in EntriesFor(ls, idx.column) {
      assert e in multiset(es);
    }
    forall x: Located
      ensures multiset(ResolveAll(pages, Pointers(es)))[x] == multiset(WithValue(LiveOf(ls), idx.column))[x]
    {
      ResolveCount(ls, pages, idx.column, es, x);
      WithValueCount(LiveOf(ls), idx.column, x);
      LiveCount(ls, x);
      ApartOnce(ls, x);
      if x in ls && !x.1.obsolete && Indexed(x.1, idx.column) {
        LiveMember(ls, x);
        EntryThere(LiveOf(ls), idx.column, x);
        EntryOnce(ls, idx.column, EntryOf(x, idx.column));
        assert EntryOf(x, idx.column) in multiset(LiveEntries(ls, idx.column));
      }
    }
  }
}
