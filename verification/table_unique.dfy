/**
 What a unique index refuses and lets through, in terms of the rows of the table.
 */
module TableUniques {
  import opened Types
  import opened Values
  import opened BTreeModel
  import opened BTreeOrder
  import opened BTreeInvariant
  import opened BTreeEquals
  import opened TablePages
  import opened TableRows
  import opened TableIndexes

  // A unique index that already leads to a row that is not obsolete refuses the new one.
  function RowObsolete(pages: map<PageId, TablePage>, p: RowPtr): bool {
    p.0 in pages && match FirstWithId(pages[p.0].rows, p.1) case Some(row) => row.obsolete case None => false
  }

  predicate Blocks(idx: TableIndex, x: Located, pages: map<PageId, TablePage>)
    requires Shaped(idx.tree)
  {
    && idx.isUnique && Indexed(x.1, idx.column)
    && var found := Find(idx.tree, x.1.tokens[idx.column]); found.Some? && !RowObsolete(pages, found.value)
  }

  // Both rows have the same value in the column, and it is not NULL.
  predicate Agree(a: TableRow, b: TableRow, column: nat) {
    column < |a.tokens| && column < |b.tokens| && a.tokens[column] == b.tokens[column] && a.tokens[column] != Null
  }

  // Some row of the table holds the new row's value in the column; live or obsolete, as asked.
  ghost predicate HeldBy(ls: seq<Located>, row: TableRow, column: nat, obsolete: bool) {
    exists y :: y in ls && y.1.obsolete == obsolete && Agree(y.1, row, column)
  }

  lemma EntryOfCovered(idx: TableIndex, ls: seq<Located>, e: Entry)
    requires Covers(idx, ls) && Shaped(idx.tree) && e in Entries(idx.tree)
    ensures exists y :: y in ls && Indexed(y.1, idx.column) && EntryOf(y, idx.column) == e
  {
    hide Entries, EntriesFor, WellFormed, LiveEntries;
    assert e in multiset(Entries(idx.tree));
    assert e in multiset(EntriesFor(ls, idx.column));
    EntryOrigin(ls, idx.column, e);
  }

  // A refusal is due to a live row with the value.
  lemma RefusedFor(idx: TableIndex, x: Located, ls: seq<Located>, pages: map<PageId, TablePage>)
    requires Covers(idx, ls) && Shaped(idx.tree) && Lists(ls, pages) && IdsApart(ls) && Blocks(idx, x, pages)
    ensures idx.isUnique && HeldBy(ls, x.1, idx.column, false)
  {
    hide Entries, WellFormed, Covers, Lists, IdsApart, Find;
    TreeOrdered(idx, ls);
    var v := x.1.tokens[idx.column];
    FindCorrect(idx.tree, v);
    var p := Find(idx.tree, v).value;
    EntryOfCovered(idx, ls, (v, p));
    var y :| y in ls && Indexed(y.1, idx.column) && EntryOf(y, idx.column) == (v, p);
    ResolveOwn(ls, pages, y);
    OwnObsolete(ls, pages, y);
    assert Agree(y.1, x.1, idx.column);
  }

  lemma TreeOrdered(idx: TableIndex, ls: seq<Located>)
    requires Covers(idx, ls)
    ensures Shaped(idx.tree) && Ordered(idx.tree)
  {
    WellFormedParts(idx.tree, idx.lastPage, MAX_KEYS, MAX_KEYS);
  }

  // With ids apart, a row's own pointer tells whether it is obsolete.
  lemma OwnObsolete(ls: seq<Located>, pages: map<PageId, TablePage>, y: Located)
    requires Lists(ls, pages) && IdsApart(ls) && y in ls
    ensures RowObsolete(pages, (y.0, y.1.id)) == y.1.obsolete
  {
    FirstWithIdIs(pages[y.0].rows, y.1.id);
    var first := FirstWithId(pages[y.0].rows, y.1.id);
    if first.Some? {
      assert (y.0, first.value) in ls;
      Same(ls, y, (y.0, first.value));
    }
  }

  // What is let through has no live row with the value, unless an obsolete version holds it too.
  lemma AcceptedFor(idx: TableIndex, x: Located, ls: seq<Located>, pages: map<PageId, TablePage>)
    requires Covers(idx, ls) && Shaped(idx.tree) && Lists(ls, pages) && IdsApart(ls)
    requires idx.isUnique && !Blocks(idx, x, pages) && HeldBy(ls, x.1, idx.column, false)
    ensures HeldBy(ls, x.1, idx.column, true)
  {
    hide Entries, WellFormed, Covers, Lists, IdsApart, Find;
    TreeOrdered(idx, ls);
    var y :| y in ls && !y.1.obsolete && Agree(y.1, x.1, idx.column);
    var v := x.1.tokens[idx.column];
    LiveIsEntered(idx, ls, y);
    FindCorrect(idx.tree, v);
    var p := Find(idx.tree, v).value;
    EntryOfCovered(idx, ls, (v, p));
    var z :| z in ls && Indexed(z.1, idx.column) && EntryOf(z, idx.column) == (v, p);
    OwnObsolete(ls, pages, z);
    assert Agree(z.1, x.1, idx.column);
  }

  lemma LiveIsEntered(idx: TableIndex, ls: seq<Located>, y: Located)
    requires Covers(idx, ls) && Shaped(idx.tree) && y in ls && !y.1.obsolete && Indexed(y.1, idx.column)
    ensures HasKey(Entries(idx.tree), y.1.tokens[idx.column])
  {
    hide Entries, WellFormed, EntriesFor;
    LiveMember(ls, y);
    EntryThere(LiveOf(ls), idx.column, y);
    assert EntryOf(y, idx.column) in multiset(LiveEntries(ls, idx.column));
    assert EntryOf(y, idx.column) in multiset(Entries(idx.tree));
  }

  // How a live row can be overlooked: of 65 versions with the value, find leads to the 33rd. Once that one is
  // obsolete the value is let in again, though the newest may be live.
  lemma OverlooksLive(idx: TableIndex, v: Value, rows: seq<RowPtr>, x: Located, pages: map<PageId, TablePage>)
    requires |rows| == MAX_KEYS + 1 && idx.tree == Built(Under(v, rows), MAX_KEYS, MAX_KEYS).0
    requires idx.column < |x.1.tokens| && x.1.tokens[idx.column] == v && RowObsolete(pages, rows[32])
    ensures Shaped(idx.tree) && !Blocks(idx, x, pages)
  {
    hide Built, Find;
    FindsOlder(v, rows, MAX_KEYS, MAX_KEYS);
  }

  // ---- Distinct live values ----

  // No two live rows share a value in the column of a unique index.
  ghost predicate UniqueValues(ls: seq<Located>, indexes: seq<TableIndex>) {
    forall i | 0 <= i < |indexes| && indexes[i].isUnique :: UniqueIn(ls, indexes[i].column)
  }

  ghost predicate UniqueIn(ls: seq<Located>, column: nat) {
    forall x, y | x in ls && y in ls && !x.1.obsolete && !y.1.obsolete && Agree(x.1, y.1, column) :: x == y
  }

  ghost predicate NoneObsolete(ls: seq<Located>) {
    forall x | x in ls :: !x.1.obsolete
  }

  lemma UniqueAdded(ls: seq<Located>, ls': seq<Located>, x: Located, column: nat)
    requires Spliced(ls, ls', x) && UniqueIn(ls, column) && !HeldBy(ls, x.1, column, false)
    ensures UniqueIn(ls', column)
  {
    hide Agree;
    SplicedIn(ls, ls', x);
    forall y, z | y in ls' && z in ls' && !y.1.obsolete && !z.1.obsolete && Agree(y.1, z.1, column) ensures y == z {
      AgreeBack(y.1, z.1, column);
    }
  }

  lemma AgreeBack(a: TableRow, b: TableRow, column: nat)
    requires Agree(a, b, column)
    ensures Agree(b, a, column)
  {
  }

  lemma SplicedIn<T>(ls: seq<T>, ls': seq<T>, x: T)
    requires Spliced(ls, ls', x)
    ensures forall y: T :: y in ls' ==> y in ls || y == x
    ensures forall y: T :: y in ls ==> y in ls'
  {
    var n :| 0 <= n <= |ls| && ls' == ls[..n] + [x] + ls[n..];
    assert ls == ls[..n] + ls[n..];
  }

  // Fewer live rows share no more.
  lemma UniqueFewer(ls: seq<Located>, ls': seq<Located>, column: nat)
    requires UniqueIn(ls, column) && forall x | x in LiveOf(ls') :: x in LiveOf(ls)
    ensures UniqueIn(ls', column)
  {
    hide Agree;
    forall x ensures (x in LiveOf(ls) <==> x in ls && !x.1.obsolete) && (x in LiveOf(ls') <==> x in ls' && !x.1.obsolete) {
      LiveMember(ls, x);
      LiveMember(ls', x);
    }
  }
}
