/**
 A table: its pages and their chain, its row counters, its indexes, and the statements that change
 them.
 */
module TableStores {
  import opened Types
  import opened Values
  import opened TokenBytes
  import opened BTreeModel
  import opened BTreeOrder
  import opened BTreeInvariant
  import opened TablePages
  import opened TableRows
  import opened TableIndexes
  import opened TableStatements
  import opened TableUniques

  // ---- The page chain ----

  ghost predicate NextIs(pages: map<PageId, TablePage>, chain: seq<PageId>, i: nat)
    requires i < |chain|
  {
    chain[i] in pages && pages[chain[i]].next == if i + 1 < |chain| then Some(chain[i + 1]) else None
  }

  // Each page of the chain names the next; the last names none.
  ghost predicate ChainOk(pages: map<PageId, TablePage>, chain: seq<PageId>) {
    forall i: nat | i < |chain| :: NextIs(pages, chain, i)
  }

  // The chain visits every listed page exactly once.
  ghost predicate PagesOk(pages: map<PageId, TablePage>, ids: seq<PageId>, chain: seq<PageId>) {
    && NoRepeats(ids) && (forall p | p in ids :: p in pages) && (forall p | p in pages :: p in ids)
    && multiset(chain) == multiset(ids) && ChainOk(pages, chain)
  }

  lemma SameIds(ids: seq<PageId>, chain: seq<PageId>)
    requires multiset(chain) == multiset(ids)
    ensures forall p :: p in chain <==> p in ids
    ensures |chain| == |ids| && (NoRepeats(ids) ==> NoRepeats(chain))
  {
    forall p ensures p in chain <==> p in ids {
      assert p in multiset(chain) <==> p in multiset(ids);
    }
    assert |multiset(chain)| == |multiset(ids)|;
    if NoRepeats(ids) {
      forall i, j | 0 <= i < j < |chain| ensures chain[i] != chain[j] {
        if chain[i] == chain[j] {
          TwiceInBag(chain, i, j);
          OnceInBag(ids, chain[i]);
        }
      }
    }
  }

  lemma TwiceInBag(s: seq<PageId>, i: nat, j: nat)
    requires i < j < |s| && s[i] == s[j]
    ensures multiset(s)[s[i]] >= 2
  {
    assert s == s[..j] + ([s[j]] + s[j + 1..]);
    assert multiset(s) == multiset(s[..j]) + multiset([s[j]] + s[j + 1..]);
    assert s[i] in s[..j];
    assert multiset(s[..j])[s[i]] >= 1;
    assert ([s[j]] + s[j + 1..])[0] == s[i];
    assert multiset([s[j]] + s[j + 1..])[s[i]] >= 1;
  }

  lemma {:induction false} OnceInBag(s: seq<PageId>, x: PageId)
    requires NoRepeats(s)
    ensures multiset(s)[x] <= 1
  {
    if s != [] {
      OnceInBag(s[1..], x);
      assert s == [s[0]] + s[1..];
      assert multiset(s) == multiset([s[0]]) + multiset(s[1..]);
      if x == s[0] {
        assert forall j | 0 <= j < |s[1..]| :: s[1..][j] == s[j + 1] != s[0];
        assert x !in s[1..];
        assert multiset(s[1..])[x] == 0;
      }
    }
  }

  // The last page of the chain is the only one without a next page.
  lemma TailIs(pages: map<PageId, TablePage>, ids: seq<PageId>, chain: seq<PageId>, p: PageId)
    requires PagesOk(pages, ids, chain) && p in ids
    ensures chain != [] && (pages[p].next == None <==> p == chain[|chain| - 1])
  {
    SameIds(ids, chain);
    var i: nat :| i < |chain| && chain[i] == p;
    assert NextIs(pages, chain, i);
  }

  // No listed page names p as its next.
  ghost predicate Unnamed(pages: map<PageId, TablePage>, ids: seq<PageId>, p: PageId)
    requires forall q | q in ids :: q in pages
  {
    forall q | q in ids :: pages[q].next != Some(p)
  }

  // A page that no page names is the first of the chain.
  lemma HeadIs(pages: map<PageId, TablePage>, ids: seq<PageId>, chain: seq<PageId>, p: PageId)
    requires PagesOk(pages, ids, chain) && p in ids
    ensures chain != [] && (p == chain[0] <==> Unnamed(pages, ids, p))
  {
    SameIds(ids, chain);
    var i: nat :| i < |chain| && chain[i] == p;
    if i == 0 {
      forall q | q in ids ensures pages[q].next != Some(p) {
        var j: nat :| j < |chain| && chain[j] == q;
        assert NextIs(pages, chain, j);
      }
    } else {
      assert NextIs(pages, chain, i - 1);
      assert chain[i - 1] in ids;
    }
  }

  // Changing rows keeps the chain.
  lemma RowsKeepChain(pages: map<PageId, TablePage>, pages': map<PageId, TablePage>, ids: seq<PageId>, chain: seq<PageId>)
    requires PagesOk(pages, ids, chain) && pages'.Keys == pages.Keys
    requires forall p | p in pages :: pages'[p].next == pages[p].next
    ensures PagesOk(pages', ids, chain)
  {
    forall i: nat | i < |chain| ensures NextIs(pages', chain, i) {
      assert NextIs(pages, chain, i);
    }
    assert forall p | p in pages' :: p in pages.Keys;
    assert forall p | p in ids :: p in pages'.Keys;
  }

  // A new page linked behind the last one.
  lemma PageLinked(pages: map<PageId, TablePage>, pages': map<PageId, TablePage>, ids: seq<PageId>, chain: seq<PageId>, p: PageId)
    requires PagesOk(pages, ids, chain) && p !in pages
    requires pages' == Linked(pages, if chain == [] then None else Some(chain[|chain| - 1]), p)
    ensures PagesOk(pages', ids + [p], chain + [p])
    ensures forall q | q in ids :: q in pages' && pages'[q].rows == pages[q].rows
  {
    SameIds(ids, chain);
    var chain' := chain + [p];
    forall i: nat | i < |chain'| ensures NextIs(pages', chain', i) {
      if i < |chain| {
        assert NextIs(pages, chain, i);
        assert i < |chain| - 1 ==> chain[i] != chain[|chain| - 1];
      }
    }
  }

  function Linked(pages: map<PageId, TablePage>, tail: Option<PageId>, p: PageId): map<PageId, TablePage> {
    if tail.Some? && tail.value in pages then
      pages[p := NEW_PAGE][tail.value := pages[tail.value].(next := Some(p))]
    else pages[p := NEW_PAGE]
  }

  // ---- Rows and counters ----

  ghost predicate RowsOk(ls: seq<Located>, lastRid: nat, totalRows: nat, liveRows: nat, indexes: seq<TableIndex>) {
    && totalRows == |ls| && liveRows == |LiveOf(ls)|
    && (forall x | x in ls :: x.1.id <= lastRid)
    && forall i | 0 <= i < |indexes| :: Covers(indexes[i], ls)
  }

  ghost predicate AllShaped(indexes: seq<TableIndex>) {
    forall i | 0 <= i < |indexes| :: Shaped(indexes[i].tree)
  }

  ghost predicate NoneBlocks(indexes: seq<TableIndex>, x: Located, pages: map<PageId, TablePage>)
    requires AllShaped(indexes)
  {
    forall i | 0 <= i < |indexes| :: !Blocks(indexes[i], x, pages)
  }

  ghost predicate Extended(indexes: seq<TableIndex>, indexes': seq<TableIndex>, x: Located)
    requires AllShaped(indexes)
  {
    |indexes'| == |indexes| && forall i | 0 <= i < |indexes| :: indexes'[i] == WithRow(indexes[i], x)
  }

  lemma CoversShaped(indexes: seq<TableIndex>, ls: seq<Located>)
    requires forall i | 0 <= i < |indexes| :: Covers(indexes[i], ls)
    ensures AllShaped(indexes)
  {
    forall i | 0 <= i < |indexes| ensures Shaped(indexes[i].tree) {
      WellFormedParts(indexes[i].tree, indexes[i].lastPage, MAX_KEYS, MAX_KEYS);
    }
  }

  lemma RowsAdded(ls: seq<Located>, ls': seq<Located>, x: Located, lastRid: nat, lastRid': nat, total: nat, live: nat,
                  indexes: seq<TableIndex>, indexes': seq<TableIndex>)
    requires RowsOk(ls, lastRid, total, live, indexes) && Spliced(ls, ls', x) && !x.1.obsolete
    requires x.1.id <= lastRid' && lastRid <= lastRid'
    requires AllShaped(indexes) && Extended(indexes, indexes', x)
    ensures RowsOk(ls', lastRid', total + 1, live + 1, indexes')
  {
    hide Covers, LiveOf, WithRow;
    AddedEffect(ls, ls', x, 0);
    AddedMembers(ls, ls', x);
    assert |LiveOf(ls')| == |multiset(LiveOf(ls'))|;
    forall i | 0 <= i < |indexes'| ensures Covers(indexes'[i], ls') {
      CoversAdded(indexes[i], ls, ls', x);
    }
  }

  lemma InsertIds(ls: seq<Located>, ls': seq<Located>, x: Located, lastRid: nat)
    requires Spliced(ls, ls', x) && x.1.id == lastRid
    ensures IdsApart(ls) ==> (IdsApart(ls') <==> !Taken(ls, x))
    ensures IdsApart(ls) && Below(ls, lastRid) ==> IdsApart(ls') && Below(ls', lastRid + 1)
  {
    hide Spliced, IdsApart, Below, Taken;
    if IdsApart(ls) {
      AddedApart(ls, ls', x);
      if Below(ls, lastRid) {
        InsertApart(ls, ls', x, lastRid);
      }
    }
  }

  lemma UpdateIds(ls: seq<Located>, mid: seq<Located>, ls': seq<Located>, x: Located, y: Located, lastRid: nat)
    requires HiddenAt(ls, mid, x) && Spliced(mid, ls', y) && y.1.id == lastRid + 1 && forall z | z in ls :: z.1.id <= lastRid
    ensures IdsApart(ls) ==> IdsApart(ls')
  {
    hide Spliced, HiddenAt, IdsApart;
    if IdsApart(ls) {
      UpdateApart(ls, mid, ls', x, y, lastRid);
    }
  }

  lemma DeleteIds(ls: seq<Located>, ls': seq<Located>, x: Located, lastRid: nat)
    requires HiddenAt(ls, ls', x)
    ensures IdsApart(ls) ==> IdsApart(ls')
    ensures Below(ls, lastRid) ==> Below(ls', lastRid)
  {
    hide IdsApart;
    if IdsApart(ls) {
      HiddenApart(ls, ls', x);
    }
    if Below(ls, lastRid) {
      var n :| 0 <= n < |ls| && ls[n] == x && ls' == ls[..n] + [Hidden(x)] + ls[n + 1..];
      forall z | z in ls' ensures z.1.id < lastRid {
        assert z in ls || z == Hidden(x);
      }
    }
  }

  lemma AddedMembers(ls: seq<Located>, ls': seq<Located>, x: Located)
    requires Spliced(ls, ls', x)
    ensures forall y :: y in ls' <==> y in ls || y == x
  {
    var n :| 0 <= n <= |ls| && ls' == ls[..n] + [x] + ls[n..];
    assert ls == ls[..n] + ls[n..];
  }

  lemma RowsHidden(ls: seq<Located>, ls': seq<Located>, x: Located, lastRid: nat, total: nat, live: nat, indexes: seq<TableIndex>)
    requires RowsOk(ls, lastRid, total, live, indexes) && HiddenAt(ls, ls', x) && !x.1.obsolete
    ensures live > 0 && RowsOk(ls', lastRid, total, live - 1, indexes)
  {
    hide Covers, LiveOf;
    HiddenEffect(ls, ls', x, 0);
    assert |LiveOf(ls)| == |multiset(LiveOf(ls))|;
    forall y | y in ls' ensures y.1.id <= lastRid {
      var n :| 0 <= n < |ls| && ls[n] == x && ls' == ls[..n] + [Hidden(x)] + ls[n + 1..];
      assert y in ls || y == Hidden(x);
    }
    forall i | 0 <= i < |indexes| ensures Covers(indexes[i], ls') {
      CoversHidden(indexes[i], ls, ls', x);
    }
  }

  // ---- The table ----

  class TableStore {
    const width: nat
    var pages: map<PageId, TablePage>
    var pageIds: seq<PageId>
    var lastRid: nat
    var totalRows: nat
    var liveRows: nat
    var indexes: seq<TableIndex>
    ghost var chain: seq<PageId>

    // Every row version of the table, page by page in the order of the page list.
    ghost function All(): seq<Located>
      requires forall p | p in pageIds :: p in pages
      reads this`pages, this`pageIds
    {
      AllRows(pages, pageIds)
    }

    ghost predicate PagesValid()
      reads this`pages, this`pageIds, this`chain
    {
      PagesOk(pages, pageIds, chain)
    }

    ghost predicate Valid()
      reads this
    {
      PagesValid() && RowsOk(All(), lastRid, totalRows, liveRows, indexes)
    }

    // No two row versions on one page share an id.
    ghost predicate DistinctIds()
      requires forall p | p in pageIds :: p in pages
      reads this`pages, this`pageIds
    {
      IdsApart(All())
    }

    // The next insert's id is above all ids so far.
    ghost predicate FreshIds()
      requires forall p | p in pageIds :: p in pages
      reads this`pages, this`pageIds, this`lastRid
    {
      IdsApart(All()) && Below(All(), lastRid)
    }

    constructor (width: nat)
      ensures Valid() && FreshIds() && pageIds == [] && indexes == [] && lastRid == 0 && this.width == width
    {
      this.width := width;
      pages, pageIds, chain := map[], [], [];
      lastRid, totalRows, liveRows := 0, 0, 0;
      indexes := [];
    }

    // The first page with room, or a new page linked behind the last one of the chain.
    method PreparePage(rowSize: nat, newId: PageId) returns (page: PageId)
      requires PagesValid() && newId !in pages
      modifies this`pages, this`pageIds, this`chain
      ensures PagesValid() && page in pageIds && All() == old(All())
      ensures page == match FirstFit(old(pages), old(pageIds), rowSize) case Some(p) => p case None => newId
      ensures page != newId ==> pages == old(pages) && pageIds == old(pageIds) && chain == old(chain)
      ensures page == newId ==> pages[page].rows == [] && pageIds == old(pageIds) + [newId] && chain == old(chain) + [newId]
      ensures forall p | p in old(pageIds) :: p in pages && pages[p].rows == old(pages)[p].rows
      ensures pages.Keys == old(pages).Keys + {page}
    {
      hide AllRows, PagesOk;
      PagesParts(pages, pageIds, chain);
      var fit := FirstFit(pages, pageIds, rowSize);
      if fit.Some? {
        return fit.value;
      }
      var tail := FindTail();
      ghost var before := pages;
      pages := pages[newId := NEW_PAGE];
      if tail.Some? {
        pages := pages[tail.value := pages[tail.value].(next := Some(newId))];
      }
      assert pages == Linked(before, tail, newId);
      PageLinked(before, pages, pageIds, chain, newId);
      PageAppended(before, pages, pageIds, newId);
      pageIds := pageIds + [newId];
      chain := chain + [newId];
      PagesParts(pages, pageIds, chain);
      return newId;
    }

    // Of the pages without a next page, the one with the largest row id noted.
    method FindTail() returns (tail: Option<PageId>)
      requires PagesValid()
      ensures tail == if chain == [] then None else Some(chain[|chain| - 1])
      ensures tail.Some? ==> tail.value in pageIds
    {
      hide PagesOk;
      PagesParts(pages, pageIds, chain);
      tail := None;
      for i := 0 to |pageIds|
        invariant tail.Some? ==> tail.value in pageIds && pages[tail.value].next == None
        invariant tail == None ==> forall j | 0 <= j < i :: pages[pageIds[j]].next != None
      {
        var p := pageIds[i];
        if pages[p].next == None && (tail == None || pages[p].maxRid > pages[tail.value].maxRid) {
          tail := Some(p);
        }
      }
      if tail.Some? {
        TailIs(pages, pageIds, chain, tail.value);
      } else if chain != [] {
        LastListed(pages, pageIds, chain);
      }
    }

    // NULL is not indexed; a unique index refuses a value it has for a row that is not obsolete.
    // Indexes before the refusing one keep the new entry.
    method InsertIntoIndexes(x: Located) returns (ok: bool)
      requires AllShaped(indexes)
      modifies this`indexes
      ensures ok <==> NoneBlocks(old(indexes), x, pages)
      ensures ok ==> Extended(old(indexes), indexes, x)
    {
      hide Find, WithRow, RowObsolete;
      for i := 0 to |indexes|
        invariant |indexes| == |old(indexes)|
        invariant forall j | 0 <= j < i :: !Blocks(old(indexes)[j], x, pages) && indexes[j] == WithRow(old(indexes)[j], x)
        invariant forall j | i <= j < |indexes| :: indexes[j] == old(indexes)[j]
      {
        var idx := indexes[i];
        if Indexed(x.1, idx.column) {
          if idx.isUnique {
            var existing := Find(idx.tree, x.1.tokens[idx.column]);
            if existing.Some? && !RowObsolete(pages, existing.value) {
              assert Blocks(old(indexes)[i], x, pages);
              return false;
            }
          }
        }
        indexes := indexes[i := WithRow(idx, x)];
      }
      return true;
    }

    // A new row with the values arranged by column, and the id the counter stands at. A named column
    // that does not exist is skipped.
    method MakeRow(cols: Option<seq<Option<nat>>>, values: seq<Value>) returns (row: TableRow)
      modifies this`lastRid, this`totalRows, this`liveRows
      ensures row == TableRow(old(lastRid), false, Arranged(width, cols, values))
      ensures IsArranged(row.tokens, width, cols, values)
      ensures lastRid == old(lastRid) + 1 && totalRows == old(totalRows) + 1 && liveRows == old(liveRows) + 1
    {
      var id := lastRid;
      lastRid := lastRid + 1;
      totalRows := totalRows + 1;
      liveRows := liveRows + 1;
      var tokens := seq(width, i => Null);
      match cols {
        case None =>
          for i := 0 to if |values| < width then |values| else width
            invariant |tokens| == width
            invariant forall j | 0 <= j < width :: tokens[j] == if j < i then values[j] else Null
          {
            tokens := tokens[i := values[i]];
          }
        case Some(cs) =>
          for i := 0 to |cs|
            invariant |tokens| == width && forall j | 0 <= j < width :: tokens[j] == LastGiven(cs, values, i, j)
          {
            if cs[i].Some? && cs[i].value < width && i < |values| {
              tokens := tokens[cs[i].value := values[i]];
            }
          }
      }
      assert tokens == Arranged(width, cols, values);
      ArrangedIs(width, cols, values);
      return TableRow(id, false, tokens);
    }

    // Without an exception: one more row, live, on the first page with room; every counter, index
    // and the chain in step. The id is the last one given out, which an update may have used.
    method InsertRow(cols: Option<seq<Option<nat>>>, values: seq<Value>, rowSize: nat, newId: PageId)
      returns (ok: bool, page: PageId)
      requires Valid() && newId !in pages
      modifies this
      ensures page == match FirstFit(old(pages), old(pageIds), rowSize) case Some(p) => p case None => newId
      ensures pageIds == if page == newId then old(pageIds) + [newId] else old(pageIds)
      ensures ok ==> Valid() && lastRid == old(lastRid) + 1
      ensures ok ==> Spliced(old(All()), All(), (page, TableRow(old(lastRid), false, Arranged(width, cols, values))))
      ensures ok ==> RowPut(old(pages), pages, page, TableRow(old(lastRid), false, Arranged(width, cols, values)))
      ensures ok ==> exists row :: Spliced(old(All()), All(), (page, row)) && row.id == old(lastRid) && !row.obsolete
                                   && IsArranged(row.tokens, width, cols, values)
      ensures old(DistinctIds()) && !ok ==> Refused(old(All()), old(indexes), Arranged(width, cols, values))
      ensures old(DistinctIds()) && ok ==> Let(old(All()), old(indexes), Arranged(width, cols, values))
      ensures ok && old(DistinctIds()) && UniqueValues(old(All()), old(indexes)) ==>
                UniqueValues(All(), indexes) || Reused(old(All()), old(indexes), Arranged(width, cols, values))
      ensures ok && NoneObsolete(old(All())) ==> NoneObsolete(All())
      ensures pages.Keys <= old(pages).Keys + {newId} && (ok ==> |indexes| == |old(indexes)|)
      ensures ok && old(FreshIds()) ==> FreshIds()
      ensures ok && old(DistinctIds()) ==>
                (DistinctIds() <==> !Taken(old(All()), (page, TableRow(old(lastRid), false, Arranged(width, cols, values)))))
    {
      hide AllRows, PagesOk, Covers, LiveOf, WithRow, Spliced, Blocks, IdsApart, Below, Taken, Arranged, FirstFit, IsArranged,
           Refused, Let, Reused, UniqueValues, NoneObsolete, Extended, NoneBlocks;
      PagesParts(pages, pageIds, chain);
      var row := MakeRow(cols, values);
      page := PreparePage(rowSize, newId);
      ghost var prepared := pages;
      PagesParts(pages, pageIds, chain);
      CoversShaped(indexes, All());
      ghost var ls, was := All(), indexes;
      AllRowsLists(pages, pageIds, chain);
      InsertMeans(ls, pages, was, (page, row));
      ok := InsertIntoIndexes((page, row));
      if !ok {
        return;
      }
      PutRow(page, row);
      PagesParts(pages, pageIds, chain);
      PutAfterPrepare(old(pages), prepared, pages, page, row);
      RowsAdded(old(All()), All(), (page, row), old(lastRid), lastRid, old(totalRows), old(liveRows), old(indexes), indexes);
      InsertIds(old(All()), All(), (page, row), old(lastRid));
      InsertUniques(ls, All(), was, indexes, (page, row));
    }

    method PutRow(page: PageId, row: TableRow)
      requires PagesValid() && page in pageIds
      modifies this`pages
      ensures PagesValid() && Spliced(old(All()), All(), (page, row))
      ensures page in old(pages) && pages == old(pages)[page := old(pages)[page].(rows := old(pages)[page].rows + [row])]
    {
      hide AllRows, PagesOk, Spliced;
      PagesParts(pages, pageIds, chain);
      ghost var before := pages;
      pages := pages[page := pages[page].(rows := pages[page].rows + [row])];
      RowsKeepChain(before, pages, pageIds, chain);
      PagesParts(pages, pageIds, chain);
      RowAppended(before, pages, pageIds, page, row);
    }

    // One row is replaced: the old version stays, obsolete, and the new one goes to the end of its page.
    method UpdateOne(p: PageId, k: nat, assignments: seq<Assignment>) returns (ok: bool)
      requires Valid() && p in pages && k < |pages[p].rows| && !pages[p].rows[k].obsolete
      modifies this
      ensures pageIds == old(pageIds) && pages.Keys == old(pages).Keys && chain == old(chain)
      ensures lastRid == old(lastRid) + 1
      ensures var rows := old(pages)[p].rows;
        && pages[p].rows == rows[k := rows[k].(obsolete := true)] + [Updated(rows[k], lastRid, assignments)]
        && VersionOf(rows[k], pages[p].rows[|rows|], lastRid, assignments)
      ensures forall q | q in pages && q != p :: pages[q] == old(pages)[q]
      ensures ok ==> Valid() && (old(DistinctIds()) ==> DistinctIds())
    {
      hide AllRows, PagesOk, Covers, LiveOf, WithRow, Spliced, HiddenAt, Assigned, Blocks, IdsApart, IsAssigned;
      PagesParts(pages, pageIds, chain);
      CoversShaped(indexes, All());
      ghost var was := pages;
      var row := pages[p].rows[k];
      lastRid := lastRid + 1;
      var newRow := Updated(row, lastRid, assignments);
      UpdatedIs(row, lastRid, assignments);
      pages := pages[p := pages[p].(rows := pages[p].rows[k := row.(obsolete := true)])];
      ghost var hidden := pages;
      RowsKeepChain(was, hidden, pageIds, chain);
      PagesParts(hidden, pageIds, chain);
      RowHidden(was, hidden, pageIds, p, k);
      RowsHidden(AllRows(was, pageIds), AllRows(hidden, pageIds), (p, row), lastRid - 1, totalRows, liveRows, indexes);
      totalRows := totalRows + 1;
      pages := pages[p := pages[p].(rows := pages[p].rows + [newRow],
                                    maxRid := if pages[p].maxRid < lastRid then lastRid else pages[p].maxRid)];
      RowsKeepChain(hidden, pages, pageIds, chain);
      PagesParts(pages, pageIds, chain);
      RowAppended(hidden, pages, pageIds, p, newRow);
      ok := InsertIntoIndexes((p, newRow));
      if ok {
        UpdateIds(AllRows(was, pageIds), AllRows(hidden, pageIds), All(), (p, row), (p, newRow), lastRid - 1);
        RowsAdded(AllRows(hidden, pageIds), All(), (p, newRow), lastRid - 1, lastRid, totalRows - 1, liveRows - 1, old(indexes), indexes);
      }
    }

    method DeleteOne(p: PageId, k: nat)
      requires Valid() && p in pages && k < |pages[p].rows| && !pages[p].rows[k].obsolete
      modifies this`pages, this`liveRows
      ensures Valid() && pages.Keys == old(pages).Keys
      ensures pages[p].rows == old(pages)[p].rows[k := old(pages)[p].rows[k].(obsolete := true)]
      ensures forall q | q in pages && q != p :: pages[q] == old(pages)[q]
      ensures (old(DistinctIds()) ==> DistinctIds()) && (old(FreshIds()) ==> FreshIds())
    {
      hide AllRows, PagesOk, Covers, LiveOf, HiddenAt, IdsApart, Below;
      PagesParts(pages, pageIds, chain);
      ghost var was := pages;
      var row := pages[p].rows[k];
      pages := pages[p := pages[p].(rows := pages[p].rows[k := row.(obsolete := true)])];
      RowsKeepChain(was, pages, pageIds, chain);
      PagesParts(pages, pageIds, chain);
      RowHidden(was, pages, pageIds, p, k);
      RowsHidden(AllRows(was, pageIds), All(), (p, row), lastRid, totalRows, liveRows, indexes);
      DeleteIds(AllRows(was, pageIds), All(), (p, row), lastRid);
      liveRows := liveRows - 1;
    }

    method UpdatePage(p: PageId, ids: set<nat>, assignments: seq<Assignment>) returns (ok: bool)
      requires Valid() && p in pages
      modifies this
      ensures pageIds == old(pageIds) && pages.Keys == old(pages).Keys && chain == old(chain)
      ensures forall q | q in pages && q != p :: pages[q] == old(pages)[q]
      ensures ok ==> Valid()
      ensures ok ==> pages[p].rows == Marked(old(pages)[p].rows, ids) + NewVersions(old(pages)[p].rows, ids, assignments, old(lastRid))
      ensures ok ==> exists hit :: Replaced(old(pages)[p].rows, pages[p].rows, ids, assignments, old(lastRid), hit)
                                   && lastRid == old(lastRid) + |hit|
      ensures ok ==> lastRid == old(lastRid) + Hits(old(pages)[p].rows, ids)
      ensures ok && old(DistinctIds()) ==> DistinctIds()
    {
      hide PagesOk, RowsOk, AllRows, Updated, UpdatedSoFar, Marked, NewVersions, Hits, IdsApart, Replaced, AreHit, VersionOf;
      PagesParts(pages, pageIds, chain);
      // Only the rows there at the start are visited.
      ghost var rows := pages[p].rows;
      var n := |pages[p].rows|;
      UpdatedSoFarStart(rows, ids, assignments, lastRid);
      for k := 0 to n
        invariant Valid() && pageIds == old(pageIds) && pages.Keys == old(pages).Keys && chain == old(chain)
        invariant forall q | q in pages && q != p :: pages[q] == old(pages)[q]
        invariant pages[p].rows == UpdatedSoFar(rows, k, ids, assignments, old(lastRid))
        invariant (forall q | q in pageIds :: q in pages) && (old(DistinctIds()) ==> DistinctIds())
        invariant lastRid == old(lastRid) + Hits(rows[..k], ids)
      {
        UpdatedSoFarStep(rows, k, ids, assignments, old(lastRid));
        var row := pages[p].rows[k];
        if row.id in ids && !row.obsolete {
          var done := UpdateOne(p, k, assignments);
          if !done {
            return false;
          }
          PagesParts(pages, pageIds, chain);
        }
      }
      UpdatedSoFarEnd(rows, ids, assignments, old(lastRid));
      ReplacedPage(rows, ids, assignments, old(lastRid));
      HitAtIs(rows, ids);
      return true;
    }

    // Without an exception: every live row with the id of a given row is replaced by its new version, and
    // nothing else becomes visible or disappears.
    method UpdateRows(rows: seq<TableRow>, assignments: seq<Assignment>) returns (ok: bool)
      requires Valid()
      modifies this
      ensures ok ==> Valid() && pageIds == old(pageIds)
      ensures ok && old(DistinctIds()) ==> DistinctIds()
      ensures ok ==> multiset(Tokens(LiveOf(All()))) == multiset(NewTokens(LiveOf(old(All())), RowIds(rows), assignments))
      ensures ok ==> exists shown :: multiset(Tokens(LiveOf(All()))) == multiset(shown)
                                     && ShownUpdated(LiveOf(old(All())), shown, rows, assignments)
      ensures ok ==> exists rid :: PagesReplaced(old(pages), pages, pageIds, RowIds(rows), assignments, rid)
    {
      hide PagesOk, RowsOk, AllRows, Marked, NewVersions, Hits, LiveOf, IdsApart, RowIds, ReplacedOn, NewTokens, ShownUpdated,
           Replaced;
      var ids := RowIds(rows);
      PagesParts(pages, pageIds, chain);
      ghost var rid: seq<nat> := [];
      for i := 0 to |pageIds|
        invariant Valid() && pageIds == old(pageIds) && chain == old(chain) && pages.Keys == old(pages).Keys
        invariant |rid| == i && (forall q | q in pageIds :: q in pages) && (old(DistinctIds()) ==> DistinctIds())
        invariant forall j | 0 <= j < i ::
                    ReplacedOn(old(pages)[pageIds[j]].rows, pages[pageIds[j]].rows, ids, assignments, rid[j])
        invariant forall j | i <= j < |pageIds| :: pages[pageIds[j]] == old(pages)[pageIds[j]]
      {
        rid := rid + [lastRid];
        RidsUpTo(All(), lastRid, totalRows, liveRows, indexes);
        PageIdsUpTo(pages, pageIds, i, lastRid);
        ghost var before := pages[pageIds[i]].rows;
        var done := UpdatePage(pageIds[i], ids, assignments);
        if !done {
          return false;
        }
        PagesParts(pages, pageIds, chain);
        ReplacedIs(before, pages[pageIds[i]].rows, ids, assignments, rid[i]);
      }
      assert PagesReplaced(old(pages), pages, pageIds, ids, assignments, rid);
      PagesUpdated(old(pages), pages, pageIds, ids, assignments, rid);
      NewTokensAre(LiveOf(old(All())), rows, assignments);
      return true;
    }

    method DeletePage(p: PageId, ids: set<nat>)
      requires Valid() && p in pages
      modifies this`pages, this`liveRows
      ensures Valid() && pages.Keys == old(pages).Keys
      ensures forall q | q in pages && q != p :: pages[q] == old(pages)[q]
      ensures pages[p].rows == Marked(old(pages)[p].rows, ids)
      ensures (old(DistinctIds()) ==> DistinctIds()) && (old(FreshIds()) ==> FreshIds())
    {
      hide PagesOk, RowsOk, AllRows, IdsApart, Below, Marked, MarkedSoFar;
      PagesParts(pages, pageIds, chain);
      ghost var rows := pages[p].rows;
      MarkedSoFarEnds(rows, ids);
      for k := 0 to |pages[p].rows|
        invariant Valid() && pages.Keys == old(pages).Keys
        invariant (forall q | q in pageIds :: q in pages) && (old(DistinctIds()) ==> DistinctIds()) && (old(FreshIds()) ==> FreshIds())
        invariant forall q | q in pages && q != p :: pages[q] == old(pages)[q]
        invariant pages[p].rows == MarkedSoFar(rows, k, ids)
      {
        MarkedSoFarStep(rows, k, ids);
        var row := pages[p].rows[k];
        if row.id in ids && !row.obsolete {
          DeleteOne(p, k);
          PagesParts(pages, pageIds, chain);
        }
      }
    }

    // Every live row with the id of a given row becomes obsolete; no index entry is removed.
    method DeleteRows(rows: seq<TableRow>)
      requires Valid()
      modifies this`pages, this`liveRows
      ensures Valid()
      ensures LiveOf(All()) == NotHit(LiveOf(old(All())), RowIds(rows))
      ensures OthersStay(LiveOf(old(All())), LiveOf(All()), rows)
      ensures UniqueValues(old(All()), old(indexes)) ==> UniqueValues(All(), indexes)
      ensures pages.Keys == old(pages).Keys && forall p | p in pages :: pages[p].rows == Marked(old(pages)[p].rows, RowIds(rows))
      ensures (old(DistinctIds()) ==> DistinctIds()) && (old(FreshIds()) ==> FreshIds())
    {
      hide PagesOk, RowsOk, AllRows, Marked, LiveOf, IdsApart, Below, RowIds, UniqueValues, NotHit, OthersStay;
      var ids := RowIds(rows);
      PagesParts(pages, pageIds, chain);
      for i := 0 to |pageIds|
        invariant Valid() && pages.Keys == old(pages).Keys
        invariant (forall q | q in pageIds :: q in pages) && (old(DistinctIds()) ==> DistinctIds()) && (old(FreshIds()) ==> FreshIds())
        invariant forall j | 0 <= j < i :: pages[pageIds[j]].rows == Marked(old(pages)[pageIds[j]].rows, ids)
        invariant forall j | i <= j < |pageIds| :: pages[pageIds[j]] == old(pages)[pageIds[j]]
      {
        DeletePage(pageIds[i], ids);
        PagesParts(pages, pageIds, chain);
      }
      PagesMarked(old(pages), pages, pageIds, ids);
      forall p | p in pages ensures pages[p].rows == Marked(old(pages)[p].rows, ids) {
        var j := IndexIn(pageIds, p);
      }
      NotHitAre(LiveOf(old(All())), rows);
      UniqueKept(old(All()), All(), indexes);
    }

    // Are the bytes of the live values of the column each met once?
    method CheckUnique(column: nat, realBytes: real -> seq<Byte>) returns (ok: bool)
      requires Valid()
      ensures ok <==> DistinctBytes(LiveEntries(All(), column), realBytes)
    {
      hide PagesOk, RowsOk, AllRows, LiveEntries, Seen, StoredBytes;
      PagesParts(pages, pageIds, chain);
      var seen: set<seq<Byte>> := {};
      ghost var ls: seq<Located> := [];
      NoRowsYet(pages, column);
      SeenNothing(realBytes);
      for i := 0 to |pageIds|
        invariant ls == AllRowsOf(pages, pageIds, i) && Seen(seen, LiveEntries(ls, column), realBytes)
      {
        var p := pageIds[i];
        for k := 0 to |pages[p].rows|
          invariant ls == AllRowsOf(pages, pageIds, i) + OnPage(p, pages[p].rows[..k])
          invariant Seen(seen, LiveEntries(ls, column), realBytes)
        {
          var row := pages[p].rows[k];
          NextRow(AllRowsOf(pages, pageIds, i), p, pages[p].rows, k, column);
          ghost var before := ls;
          ls := ls + [(p, row)];
          if !row.obsolete && Indexed(row, column) {
            var key := StoredBytes(row.tokens[column], realBytes);
            if key in seen {
              SeenTwice(pages, pageIds, i, p, k, column, ls, seen, realBytes);
              return false;
            }
            SeenMore(seen, LiveEntries(before, column), EntryOf((p, row), column), realBytes);
            seen := seen + {key};
          }
        }
        NextPage(pages, pageIds, i);
      }
      assert pageIds[..|pageIds|] == pageIds;
      SeenDistinct(seen, LiveEntries(ls, column), realBytes);
      return true;
    }

    // A new index over the live rows that have a value; a unique one refuses values with the same bytes.
    method CreateIndex(id: Uuid, column: nat, isUnique: bool, realBytes: real -> seq<Byte>) returns (ok: bool)
      requires Valid()
      modifies this`indexes
      ensures ok <==> !isUnique || DistinctBytes(LiveEntries(All(), column), realBytes)
      ensures !ok ==> indexes == old(indexes)
      ensures ok ==> Valid()
      ensures ok ==> var (tree, lastPage) := Built(LiveEntries(All(), column), MAX_KEYS, MAX_KEYS);
                indexes == old(indexes) + [TableIndex(id, column, isUnique, tree, lastPage)]
      ensures ok && UniqueValues(old(All()), old(indexes)) ==> UniqueValues(All(), indexes)
    {
      hide PagesOk, Covers, AllRows, LiveEntries, Built, UniqueIn, DistinctBytes;
      PagesParts(pages, pageIds, chain);
      if isUnique {
        var fine := CheckUnique(column, realBytes);
        if !fine {
          return false;
        }
      }
      var tree, lastPage := BuildTree(column);
      NewCovers(TableIndex(id, column, isUnique, tree, lastPage), All());
      if isUnique {
        DistinctUnique(All(), column, realBytes);
      }
      indexes := indexes + [TableIndex(id, column, isUnique, tree, lastPage)];
      return true;
    }

    // The tree of the live rows that have a value in the column.
    method BuildTree(column: nat) returns (tree: Tree, lastPage: nat)
      requires Valid()
      ensures (tree, lastPage) == Built(LiveEntries(All(), column), MAX_KEYS, MAX_KEYS)
    {
      hide PagesOk, Covers, AllRows, LiveEntries, Built;
      PagesParts(pages, pageIds, chain);
      tree, lastPage := FIRST, 1;
      ghost var ls: seq<Located> := [];
      NoRowsYet(pages, column);
      BuiltNothing();
      for i := 0 to |pageIds|
        invariant ls == AllRowsOf(pages, pageIds, i) && (tree, lastPage) == Built(LiveEntries(ls, column), MAX_KEYS, MAX_KEYS)
      {
        var p := pageIds[i];
        for k := 0 to |pages[p].rows|
          invariant ls == AllRowsOf(pages, pageIds, i) + OnPage(p, pages[p].rows[..k])
          invariant (tree, lastPage) == Built(LiveEntries(ls, column), MAX_KEYS, MAX_KEYS)
        {
          var row := pages[p].rows[k];
          NextRow(AllRowsOf(pages, pageIds, i), p, pages[p].rows, k, column);
          if !row.obsolete && Indexed(row, column) {
            BuiltNext(LiveEntries(ls, column), EntryOf((p, row), column));
            var r := Rooted(Insert(tree, row.tokens[column], (p, row.id), lastPage, MAX_KEYS, MAX_KEYS));
            tree, lastPage := r.0, r.1;
          }
          ls := ls + [(p, row)];
        }
        NextPage(pages, pageIds, i);
      }
      assert pageIds[..|pageIds|] == pageIds;
    }
  }

  // ---- What unique indexes refuse ----

  // A live row of the table has the value in the column of some unique index.
  ghost predicate Refused(ls: seq<Located>, indexes: seq<TableIndex>, tokens: seq<Value>) {
    exists i :: 0 <= i < |indexes| && indexes[i].isUnique && HeldBy(ls, TableRow(0, false, tokens), indexes[i].column, false)
  }

  // Where a live row has the value in the column of a unique index, an obsolete version has it too.
  ghost predicate Let(ls: seq<Located>, indexes: seq<TableIndex>, tokens: seq<Value>) {
    forall i | 0 <= i < |indexes| && indexes[i].isUnique && HeldBy(ls, TableRow(0, false, tokens), indexes[i].column, false) ::
      HeldBy(ls, TableRow(0, false, tokens), indexes[i].column, true)
  }

  // An obsolete version has the value in the column of some unique index.
  ghost predicate Reused(ls: seq<Located>, indexes: seq<TableIndex>, tokens: seq<Value>) {
    exists i :: 0 <= i < |indexes| && indexes[i].isUnique && HeldBy(ls, TableRow(0, false, tokens), indexes[i].column, true)
  }

  lemma SameHolder(ls: seq<Located>, row: TableRow, column: nat, obsolete: bool)
    ensures HeldBy(ls, row, column, obsolete) <==> HeldBy(ls, TableRow(0, false, row.tokens), column, obsolete)
  {
    var plain := TableRow(0, false, row.tokens);
    forall y: Located ensures Agree(y.1, row, column) <==> Agree(y.1, plain, column) {
    }
  }

  lemma InsertMeans(ls: seq<Located>, pages: map<PageId, TablePage>, indexes: seq<TableIndex>, x: Located)
    requires Lists(ls, pages) && (forall i | 0 <= i < |indexes| :: Covers(indexes[i], ls)) && AllShaped(indexes)
    ensures IdsApart(ls) && !NoneBlocks(indexes, x, pages) ==> Refused(ls, indexes, x.1.tokens)
    ensures IdsApart(ls) && NoneBlocks(indexes, x, pages) ==> Let(ls, indexes, x.1.tokens)
  {
    hide Lists, Covers, IdsApart, Blocks, HeldBy;
    if IdsApart(ls) {
      forall i | 0 <= i < |indexes|
        ensures Blocks(indexes[i], x, pages) ==>
                  indexes[i].isUnique && HeldBy(ls, TableRow(0, false, x.1.tokens), indexes[i].column, false)
        ensures !Blocks(indexes[i], x, pages) && indexes[i].isUnique
                && HeldBy(ls, TableRow(0, false, x.1.tokens), indexes[i].column, false) ==>
                  HeldBy(ls, TableRow(0, false, x.1.tokens), indexes[i].column, true)
      {
        SameHolder(ls, x.1, indexes[i].column, false);
        SameHolder(ls, x.1, indexes[i].column, true);
        if Blocks(indexes[i], x, pages) {
          RefusedFor(indexes[i], x, ls, pages);
        } else if indexes[i].isUnique && HeldBy(ls, x.1, indexes[i].column, false) {
          AcceptedFor(indexes[i], x, ls, pages);
        }
      }
    }
  }

  lemma InsertUniques(ls: seq<Located>, ls': seq<Located>, indexes: seq<TableIndex>, indexes': seq<TableIndex>, x: Located)
    requires Spliced(ls, ls', x) && !x.1.obsolete && AllShaped(indexes) && Extended(indexes, indexes', x)
    ensures |indexes'| == |indexes|
    ensures NoneObsolete(ls) ==> NoneObsolete(ls')
    ensures Let(ls, indexes, x.1.tokens) && UniqueValues(ls, indexes) ==>
              UniqueValues(ls', indexes') || Reused(ls, indexes, x.1.tokens)
  {
    hide Spliced, HeldBy, UniqueIn, WithRow;
    SplicedIn(ls, ls', x);
    if Let(ls, indexes, x.1.tokens) && UniqueValues(ls, indexes) && !Reused(ls, indexes, x.1.tokens) {
      forall i | 0 <= i < |indexes'| && indexes'[i].isUnique ensures UniqueIn(ls', indexes'[i].column) {
        SameColumn(indexes[i], x);
        SameHolder(ls, x.1, indexes[i].column, false);
        UniqueAdded(ls, ls', x, indexes[i].column);
      }
    }
  }

  lemma SameColumn(idx: TableIndex, x: Located)
    requires Shaped(idx.tree)
    ensures WithRow(idx, x).column == idx.column && WithRow(idx, x).isUnique == idx.isUnique
  {
  }

  lemma UniqueKept(ls: seq<Located>, ls': seq<Located>, indexes: seq<TableIndex>)
    requires exists rows :: OthersStay(LiveOf(ls), LiveOf(ls'), rows)
    ensures UniqueValues(ls, indexes) ==> UniqueValues(ls', indexes)
  {
    hide UniqueIn, LiveOf;
    var rows :| OthersStay(LiveOf(ls), LiveOf(ls'), rows);
    forall x | x in LiveOf(ls') ensures x in LiveOf(ls) {
      assert multiset(LiveOf(ls'))[x] > 0;
    }
    if UniqueValues(ls, indexes) {
      forall i | 0 <= i < |indexes| && indexes[i].isUnique ensures UniqueIn(ls', indexes[i].column) {
        UniqueFewer(ls, ls', indexes[i].column);
      }
    }
  }

  // Values with distinct bytes are distinct.
  lemma DistinctUnique(ls: seq<Located>, column: nat, realBytes: real -> seq<Byte>)
    requires DistinctBytes(LiveEntries(ls, column), realBytes)
    ensures UniqueIn(ls, column)
  {
    hide DistinctBytes, LiveOf;
    DistinctExactly(LiveEntries(ls, column), realBytes);
    forall x, y | x in ls && y in ls && !x.1.obsolete && !y.1.obsolete && Agree(x.1, y.1, column) ensures x == y {
      LiveMember(ls, x);
      LiveMember(ls, y);
      KeyOnce(LiveOf(ls), column, x, y);
    }
  }

  lemma {:induction false} KeyOnce(ls: seq<Located>, column: nat, x: Located, y: Located)
    requires DistinctKeys(EntriesFor(ls, column)) && x in ls && y in ls && Agree(x.1, y.1, column)
    ensures x == y
  {
    hide DistinctKeys, EntriesFor;
    if x != y {
      if ls[0] == x {
        HeadClash(ls, column, y);
      } else if ls[0] == y {
        HeadClash(ls, column, x);
      } else {
        DistinctRest(ls, column);
        KeyOnce(ls[1..], column, x, y);
      }
    }
  }

  lemma HeadClash(ls: seq<Located>, column: nat, y: Located)
    requires ls != [] && y in ls[1..] && (Agree(ls[0].1, y.1, column) || Agree(y.1, ls[0].1, column))
    ensures !DistinctKeys(EntriesFor(ls, column))
  {
    EntryThere(ls[1..], column, y);
    var es, rest := EntriesFor(ls, column), EntriesFor(ls[1..], column);
    var j :| 0 <= j < |rest| && rest[j] == EntryOf(y, column);
    assert es[j + 1].0 == es[0].0;
  }

  lemma DistinctRest(ls: seq<Located>, column: nat)
    requires ls != [] && DistinctKeys(EntriesFor(ls, column))
    ensures DistinctKeys(EntriesFor(ls[1..], column))
  {
    var es, rest := EntriesFor(ls, column), EntriesFor(ls[1..], column);
    var d := |es| - |rest|;
    forall i, j | 0 <= i < j < |rest| ensures rest[i].0 != rest[j].0 {
      assert rest[i] == es[i + d] && rest[j] == es[j + d];
    }
  }

  // ---- What statements show, row by row ----

  // Each live row that a given row's id names shows its assigned tokens, every other one the same as before.
  ghost predicate ShownUpdated(live: seq<Located>, shown: seq<seq<Value>>, rows: seq<TableRow>, assignments: seq<Assignment>) {
    && |shown| == |live|
    && forall i | 0 <= i < |live| ::
         if exists r :: r in rows && r.id == live[i].1.id then IsAssigned(live[i].1.tokens, shown[i], assignments)
         else shown[i] == live[i].1.tokens
  }

  lemma NewTokensAre(live: seq<Located>, rows: seq<TableRow>, assignments: seq<Assignment>)
    ensures ShownUpdated(live, NewTokens(live, RowIds(rows), assignments), rows, assignments)
  {
    hide IsAssigned, Assigned;
    var shown := NewTokens(live, RowIds(rows), assignments);
    forall i | 0 <= i < |live|
      ensures if exists r :: r in rows && r.id == live[i].1.id then IsAssigned(live[i].1.tokens, shown[i], assignments)
              else shown[i] == live[i].1.tokens
    {
      UpdatedIs(live[i].1, 0, assignments);
    }
  }

  // Of the live rows exactly those stay that no given row's id names.
  ghost predicate OthersStay(live: seq<Located>, live': seq<Located>, rows: seq<TableRow>) {
    forall x: Located :: multiset(live')[x] == if exists r :: r in rows && r.id == x.1.id then 0 else multiset(live)[x]
  }

  lemma NotHitAre(live: seq<Located>, rows: seq<TableRow>)
    ensures OthersStay(live, NotHit(live, RowIds(rows)), rows)
  {
    hide NotHit;
    forall x: Located
      ensures multiset(NotHit(live, RowIds(rows)))[x] == if exists r :: r in rows && r.id == x.1.id then 0 else multiset(live)[x]
    {
      NotHitCount(live, RowIds(rows), x);
    }
  }

  lemma {:induction false} NotHitCount(ls: seq<Located>, ids: set<nat>, x: Located)
    ensures multiset(NotHit(ls, ids))[x] == if x.1.id in ids then 0 else multiset(ls)[x]
  {
    if ls != [] {
      NotHitCount(ls[1..], ids, x);
      assert ls == [ls[0]] + ls[1..];
    }
  }

  // The row stands at the end of the page, which may be new; no other row has moved.
  ghost predicate RowPut(pages: map<PageId, TablePage>, pages': map<PageId, TablePage>, page: PageId, row: TableRow) {
    && pages'.Keys == pages.Keys + {page}
    && pages'[page].rows == (if page in pages then pages[page].rows else []) + [row]
    && forall q | q in pages && q != page :: pages'[q].rows == pages[q].rows
  }

  lemma PutAfterPrepare(was: map<PageId, TablePage>, prepared: map<PageId, TablePage>, now: map<PageId, TablePage>, page: PageId, row: TableRow)
    requires prepared.Keys == was.Keys + {page}
    requires now == prepared[page := prepared[page].(rows := prepared[page].rows + [row])]
    requires page !in was ==> prepared[page].rows == []
    requires forall q | q in was :: q in prepared && prepared[q].rows == was[q].rows
    ensures RowPut(was, now, page, row)
  {
  }

  // Each page with the rows hit replaced, the new versions numbered after rid[j] on the j-th page.
  ghost predicate PagesReplaced(pages: map<PageId, TablePage>, pages': map<PageId, TablePage>, list: seq<PageId>, ids: set<nat>,
                                assignments: seq<Assignment>, rid: seq<nat>)
  {
    && pages'.Keys == pages.Keys && |rid| == |list|
    && forall j | 0 <= j < |list| :: list[j] in pages &&
         ReplacedOn(pages[list[j]].rows, pages'[list[j]].rows, ids, assignments, rid[j])
  }

  ghost predicate ReplacedOn(rows: seq<TableRow>, rows': seq<TableRow>, ids: set<nat>, assignments: seq<Assignment>, rid: nat) {
    rows' == Marked(rows, ids) + NewVersions(rows, ids, assignments, rid) && forall i | 0 <= i < |rows| :: rows[i].id <= rid
  }

  lemma ReplacedIs(rows: seq<TableRow>, rows': seq<TableRow>, ids: set<nat>, assignments: seq<Assignment>, rid: nat)
    requires rows' == Marked(rows, ids) + NewVersions(rows, ids, assignments, rid) && forall i | 0 <= i < |rows| :: rows[i].id <= rid
    ensures ReplacedOn(rows, rows', ids, assignments, rid)
  {
  }

  lemma RidsUpTo(ls: seq<Located>, lastRid: nat, total: nat, live: nat, indexes: seq<TableIndex>)
    requires RowsOk(ls, lastRid, total, live, indexes)
    ensures forall x | x in ls :: x.1.id <= lastRid
  {
  }

  lemma PageIdsUpTo(pages: map<PageId, TablePage>, list: seq<PageId>, j: nat, lastRid: nat)
    requires (forall p | p in list :: p in pages) && j < |list| && forall x | x in AllRows(pages, list) :: x.1.id <= lastRid
    ensures forall i | 0 <= i < |pages[list[j]].rows| :: pages[list[j]].rows[i].id <= lastRid
  {
    hide AllRows;
    var rows := pages[list[j]].rows;
    RowsAround(pages, list, j);
    forall i | 0 <= i < |rows| ensures rows[i].id <= lastRid {
      assert OnPage(list[j], rows)[i] in AllRows(pages, list);
    }
  }

  // ---- What an update shows ----

  // The rows of a page while its first k original rows have been visited.
  function UpdatedSoFar(rows: seq<TableRow>, k: nat, ids: set<nat>, assignments: seq<Assignment>, lastRid: nat): seq<TableRow>
    requires k <= |rows|
  {
    Marked(rows[..k], ids) + rows[k..] + NewVersions(rows[..k], ids, assignments, lastRid)
  }

  lemma UpdatedSoFarStart(rows: seq<TableRow>, ids: set<nat>, assignments: seq<Assignment>, lastRid: nat)
    ensures UpdatedSoFar(rows, 0, ids, assignments, lastRid) == rows && Hits(rows[..0], ids) == 0
  {
  }

  lemma UpdatedSoFarStep(rows: seq<TableRow>, k: nat, ids: set<nat>, assignments: seq<Assignment>, lastRid: nat)
    requires k < |rows|
    ensures var now := UpdatedSoFar(rows, k, ids, assignments, lastRid);
      && k < |now| && now[k] == rows[k]
      && UpdatedSoFar(rows, k + 1, ids, assignments, lastRid) ==
         if Hit(rows[k], ids) then
           now[k := rows[k].(obsolete := true)] + [Updated(rows[k], lastRid + Hits(rows[..k], ids) + 1, assignments)]
         else now
    ensures Hits(rows[..k + 1], ids) == Hits(rows[..k], ids) + if Hit(rows[k], ids) then 1 else 0
  {
    hide Updated;
    assert rows[..k + 1][..k] == rows[..k];
    MarkedStep(rows, k, ids);
    var a, b, c := Marked(rows[..k], ids), rows[k..], NewVersions(rows[..k], ids, assignments, lastRid);
    assert b == [rows[k]] + rows[k + 1..];
    var now := a + b + c;
    if Hit(rows[k], ids) {
      var x := rows[k].(obsolete := true);
      assert now[k := x] == a + ([x] + rows[k + 1..]) + c;
      assert (a + [x]) + rows[k + 1..] == a + ([x] + rows[k + 1..]);
    } else {
      assert (a + [rows[k]]) + rows[k + 1..] == a + b;
    }
  }

  lemma MarkedStep(rows: seq<TableRow>, k: nat, ids: set<nat>)
    requires k < |rows|
    ensures Marked(rows[..k + 1], ids)
         == Marked(rows[..k], ids) + [if Hit(rows[k], ids) then rows[k].(obsolete := true) else rows[k]]
  {
  }

  // The rows of a page while its first k rows have been visited by a delete.
  function MarkedSoFar(rows: seq<TableRow>, k: nat, ids: set<nat>): (r: seq<TableRow>)
    requires k <= |rows|
    ensures |r| == |rows|
  {
    Marked(rows[..k], ids) + rows[k..]
  }

  lemma MarkedSoFarStep(rows: seq<TableRow>, k: nat, ids: set<nat>)
    requires k < |rows|
    ensures var now := MarkedSoFar(rows, k, ids);
      && now[k] == rows[k]
      && MarkedSoFar(rows, k + 1, ids) == if Hit(rows[k], ids) then now[k := rows[k].(obsolete := true)] else now
  {
  }

  lemma MarkedSoFarEnds(rows: seq<TableRow>, ids: set<nat>)
    ensures MarkedSoFar(rows, 0, ids) == rows && MarkedSoFar(rows, |rows|, ids) == Marked(rows, ids)
  {
    assert rows[..|rows|] == rows;
  }

  lemma UpdatedSoFarEnd(rows: seq<TableRow>, ids: set<nat>, assignments: seq<Assignment>, lastRid: nat)
    ensures UpdatedSoFar(rows, |rows|, ids, assignments, lastRid)
         == Marked(rows, ids) + NewVersions(rows, ids, assignments, lastRid)
    ensures Hits(rows[..|rows|], ids) == Hits(rows, ids)
  {
    assert rows[..|rows|] == rows;
    assert Marked(rows, ids) + [] == Marked(rows, ids);
  }

  // The token tuples live rows show once those with the ids are updated.
  function NewTokens(ls: seq<Located>, ids: set<nat>, assignments: seq<Assignment>): seq<seq<Value>> {
    seq(|ls|, i requires 0 <= i < |ls| =>
      if ls[i].1.id in ids then Assigned(ls[i].1.tokens, ls[i].1.tokens, assignments) else ls[i].1.tokens)
  }

  lemma NewTokensConcat(a: seq<Located>, b: seq<Located>, ids: set<nat>, assignments: seq<Assignment>)
    ensures NewTokens(a + b, ids, assignments) == NewTokens(a, ids, assignments) + NewTokens(b, ids, assignments)
    ensures Tokens(a + b) == Tokens(a) + Tokens(b)
  {
    hide Assigned;
  }

  lemma OnPageConcat(p: PageId, a: seq<TableRow>, b: seq<TableRow>)
    ensures OnPage(p, a + b) == OnPage(p, a) + OnPage(p, b)
  {
  }

  // One page of an update.
  lemma {:induction false} PageUpdated(p: PageId, rows: seq<TableRow>, ids: set<nat>, assignments: seq<Assignment>, lastRid: nat)
    ensures multiset(Tokens(LiveOf(OnPage(p, Marked(rows, ids) + NewVersions(rows, ids, assignments, lastRid)))))
         == multiset(NewTokens(LiveOf(OnPage(p, rows)), ids, assignments))
  {
    hide Assigned, LiveOf, OnPage, Tokens, NewTokens;
    var marked, news := Marked(rows, ids), NewVersions(rows, ids, assignments, lastRid);
    if rows == [] {
      assert marked + news == rows;
      EmptyPage(p, ids, assignments);
    } else {
      var n := |rows| - 1;
      var row, init := rows[n], rows[..n];
      PageUpdated(p, init, ids, assignments, lastRid);
      assert rows == init + [row];
      assert rows[..n + 1] == rows;
      MarkedStep(rows, n, ids);
      var m0, n0 := Marked(init, ids), NewVersions(init, ids, assignments, lastRid);
      var row' := if Hit(row, ids) then row.(obsolete := true) else row;
      var extra := if Hit(row, ids) then [Updated(row, lastRid + Hits(init, ids) + 1, assignments)] else [];
      assert marked == m0 + [row'] && news == n0 + extra by {
        assert n0 + [] == n0;
      }
      PageUpdatedStep(p, m0, n0, init, row, row', extra, ids, assignments);
    }
  }

  lemma EmptyPage(p: PageId, ids: set<nat>, assignments: seq<Assignment>)
    ensures Tokens(LiveOf(OnPage(p, []))) == [] && NewTokens(LiveOf(OnPage(p, [])), ids, assignments) == []
  {
  }

  // The live tokens of rows on a page.
  function Shown(p: PageId, rows: seq<TableRow>): seq<seq<Value>> {
    Tokens(LiveOf(OnPage(p, rows)))
  }

  lemma ShownConcat(p: PageId, a: seq<TableRow>, b: seq<TableRow>, ids: set<nat>, assignments: seq<Assignment>)
    ensures Shown(p, a + b) == Shown(p, a) + Shown(p, b)
    ensures NewTokens(LiveOf(OnPage(p, a + b)), ids, assignments)
         == NewTokens(LiveOf(OnPage(p, a)), ids, assignments) + NewTokens(LiveOf(OnPage(p, b)), ids, assignments)
  {
    hide LiveOf, OnPage, Tokens, NewTokens;
    OnPageConcat(p, a, b);
    LiveConcat(OnPage(p, a), OnPage(p, b));
    NewTokensConcat(LiveOf(OnPage(p, a)), LiveOf(OnPage(p, b)), ids, assignments);
  }

  lemma PageUpdatedStep(p: PageId, m0: seq<TableRow>, n0: seq<TableRow>, init: seq<TableRow>, row: TableRow, row': TableRow,
                        extra: seq<TableRow>, ids: set<nat>, assignments: seq<Assignment>)
    requires multiset(Shown(p, m0 + n0)) == multiset(NewTokens(LiveOf(OnPage(p, init)), ids, assignments))
    requires row' == if Hit(row, ids) then row.(obsolete := true) else row
    requires if Hit(row, ids) then exists id :: extra == [Updated(row, id, assignments)] else extra == []
    ensures multiset(Tokens(LiveOf(OnPage(p, (m0 + [row']) + (n0 + extra)))))
         == multiset(NewTokens(LiveOf(OnPage(p, init + [row])), ids, assignments))
  {
    hide LiveOf, OnPage, Tokens, NewTokens, Assigned;
    ShownConcat(p, m0 + [row'], n0 + extra, ids, assignments);
    ShownConcat(p, m0, [row'], ids, assignments);
    ShownConcat(p, n0, extra, ids, assignments);
    ShownConcat(p, m0, n0, ids, assignments);
    ShownConcat(p, init, [row], ids, assignments);
    OneShown(p, row, row', extra, ids, assignments);
  }

  lemma OneShown(p: PageId, row: TableRow, row': TableRow, extra: seq<TableRow>, ids: set<nat>, assignments: seq<Assignment>)
    requires row' == if Hit(row, ids) then row.(obsolete := true) else row
    requires if Hit(row, ids) then exists id :: extra == [Updated(row, id, assignments)] else extra == []
    ensures multiset(Shown(p, [row'])) + multiset(Shown(p, extra)) == multiset(NewTokens(LiveOf(OnPage(p, [row])), ids, assignments))
  {
    hide Assigned, LiveOf, OnPage;
    SingleRow(p, row);
    SingleRow(p, row');
    if Hit(row, ids) {
      SingleRow(p, extra[0]);
      assert extra == [extra[0]];
    } else {
      EmptyPage(p, ids, assignments);
    }
  }

  lemma SingleRow(p: PageId, row: TableRow)
    ensures LiveOf(OnPage(p, [row])) == if row.obsolete then [] else [(p, row)]
  {
    assert OnPage(p, [row]) == [(p, row)];
  }

  lemma {:induction false} PagesUpdated(pages: map<PageId, TablePage>, pages': map<PageId, TablePage>, list: seq<PageId>,
                                        ids: set<nat>, assignments: seq<Assignment>, rid: seq<nat>)
    requires (forall p | p in list :: p in pages && p in pages') && |rid| == |list|
    requires forall j | 0 <= j < |list| :: ReplacedOn(pages[list[j]].rows, pages'[list[j]].rows, ids, assignments, rid[j])
    ensures multiset(Tokens(LiveOf(AllRows(pages', list)))) == multiset(NewTokens(LiveOf(AllRows(pages, list)), ids, assignments))
  {
    hide LiveOf, Marked, NewVersions, Tokens, NewTokens, OnPage;
    if list == [] {
      EmptyPage(0, ids, assignments);
      assert OnPage(0, []) == [] by {
        NoRowsOnPage();
      }
    } else {
      PagesUpdated(pages, pages', list[1..], ids, assignments, rid[1..]);
      var on, on' := OnPage(list[0], pages[list[0]].rows), OnPage(list[0], pages'[list[0]].rows);
      PageUpdated(list[0], pages[list[0]].rows, ids, assignments, rid[0]);
      LiveConcat(on, AllRows(pages, list[1..]));
      LiveConcat(on', AllRows(pages', list[1..]));
      NewTokensConcat(LiveOf(on), LiveOf(AllRows(pages, list[1..])), ids, assignments);
      NewTokensConcat(LiveOf(on'), LiveOf(AllRows(pages', list[1..])), ids, assignments);
    }
  }

  lemma NoRowsOnPage()
    ensures OnPage(0, []) == []
  {
  }

  // ---- What a delete hides ----

  function NotHit(ls: seq<Located>, ids: set<nat>): seq<Located> {
    if ls == [] then []
    else if ls[0].1.id in ids then NotHit(ls[1..], ids)
    else [ls[0]] + NotHit(ls[1..], ids)
  }

  lemma {:induction false} NotHitConcat(a: seq<Located>, b: seq<Located>, ids: set<nat>)
    ensures NotHit(a + b, ids) == NotHit(a, ids) + NotHit(b, ids)
  {
    if a == [] {
      assert a + b == b;
    } else {
      assert (a + b)[1..] == a[1..] + b;
      NotHitConcat(a[1..], b, ids);
    }
  }

  lemma {:induction false} PageMarked(p: PageId, rows: seq<TableRow>, ids: set<nat>)
    ensures LiveOf(OnPage(p, Marked(rows, ids))) == NotHit(LiveOf(OnPage(p, rows)), ids)
  {
    if rows != [] {
      PageMarked(p, rows[1..], ids);
      assert OnPage(p, rows)[1..] == OnPage(p, rows[1..]);
      assert OnPage(p, Marked(rows, ids))[1..] == OnPage(p, Marked(rows[1..], ids));
    }
  }

  lemma {:induction false} PagesMarked(pages: map<PageId, TablePage>, pages': map<PageId, TablePage>, list: seq<PageId>, ids: set<nat>)
    requires forall p | p in list :: p in pages && p in pages'
    requires forall j | 0 <= j < |list| :: pages'[list[j]].rows == Marked(pages[list[j]].rows, ids)
    ensures LiveOf(AllRows(pages', list)) == NotHit(LiveOf(AllRows(pages, list)), ids)
  {
    hide Marked, OnPage;
    if list != [] {
      PagesMarked(pages, pages', list[1..], ids);
      var on, on' := OnPage(list[0], pages[list[0]].rows), OnPage(list[0], pages'[list[0]].rows);
      PageMarked(list[0], pages[list[0]].rows, ids);
      LiveConcat(on, AllRows(pages, list[1..]));
      LiveConcat(on', AllRows(pages', list[1..]));
      NotHitConcat(LiveOf(on), LiveOf(AllRows(pages, list[1..])), ids);
    }
  }

  // ---- Building an index ----

  function AllRowsOf(pages: map<PageId, TablePage>, ids: seq<PageId>, i: nat): seq<Located>
    requires i <= |ids| && forall p | p in ids :: p in pages
  {
    assert forall p | p in ids[..i] :: p in ids;
    AllRows(pages, ids[..i])
  }

  lemma NoRowsYet(pages: map<PageId, TablePage>, column: nat)
    ensures AllRows(pages, []) == [] && LiveEntries([], column) == []
  {
  }

  lemma NextRow(before: seq<Located>, p: PageId, rows: seq<TableRow>, k: nat, column: nat)
    requires k < |rows|
    ensures OnPage(p, rows[..0]) == [] && OnPage(p, rows[..k + 1]) == OnPage(p, rows[..k]) + [(p, rows[k])]
    ensures var ls := before + OnPage(p, rows[..k]);
      LiveEntries(ls + [(p, rows[k])], column) == LiveEntries(ls, column) + EntriesFor(LiveOne((p, rows[k])), column)
    ensures LiveEntries(before + OnPage(p, rows[..k]), column) + [] == LiveEntries(before + OnPage(p, rows[..k]), column)
    ensures EntriesFor(LiveOne((p, rows[k])), column)
         == if !rows[k].obsolete && Indexed(rows[k], column) then [EntryOf((p, rows[k]), column)] else []
  {
    var ls, x := before + OnPage(p, rows[..k]), (p, rows[k]);
    LiveEntriesMiddle(ls, x, [], column);
    assert ls + [x] + [] == ls + [x];
  }

  lemma NextPage(pages: map<PageId, TablePage>, ids: seq<PageId>, i: nat)
    requires i < |ids| && forall p | p in ids :: p in pages
    ensures var rows := pages[ids[i]].rows;
      AllRowsOf(pages, ids, i + 1) == AllRowsOf(pages, ids, i) + OnPage(ids[i], rows[..|rows|])
  {
    var rows := pages[ids[i]].rows;
    assert rows[..|rows|] == rows;
    assert ids[..i + 1] == ids[..i] + [ids[i]];
    RowsConcat(pages, ids[..i], [ids[i]]);
    assert AllRows(pages, [ids[i]]) == OnPage(ids[i], rows);
  }

  lemma BuiltNothing()
    ensures Built([], MAX_KEYS, MAX_KEYS) == (FIRST, 1)
  {
  }

  lemma BuiltNext(es: seq<Entry>, e: Entry)
    ensures Built(es + [e], MAX_KEYS, MAX_KEYS) ==
            var (t, last) := Built(es, MAX_KEYS, MAX_KEYS); Rooted(Insert(t, e.0, e.1, last, MAX_KEYS, MAX_KEYS))
  {
    assert (es + [e])[..|es|] == es;
  }

  lemma NewCovers(idx: TableIndex, ls: seq<Located>)
    requires (idx.tree, idx.lastPage) == Built(LiveEntries(ls, idx.column), MAX_KEYS, MAX_KEYS)
    ensures Covers(idx, ls)
  {
    hide WellFormed, Built, LiveEntries, Entries, Sorted;
    BuiltHolds(LiveEntries(ls, idx.column), MAX_KEYS, MAX_KEYS);
    LiveEntriesAmong(ls, idx.column);
  }

  lemma {:induction false} LiveEntriesAmong(ls: seq<Located>, column: nat)
    ensures multiset(LiveEntries(ls, column)) <= multiset(EntriesFor(ls, column))
  {
    hide LiveEntries, EntriesFor;
    if ls != [] {
      LiveEntriesAmong(ls[1..], column);
      FirstEntries(ls, column);
      var own := EntryOne(ls[0], column);
      AmongBehind(own, LiveEntries(ls[1..], column), EntriesFor(ls[1..], column));
    } else {
      NoEntries(column);
    }
  }

  lemma AmongBehind<T>(own: seq<T>, some: seq<T>, all: seq<T>)
    requires multiset(some) <= multiset(all)
    ensures multiset(some) <= multiset(own + all) && multiset(own + some) <= multiset(own + all)
  {
  }

  lemma FirstEntries(ls: seq<Located>, column: nat)
    requires ls != []
    ensures EntriesFor(ls, column) == EntryOne(ls[0], column) + EntriesFor(ls[1..], column)
    ensures LiveEntries(ls, column) ==
            if ls[0].1.obsolete then LiveEntries(ls[1..], column)
            else EntryOne(ls[0], column) + LiveEntries(ls[1..], column)
  {
    hide LiveEntries, EntriesFor, EntryOne;
    assert ls == [] + [ls[0]] + ls[1..];
    LiveEntriesMiddle([], ls[0], ls[1..], column);
    Middle([], ls[0], ls[1..], column);
    OneEntries(ls[0], column);
    NoEntries(column);
  }

  lemma NoEntries(column: nat)
    ensures EntriesFor([], column) == [] && LiveEntries([], column) == []
  {
  }

  ghost predicate DistinctKeys(es: seq<Entry>) {
    forall i, j | 0 <= i < j < |es| :: es[i].0 != es[j].0
  }

  ghost predicate DistinctBytes(es: seq<Entry>, realBytes: real -> seq<Byte>) {
    forall i, j | 0 <= i < j < |es| :: StoredBytes(es[i].0, realBytes) != StoredBytes(es[j].0, realBytes)
  }

  // The keys are values of one type that fit its width, as a column's are once statements are checked.
  ghost predicate OneType(es: seq<Entry>) {
    forall x, y | x in es && y in es :: TypeCode(x.0) == TypeCode(y.0) && InWidth(x.0)
  }

  // Different bytes always mean different values. In a column of one type it is the other way as well.
  lemma DistinctExactly(es: seq<Entry>, realBytes: real -> seq<Byte>)
    ensures DistinctBytes(es, realBytes) ==> DistinctKeys(es)
    ensures OneType(es) && Injective(realBytes) ==> (DistinctBytes(es, realBytes) <==> DistinctKeys(es))
  {
    hide StoredBytes, InWidth;
    if OneType(es) && Injective(realBytes) {
      forall i, j | 0 <= i < j < |es|
        ensures StoredBytes(es[i].0, realBytes) == StoredBytes(es[j].0, realBytes) <==> es[i].0 == es[j].0
      {
        assert es[i] in es && es[j] in es;
        SameBytes(es[i].0, es[j].0, realBytes);
      }
    }
  }

  ghost predicate HasBytes(es: seq<Entry>, b: seq<Byte>, realBytes: real -> seq<Byte>) {
    exists e :: e in es && StoredBytes(e.0, realBytes) == b
  }

  ghost predicate Seen(seen: set<seq<Byte>>, es: seq<Entry>, realBytes: real -> seq<Byte>) {
    DistinctBytes(es, realBytes) && forall b :: b in seen <==> HasBytes(es, b, realBytes)
  }

  lemma SeenMore(seen: set<seq<Byte>>, es: seq<Entry>, e: Entry, realBytes: real -> seq<Byte>)
    requires Seen(seen, es, realBytes) && StoredBytes(e.0, realBytes) !in seen
    ensures Seen(seen + {StoredBytes(e.0, realBytes)}, es + [e], realBytes)
  {
    hide StoredBytes;
    forall i | 0 <= i < |es| ensures StoredBytes(es[i].0, realBytes) != StoredBytes(e.0, realBytes) {
      assert es[i] in es;
      assert HasBytes(es, StoredBytes(es[i].0, realBytes), realBytes);
    }
    forall b ensures b in seen || b == StoredBytes(e.0, realBytes) <==> HasBytes(es + [e], b, realBytes) {
      HasMore(es, e, b, realBytes);
    }
  }

  lemma SeenNothing(realBytes: real -> seq<Byte>)
    ensures Seen({}, [], realBytes)
  {
    hide StoredBytes;
  }

  lemma SeenDistinct(seen: set<seq<Byte>>, es: seq<Entry>, realBytes: real -> seq<Byte>)
    requires Seen(seen, es, realBytes)
    ensures DistinctBytes(es, realBytes)
  {
    hide StoredBytes;
  }

  lemma HasMore(es: seq<Entry>, e: Entry, b: seq<Byte>, realBytes: real -> seq<Byte>)
    ensures HasBytes(es + [e], b, realBytes) <==> HasBytes(es, b, realBytes) || StoredBytes(e.0, realBytes) == b
  {
    hide StoredBytes;
    if HasBytes(es, b, realBytes) {
      var x :| x in es && StoredBytes(x.0, realBytes) == b;
      assert x in es + [e];
    }
    if StoredBytes(e.0, realBytes) == b {
      assert e in es + [e];
    }
  }

  // A value met again is repeated in the whole table.
  lemma SeenTwice(pages: map<PageId, TablePage>, ids: seq<PageId>, i: nat, p: PageId, k: nat, column: nat,
                  ls: seq<Located>, seen: set<seq<Byte>>, realBytes: real -> seq<Byte>)
    requires (forall q | q in ids :: q in pages) && i < |ids| && p == ids[i] && k < |pages[p].rows|
    requires ls == AllRowsOf(pages, ids, i) + OnPage(p, pages[p].rows[..k]) + [(p, pages[p].rows[k])]
    requires Seen(seen, LiveEntries(AllRowsOf(pages, ids, i) + OnPage(p, pages[p].rows[..k]), column), realBytes)
    requires var row := pages[p].rows[k];
      !row.obsolete && Indexed(row, column) && StoredBytes(row.tokens[column], realBytes) in seen
    ensures !DistinctBytes(LiveEntries(AllRows(pages, ids), column), realBytes)
  {
    hide LiveEntries, DistinctBytes, AllRows, AllRowsOf, LiveOf, StoredBytes;
    var rows := pages[p].rows;
    var before := AllRowsOf(pages, ids, i) + OnPage(p, rows[..k]);
    var rest := RowsFrom(pages, ids, i, k);
    LiveEntriesMiddle(before, (p, rows[k]), rest, column);
    NextRow(AllRowsOf(pages, ids, i), p, rows, k, column);
    RepeatedKey(LiveEntries(before, column), EntryOf((p, rows[k]), column), LiveEntries(rest, column), realBytes);
  }

  lemma RepeatedKey(a: seq<Entry>, e: Entry, b: seq<Entry>, realBytes: real -> seq<Byte>)
    requires HasBytes(a, StoredBytes(e.0, realBytes), realBytes)
    ensures !DistinctBytes(a + [e] + b, realBytes)
  {
    hide StoredBytes;
    var x :| x in a && StoredBytes(x.0, realBytes) == StoredBytes(e.0, realBytes);
    var i :| 0 <= i < |a| && a[i] == x;
    var es := a + [e] + b;
    assert StoredBytes(es[i].0, realBytes) == StoredBytes(es[|a|].0, realBytes);
  }

  // The rows after the k-th of the i-th page.
  lemma RowsFrom(pages: map<PageId, TablePage>, ids: seq<PageId>, i: nat, k: nat) returns (rest: seq<Located>)
    requires (forall q | q in ids :: q in pages) && i < |ids| && k < |pages[ids[i]].rows|
    ensures var rows := pages[ids[i]].rows;
      AllRows(pages, ids) == AllRowsOf(pages, ids, i) + OnPage(ids[i], rows[..k]) + [(ids[i], rows[k])] + rest
  {
    hide AllRows;
    var p, rows := ids[i], pages[ids[i]].rows;
    RowsAround(pages, ids, i);
    rest := OnPage(p, rows[k + 1..]) + AllRows(pages, ids[i + 1..]);
    assert rows == rows[..k] + ([rows[k]] + rows[k + 1..]);
    OnPageConcat(p, rows[..k], [rows[k]] + rows[k + 1..]);
    OnPageConcat(p, [rows[k]], rows[k + 1..]);
    assert OnPage(p, [rows[k]]) == [(p, rows[k])];
  }

  lemma AllRowsLists(pages: map<PageId, TablePage>, ids: seq<PageId>, chain: seq<PageId>)
    requires PagesOk(pages, ids, chain)
    ensures (forall p | p in ids :: p in pages) && Lists(AllRows(pages, ids), pages)
  {
    PagesParts(pages, ids, chain);
    forall x: Located ensures x in AllRows(pages, ids) <==> x.0 in pages && x.1 in pages[x.0].rows {
      AllRowsMembers(pages, ids, x);
    }
  }

  lemma PagesParts(pages: map<PageId, TablePage>, ids: seq<PageId>, chain: seq<PageId>)
    requires PagesOk(pages, ids, chain)
    ensures NoRepeats(ids) && (forall p | p in ids :: p in pages) && (forall p | p in pages :: p in ids)
    ensures |chain| == |ids|
  {
    SameIds(ids, chain);
  }

  lemma LastListed(pages: map<PageId, TablePage>, ids: seq<PageId>, chain: seq<PageId>)
    requires PagesOk(pages, ids, chain) && chain != []
    ensures exists j :: 0 <= j < |ids| && pages[ids[j]].next == None
  {
    var p := chain[|chain| - 1];
    SameIds(ids, chain);
    assert NextIs(pages, chain, |chain| - 1);
    assert p in ids;
  }
}
