/**
 Reading a table: the sequential scan along the page chain, filters over it, index scans, and the
 statement that both plans of a query return the same rows.
 */
module TableScans {
  import opened Types
  import opened Values
  import opened BTreeModel
  import opened BTreeOrder
  import opened BTreeShape
  import opened BTreeInvariant
  import opened TablePages
  import opened TableRows
  import opened TableIndexes
  import opened TableStores
  import opened Conditions
  import opened Planner

  function Rows(ls: seq<Located>): seq<TableRow> {
    seq(|ls|, i requires 0 <= i < |ls| => ls[i].1)
  }

  lemma RowsOfConcat(a: seq<Located>, b: seq<Located>)
    ensures Rows(a + b) == Rows(a) + Rows(b)
  {
  }

  lemma {:induction false} RowsBag(a: seq<Located>, b: seq<Located>)
    requires multiset(a) == multiset(b)
    ensures multiset(Rows(a)) == multiset(Rows(b))
    decreases |a|
  {
    if a == [] {
      assert |multiset(b)| == 0;
    } else {
      assert a[0] in multiset(b);
      var i: nat :| i < |b| && b[i] == a[0];
      BagWithout(a, b, i);
      RowsBag(a[1..], b[..i] + b[i + 1..]);
      assert a == [a[0]] + a[1..];
      assert b == b[..i] + ([b[i]] + b[i + 1..]);
      RowsOfConcat([a[0]], a[1..]);
      RowsOfConcat(b[..i], [b[i]] + b[i + 1..]);
      RowsOfConcat([b[i]], b[i + 1..]);
      RowsOfConcat(b[..i], b[i + 1..]);
    }
  }

  // ---- The sequential scan ----

  function PageAfter(chain: seq<PageId>, pos: nat): Option<PageId> {
    if pos < |chain| then Some(chain[pos]) else None
  }

  // What a scan standing at a slot of the pos-th page of the chain has yet to return.
  function LeftAt(pages: map<PageId, TablePage>, chain: seq<PageId>, pos: nat, slot: nat): seq<Located>
    requires (forall p | p in chain :: p in pages) && pos < |chain| && slot <= |pages[chain[pos]].rows|
  {
    assert forall p | p in chain[pos + 1..] :: p in chain;
    LiveOf(OnPage(chain[pos], pages[chain[pos]].rows[slot..])) + LiveOf(AllRows(pages, chain[pos + 1..]))
  }

  lemma LeftNext(pages: map<PageId, TablePage>, chain: seq<PageId>, pos: nat, slot: nat)
    requires (forall p | p in chain :: p in pages) && pos < |chain| && slot < |pages[chain[pos]].rows|
    ensures var row := pages[chain[pos]].rows[slot];
      LeftAt(pages, chain, pos, slot)
      == if row.obsolete then LeftAt(pages, chain, pos, slot + 1) else [(chain[pos], row)] + LeftAt(pages, chain, pos, slot + 1)
  {
    var rows := pages[chain[pos]].rows;
    assert OnPage(chain[pos], rows[slot..])[1..] == OnPage(chain[pos], rows[slot + 1..]);
  }

  lemma LeftPage(pages: map<PageId, TablePage>, chain: seq<PageId>, pos: nat)
    requires (forall p | p in chain :: p in pages) && pos < |chain|
    ensures LeftAt(pages, chain, pos, |pages[chain[pos]].rows|)
         == if pos + 1 < |chain| then LeftAt(pages, chain, pos + 1, 0) else []
  {
    var rows := pages[chain[pos]].rows;
    assert OnPage(chain[pos], rows[|rows|..]) == [];
    if pos + 1 < |chain| {
      var next := chain[pos + 1];
      LeftFrom(pages, chain, pos + 1);
    } else {
      assert chain[pos + 1..] == [];
    }
  }

  // From the start of a page on, everything live on the rest of the chain is left.
  lemma LeftFrom(pages: map<PageId, TablePage>, chain: seq<PageId>, pos: nat)
    requires (forall p | p in chain :: p in pages) && pos < |chain|
    ensures forall p | p in chain[pos..] :: p in chain
    ensures LeftAt(pages, chain, pos, 0) == LiveOf(AllRows(pages, chain[pos..]))
  {
    var rows := pages[chain[pos]].rows;
    assert rows[0..] == rows;
    assert chain[pos..][0] == chain[pos] && chain[pos..][1..] == chain[pos + 1..];
    LiveConcat(OnPage(chain[pos], rows), AllRows(pages, chain[pos + 1..]));
  }

  class SeqScanNode {
    const store: TableStore
    var page: Option<PageId>
    var slot: nat
    ghost var pos: nat

    ghost predicate Ready()
      reads this, store
    {
      && PagesOk(store.pages, store.pageIds, store.chain)
      && page == PageAfter(store.chain, pos)
      && (pos < |store.chain| ==> store.chain[pos] in store.pages && slot <= |store.pages[store.chain[pos]].rows|)
    }

    // The rows still to come.
    ghost function Left(): seq<Located>
      requires Ready()
      reads this, store
    {
      assert forall p | p in store.chain :: p in store.pages by { SameIds(store.pageIds, store.chain); }
      if pos < |store.chain| then LeftAt(store.pages, store.chain, pos, slot) else []
    }

    constructor (store: TableStore)
      ensures this.store == store
    {
      this.store := store;
      page, slot, pos := None, 0, 0;
    }

    // The scan starts at the page that no page names.
    method Open()
      requires PagesOk(store.pages, store.pageIds, store.chain)
      modifies this
      ensures Ready()
      ensures (forall p | p in store.chain :: p in store.pages) && Left() == LiveOf(AllRows(store.pages, store.chain))
    {
      hide AllRows, LiveOf, LeftAt, PagesOk, Unnamed, NoRepeats;
      ChainParts(store.pages, store.pageIds, store.chain);
      PagesParts(store.pages, store.pageIds, store.chain);
      page := FindHead(store.pages, store.pageIds);
      slot, pos := 0, 0;
      HeadFound(store.pages, store.pageIds, store.chain, page);
      if store.chain != [] {
        LeftFrom(store.pages, store.chain, 0);
        assert store.chain[0..] == store.chain;
      } else {
        NothingLeft(store.pages, store.chain);
      }
    }

    // The next row that is not obsolete, moving along the chain.
    method Next() returns (row: Option<TableRow>)
      requires Ready()
      modifies this
      ensures Ready()
      ensures match row
        case None => old(Left()) == [] && Left() == []
        case Some(r) => exists x: Located :: x.1 == r && old(Left()) == [x] + Left()
    {
      hide LeftAt, AllRows, LiveOf, PagesOk;
      ChainParts(store.pages, store.pageIds, store.chain);
      while page.Some?
        invariant Ready() && Left() == old(Left())
        decreases |store.chain| - pos
      {
        var rows := store.pages[page.value].rows;
        ghost var at := pos;
        while slot < |rows|
          invariant Ready() && Left() == old(Left())
          invariant pos == at && pos < |store.chain| && page == Some(store.chain[pos]) && rows == store.pages[store.chain[pos]].rows
        {
          LeftNext(store.pages, store.chain, pos, slot);
          var candidate := rows[slot];
          slot := slot + 1;
          if !candidate.obsolete {
            assert old(Left()) == [(store.chain[pos], candidate)] + Left();
            return Some(candidate);
          }
        }
        LeftPage(store.pages, store.chain, pos);
        NextPageOf(store.pages, store.pageIds, store.chain, pos);
        page := store.pages[page.value].next;
        slot := 0;
        pos := pos + 1;
      }
      return None;
    }

    // The rows still to come, as the caller of the scan collects them.
    method Drain() returns (rows: seq<TableRow>)
      requires Ready()
      modifies this
      ensures Ready() && rows == Rows(old(Left())) && Left() == []
    {
      hide LeftAt, PagesOk, AllRows, LiveOf, Rows;
      rows := [];
      assert rows + Rows(Left()) == Rows(Left());
      while true
        invariant Ready() && rows + Rows(Left()) == Rows(old(Left()))
        decreases |Left()|
      {
        ghost var left := Left();
        var row := Next();
        if row == None {
          NoRows(rows);
          return;
        }
        ghost var x: Located :| x.1 == row.value && left == [x] + Left();
        RowsAndNext(rows, x, Left());
        rows := rows + [row.value];
      }
    }
  }

  lemma NoRows(rows: seq<TableRow>)
    ensures rows + Rows([]) == rows
  {
  }

  lemma RowsAndNext(rows: seq<TableRow>, x: Located, rest: seq<Located>)
    ensures rows + Rows([x] + rest) == rows + [x.1] + Rows(rest)
  {
  }

  lemma HeadFound(pages: map<PageId, TablePage>, ids: seq<PageId>, chain: seq<PageId>, head: Option<PageId>)
    requires PagesOk(pages, ids, chain) && (head == None <==> ids == []) && (head.Some? ==> head.value in ids)
    requires forall p | p in ids :: p in pages
    requires forall p | p in ids && Unnamed(pages, ids, p) :: head.Some? && Unnamed(pages, ids, head.value)
    ensures head == PageAfter(chain, 0) && (chain != [] ==> chain[0] in pages)
  {
    hide PagesOk, Unnamed;
    ChainParts(pages, ids, chain);
    PagesParts(pages, ids, chain);
    if chain != [] {
      FirstListed(pages, ids, chain);
      HeadIs(pages, ids, chain, chain[0]);
      HeadIs(pages, ids, chain, head.value);
    }
  }

  lemma FirstListed(pages: map<PageId, TablePage>, ids: seq<PageId>, chain: seq<PageId>)
    requires PagesOk(pages, ids, chain) && chain != []
    ensures chain[0] in ids && ids != []
  {
    SameIds(ids, chain);
  }

  lemma NothingLeft(pages: map<PageId, TablePage>, chain: seq<PageId>)
    ensures chain == [] ==> LiveOf(AllRows(pages, [])) == []
  {
  }

  lemma ChainParts(pages: map<PageId, TablePage>, ids: seq<PageId>, chain: seq<PageId>)
    requires PagesOk(pages, ids, chain)
    ensures forall p | p in chain :: p in pages
  {
    SameIds(ids, chain);
  }

  lemma NextPageOf(pages: map<PageId, TablePage>, ids: seq<PageId>, chain: seq<PageId>, pos: nat)
    requires PagesOk(pages, ids, chain) && pos < |chain|
    ensures chain[pos] in pages && pages[chain[pos]].next == PageAfter(chain, pos + 1)
  {
    assert NextIs(pages, chain, pos);
  }

  // The first listed page that no listed page names as its next; failing that, the first listed one.
  method FindHead(pages: map<PageId, TablePage>, ids: seq<PageId>) returns (head: Option<PageId>)
    requires forall p | p in ids :: p in pages
    ensures head == None <==> ids == []
    ensures head.Some? ==> head.value in ids
    ensures forall p | p in ids && Unnamed(pages, ids, p) :: head.Some? && Unnamed(pages, ids, head.value)
  {
    var referenced: set<PageId> := {};
    for i := 0 to |ids|
      invariant forall p :: p in referenced <==> exists j :: 0 <= j < i && pages[ids[j]].next == Some(p)
    {
      if pages[ids[i]].next.Some? {
        referenced := referenced + {pages[ids[i]].next.value};
      }
    }
    for i := 0 to |ids|
      invariant forall j | 0 <= j < i :: ids[j] in referenced
    {
      if ids[i] !in referenced {
        return Some(ids[i]);
      }
    }
    if ids != [] {
      return Some(ids[0]);
    }
    return None;
  }

  // ---- Filters ----

  datatype Step = Done | Failed | Produced(row: TableRow)

  // The rows a filter lets through, or an exception.
  function Passing(ls: seq<Located>, c: Condition): Option<seq<Located>> {
    if ls == [] then Some([])
    else
      match Evaluate(ls[0].1, c)
      case None => None
      case Some(pass) =>
        match Passing(ls[1..], c)
        case None => None
        case Some(rest) => Some(if pass then [ls[0]] + rest else rest)
  }

  class FilterNode {
    const child: SeqScanNode
    const condition: Condition

    constructor (child: SeqScanNode, condition: Condition)
      ensures this.child == child && this.condition == condition
    {
      this.child := child;
      this.condition := condition;
    }

    // Pulls rows until one passes.
    method Next() returns (step: Step)
      requires child.Ready()
      modifies child
      ensures child.Ready()
      ensures match step
        case Done => Passing(old(child.Left()), condition) == Some([])
        case Failed => Passing(old(child.Left()), condition) == None
        case Produced(row) =>
          exists x: Located :: x.1 == row && Passing(old(child.Left()), condition) == Before(x, Passing(child.Left(), condition))
      ensures step.Produced? ==> |child.Left()| < |old(child.Left())|
    {
      hide Evaluate, PagesOk, LeftAt;
      while true
        invariant child.Ready() && Passing(child.Left(), condition) == Passing(old(child.Left()), condition)
        invariant |child.Left()| <= |old(child.Left())|
        decreases |child.Left()|
      {
        ghost var left := child.Left();
        var row := child.Next();
        if row == None {
          return Done;
        }
        ghost var x: Located :| x.1 == row.value && left == [x] + child.Left();
        assert left[1..] == child.Left();
        match Evaluate(row.value, condition) {
          case None =>
            return Failed;
          case Some(pass) =>
            if pass {
              return Produced(row.value);
            }
        }
      }
    }

    // All rows, as a client of the plan collects them.
    method Drain() returns (rows: Option<seq<TableRow>>)
      requires child.Ready()
      modifies child
      ensures rows == match Passing(old(child.Left()), condition) case None => None case Some(ls) => Some(Rows(ls))
    {
      hide Evaluate, PagesOk, LeftAt, Passing;
      var got: seq<TableRow> := [];
      while true
        invariant child.Ready()
        invariant Collected(Passing(old(child.Left()), condition), got, Passing(child.Left(), condition))
        decreases |child.Left()|
      {
        ghost var left := Passing(child.Left(), condition);
        var step := Next();
        match step {
          case Done =>
            assert got + Rows([]) == got;
            return Some(got);
          case Failed =>
            return None;
          case Produced(row) =>
            CollectedMore(Passing(old(child.Left()), condition), got, left, row, Passing(child.Left(), condition));
            got := got + [row];
        }
      }
    }
  }

  function Before(x: Located, rest: Option<seq<Located>>): Option<seq<Located>> {
    match rest case None => None case Some(ls) => Some([x] + ls)
  }

  // What has been collected and what is left make up the whole.
  ghost predicate Collected(whole: Option<seq<Located>>, got: seq<TableRow>, left: Option<seq<Located>>) {
    match left
    case None => whole == None
    case Some(ls) => whole.Some? && Rows(whole.value) == got + Rows(ls)
  }

  lemma CollectedMore(whole: Option<seq<Located>>, got: seq<TableRow>, left: Option<seq<Located>>, row: TableRow, left': Option<seq<Located>>)
    requires Collected(whole, got, left) && exists x: Located :: x.1 == row && left == Before(x, left')
    ensures Collected(whole, got + [row], left')
  {
    var x: Located :| x.1 == row && left == Before(x, left');
    if left'.Some? {
      RowsOfConcat([x], left'.value);
      assert Rows([x]) == [row];
      assert got + ([row] + Rows(left'.value)) == got + [row] + Rows(left'.value);
    }
  }

  // ---- Index scans ----

  // The rows an index scan returns for resolved pointers, or an exception.
  function Selected(ls: seq<Located>, c: Condition): Option<seq<Located>> {
    if ls == [] then Some([])
    else
      match Matches(ls[0].1, c)
      case None => None
      case Some(pass) =>
        match Selected(ls[1..], c)
        case None => None
        case Some(rest) => Some(if pass then [ls[0]] + rest else rest)
  }

  function IndexWith(indexes: seq<TableIndex>, id: Uuid): (idx: Option<TableIndex>)
    ensures idx.Some? ==> idx.value in indexes && idx.value.id == id
    ensures idx == None <==> forall i | 0 <= i < |indexes| :: indexes[i].id != id
  {
    if indexes == [] then None
    else if indexes[0].id == id then Some(indexes[0])
    else IndexWith(indexes[1..], id)
  }

  class IndexScanNode {
    const store: TableStore
    const indexId: Uuid
    const condition: Condition
    var rows: seq<TableRow>
    var index: nat

    constructor (store: TableStore, indexId: Uuid, condition: Condition)
      ensures this.store == store && this.indexId == indexId && this.condition == condition && rows == [] && index == 0
    {
      this.store := store;
      this.indexId := indexId;
      this.condition := condition;
      rows := [];
      index := 0;
    }

    // Looks up the pointers found in the index, keeping the rows that satisfy the condition; false stands
    // for an exception.
    method Open() returns (ok: bool)
      requires AllShaped(store.indexes)
      modifies this
      ensures index == 0
      ensures match IndexWith(store.indexes, indexId)
        case None => !ok
        case Some(idx) =>
          var result := Selected(Candidates(store.pages, idx, condition), condition);
          ok == result.Some? && (ok ==> rows == Rows(result.value))
    {
      hide Matches, Resolve, Entries, Find;
      index := 0;
      rows := [];
      var idx := FindIndex();
      if idx == None {
        return false;
      }
      var key := TaggedKey(condition, idx.value.column);
      if key.Some? {
        var pointer := Find(idx.value.tree, key.value);
        if pointer.Some? {
          ok := AppendRow(pointer.value);
          return;
        }
        return true;
      }
      var pointers := Walk(idx.value.tree);
      for i := 0 to |pointers|
        invariant index == 0
        invariant Collected(Selected(ResolveAll(store.pages, pointers), condition), rows,
                               Selected(ResolveAll(store.pages, pointers[i..]), condition))
      {
        NextPointer(store.pages, pointers, i);
        SelectedConcat(Resolve(store.pages, pointers[i]), ResolveAll(store.pages, pointers[i + 1..]), condition);
        CollectedAll(Selected(ResolveAll(store.pages, pointers), condition), rows,
                     Selected(Resolve(store.pages, pointers[i]), condition),
                     Selected(ResolveAll(store.pages, pointers[i + 1..]), condition));
        ok := AppendRow(pointers[i]);
        if !ok {
          return;
        }
      }
      assert rows + Rows([]) == rows;
      return true;
    }

    // The pointers met along the leaf chain (IndexBPlusTree.Walk).
    method Walk(tree: Tree) returns (pointers: seq<RowPtr>)
      requires Shaped(tree)
      ensures pointers == Pointers(Entries(tree))
    {
      hide Entries;
      var leaves := Leaves(tree);
      LeavesEntries(tree);
      pointers := [];
      assert leaves[..0] == [];
      for i := 0 to |leaves|
        invariant pointers == Pointers(EntriesOf(leaves[..i]))
      {
        LeafPointers(leaves, i);
        pointers := pointers + leaves[i].rows;
      }
      assert leaves[..|leaves|] == leaves;
    }

    // The row a pointer leads to, unless it is obsolete or fails the condition.
    method AppendRow(pointer: RowPtr) returns (ok: bool)
      modifies this`rows
      ensures match Selected(Resolve(store.pages, pointer), condition)
        case None => !ok
        case Some(ls) => ok && rows == old(rows) + Rows(ls)
    {
      hide Matches;
      var found := Resolve(store.pages, pointer);
      if found == [] {
        return true;
      }
      assert found == [found[0]] + [];
      SelectedStep(found[0], [], condition);
      var pass := Matches(found[0].1, condition);
      if pass == None {
        return false;
      }
      if pass.value {
        assert Rows([found[0]]) == [found[0].1];
        rows := rows + [found[0].1];
      }
      return true;
    }

    method FindIndex() returns (idx: Option<TableIndex>)
      ensures idx == IndexWith(store.indexes, indexId)
    {
      for i := 0 to |store.indexes|
        invariant IndexWith(store.indexes, indexId) == IndexWith(store.indexes[i..], indexId)
      {
        assert store.indexes[i..][1..] == store.indexes[i + 1..];
        if store.indexes[i].id == indexId {
          return Some(store.indexes[i]);
        }
      }
      return None;
    }

    method Next() returns (row: Option<TableRow>)
      requires index <= |rows|
      modifies this`index
      ensures index <= |rows|
      ensures if old(index) < |rows| then row == Some(rows[old(index)]) && index == old(index) + 1
              else row == None && index == old(index)
    {
      if index >= |rows| {
        return None;
      }
      row := Some(rows[index]);
      index := index + 1;
    }
  }

  lemma NextPointer(pages: map<PageId, TablePage>, ps: seq<RowPtr>, i: nat)
    requires i < |ps|
    ensures ResolveAll(pages, ps[i..]) == Resolve(pages, ps[i]) + ResolveAll(pages, ps[i + 1..])
    ensures |Resolve(pages, ps[i])| <= 1
  {
    assert ps[i..][1..] == ps[i + 1..];
  }

  lemma SelectedStep(x: Located, rest: seq<Located>, c: Condition)
    ensures Selected([x] + rest, c) ==
            match Matches(x.1, c)
            case None => None
            case Some(pass) =>
              match Selected(rest, c)
              case None => None
              case Some(ls) => Some(if pass then [x] + ls else ls)
  {
    assert ([x] + rest)[1..] == rest;
  }

  lemma {:induction false} SelectedConcat(a: seq<Located>, b: seq<Located>, c: Condition)
    ensures Selected(a + b, c) ==
            match Selected(a, c)
            case None => None
            case Some(x) =>
              match Selected(b, c)
              case None => None
              case Some(y) => Some(x + y)
  {
    hide Matches;
    if a == [] {
      assert a + b == b;
      if Selected(b, c).Some? {
        assert [] + Selected(b, c).value == Selected(b, c).value;
      }
    } else {
      assert a + b == [a[0]] + (a[1..] + b);
      assert a == [a[0]] + a[1..];
      SelectedConcat(a[1..], b, c);
      SelectedStep(a[0], a[1..] + b, c);
      SelectedStep(a[0], a[1..], c);
      var x, y := Selected(a[1..], c), Selected(b, c);
      if x.Some? && y.Some? {
        assert [a[0]] + (x.value + y.value) == [a[0]] + x.value + y.value;
      }
    }
  }

  // What the next pointer adds to what has been collected.
  lemma CollectedAll(whole: Option<seq<Located>>, rows: seq<TableRow>, found: Option<seq<Located>>, left: Option<seq<Located>>)
    requires Collected(whole, rows, match found case None => None case Some(x) => match left case None => None case Some(y) => Some(x + y))
    ensures found == None ==> whole == None
    ensures found.Some? ==> Collected(whole, rows + Rows(found.value), left)
  {
    if found.Some? && left.Some? {
      RowsOfConcat(found.value, left.value);
      assert rows + (Rows(found.value) + Rows(left.value)) == rows + Rows(found.value) + Rows(left.value);
    }
  }

  // The rows whose pointers an index scan looks up: for an equality with a tagged column the one that
  // find returns, otherwise all.
  ghost function Candidates(pages: map<PageId, TablePage>, idx: TableIndex, c: Condition): seq<Located>
    requires Shaped(idx.tree)
  {
    match TaggedKey(c, idx.column)
    case None => ResolveAll(pages, Pointers(Entries(idx.tree)))
    case Some(key) =>
      match Find(idx.tree, key)
      case None => []
      case Some(pointer) => Resolve(pages, pointer)
  }

  // The short cut for tagged columns never returns a row: once find leads to a live row, the comparison
  // that follows does not know the tag and throws.
  lemma TaggedScanReturnsNothing(pages: map<PageId, TablePage>, idx: TableIndex, c: Condition)
    requires Shaped(idx.tree) && TaggedKey(c, idx.column).Some?
    ensures Selected(Candidates(pages, idx, c), c) == if Candidates(pages, idx, c) == [] then Some([]) else None
  {
    var ls := Candidates(pages, idx, c);
    if ls != [] {
      assert Matches(ls[0].1, c) == None;
    }
  }

  // ---- Both plans return the same rows ----

  lemma {:induction false} PassingIs(ls: seq<Located>, c: Condition)
    requires forall x | x in ls :: Evaluate(x.1, c).Some?
    ensures var kept := Passing(ls, c);
      kept.Some? && forall x: Located :: multiset(kept.value)[x] == if Evaluate(x.1, c) == Some(true) then multiset(ls)[x] else 0
  {
    hide Evaluate;
    if ls != [] {
      PassingIs(ls[1..], c);
      assert ls == [ls[0]] + ls[1..];
    }
  }

  lemma {:induction false} SelectedIs(ls: seq<Located>, c: Condition)
    requires forall x | x in ls :: Matches(x.1, c).Some?
    ensures var kept := Selected(ls, c);
      kept.Some? && forall x: Located :: multiset(kept.value)[x] == if Matches(x.1, c) == Some(true) then multiset(ls)[x] else 0
  {
    hide Matches;
    if ls != [] {
      SelectedIs(ls[1..], c);
      assert ls == [ls[0]] + ls[1..];
    }
  }

  // The scan of a covering index returns exactly once each live row that has a value in the column
  // and satisfies the condition; nothing stale surfaces.
  lemma IndexScanExact(pages: map<PageId, TablePage>, ids: seq<PageId>, chain: seq<PageId>, idx: TableIndex, c: Condition)
    requires PagesOk(pages, ids, chain) && (forall p | p in ids :: p in pages)
    requires IdsApart(AllRows(pages, ids)) && Covers(idx, AllRows(pages, ids)) && Shaped(idx.tree)
    requires forall x | x in LiveOf(AllRows(pages, ids)) && Indexed(x.1, idx.column) :: Matches(x.1, c).Some?
    ensures var result := Selected(ResolveAll(pages, Pointers(Entries(idx.tree))), c);
      && result.Some?
      && forall x: Located :: multiset(result.value)[x] ==
           if Indexed(x.1, idx.column) && Matches(x.1, c) == Some(true) then multiset(LiveOf(AllRows(pages, ids)))[x] else 0
  {
    hide Matches, PagesOk, IdsApart, Covers, Lists, LiveOf, WithValue, ResolveAll, Selected, AllRows;
    var ls := AllRows(pages, ids);
    AllRowsLists(pages, ids, chain);
    LookupExact(ls, pages, idx);
    var found, valued := ResolveAll(pages, Pointers(Entries(idx.tree))), WithValue(LiveOf(ls), idx.column);
    forall x: Located ensures multiset(valued)[x] == if Indexed(x.1, idx.column) then multiset(LiveOf(ls))[x] else 0 {
      WithValueCount(LiveOf(ls), idx.column, x);
    }
    forall x | x in found ensures Matches(x.1, c).Some? {
      assert x in multiset(found);
      assert multiset(valued)[x] > 0;
      assert x in multiset(LiveOf(ls));
    }
    SelectedIs(found, c);
  }

  // A condition column op literal, with the literal and the values of the column of one ordinary type.
  ghost predicate Comparable(c: Condition, column: nat, ls: seq<Located>) {
    && c.left == Column(column) && c.right.Literal? && (c.op.Eq? || c.op.Gr? || c.op.Gre?)
    && Ordinary(c.right.value)
    && forall x | x in ls :: column < |x.1.tokens| && FitsType(x.1.tokens[column], c.right.value)
  }

  predicate FitsType(v: Value, literal: Value) {
    v.Null? || TypeCode(v) == TypeCode(literal)
  }

  lemma RowAgrees(row: TableRow, c: Condition, column: nat)
    requires c.left == Column(column) && c.right.Literal? && (c.op.Eq? || c.op.Gr? || c.op.Gre?) && Ordinary(c.right.value)
    requires column < |row.tokens| && FitsType(row.tokens[column], c.right.value)
    ensures Evaluate(row, c).Some? && Matches(row, c).Some?
    ensures Evaluate(row, c) == Some(Indexed(row, column) && Matches(row, c) == Some(true))
  {
    hide EvalOp, IndexOp, Less;
    var v := row.tokens[column];
    if v.Null? {
      NullFails(c.op, c.right.value);
    } else {
      SupportedAgree(c.op, v, c.right.value);
    }
    SomeMatch(c.op, v, c.right.value);
  }

  lemma SomeMatch(op: Operator, l: Value, r: Value)
    requires op.Eq? || op.Gr? || op.Gre?
    ensures IndexOp(op, l, r).Some?
  {
  }

  // The index plan and the filter plan return the same multiset of rows.
  lemma PlansAgree(pages: map<PageId, TablePage>, ids: seq<PageId>, chain: seq<PageId>, idx: TableIndex, c: Condition)
    requires PagesOk(pages, ids, chain) && (forall p | p in ids :: p in pages) && (forall p | p in chain :: p in pages)
    requires IdsApart(AllRows(pages, ids)) && Covers(idx, AllRows(pages, ids)) && Shaped(idx.tree)
    requires Comparable(c, idx.column, LiveOf(AllRows(pages, ids)))
    ensures var filtered := Passing(LiveOf(AllRows(pages, chain)), c);
      var scanned := Selected(ResolveAll(pages, Pointers(Entries(idx.tree))), c);
      filtered.Some? && scanned.Some? && multiset(Rows(filtered.value)) == multiset(Rows(scanned.value))
  {
    hide Matches, Evaluate, PagesOk, IdsApart, Covers, LiveOf, ResolveAll, Selected, Passing, AllRows, Ordinary, FitsType, Entries;
    var live, inChain := LiveOf(AllRows(pages, ids)), LiveOf(AllRows(pages, chain));
    SameLive(pages, ids, chain);
    forall x | x in live
      ensures Evaluate(x.1, c).Some? && Matches(x.1, c).Some?
      ensures Evaluate(x.1, c) == Some(Indexed(x.1, idx.column) && Matches(x.1, c) == Some(true))
    {
      RowAgrees(x.1, c, idx.column);
    }
    forall x | x in inChain ensures x in live {
      assert x in multiset(inChain);
    }
    PassingIs(inChain, c);
    IndexScanExact(pages, ids, chain, idx, c);
    var filtered := Passing(inChain, c).value;
    var scanned := Selected(ResolveAll(pages, Pointers(Entries(idx.tree))), c).value;
    forall x: Located ensures multiset(filtered)[x] == multiset(scanned)[x] {
      if x !in live {
        assert multiset(live)[x] == 0;
      }
    }
    assert multiset(filtered) == multiset(scanned);
    RowsBag(filtered, scanned);
  }

  lemma SameLive(pages: map<PageId, TablePage>, ids: seq<PageId>, chain: seq<PageId>)
    requires PagesOk(pages, ids, chain) && (forall p | p in ids :: p in pages) && (forall p | p in chain :: p in pages)
    ensures multiset(LiveOf(AllRows(pages, chain))) == multiset(LiveOf(AllRows(pages, ids)))
  {
    SameBag(pages, chain, ids);
  }

  // The live rows along the chain are those of the page list, whatever order it has.
  lemma SeqScanExact(pages: map<PageId, TablePage>, ids: seq<PageId>, chain: seq<PageId>)
    requires PagesOk(pages, ids, chain)
    ensures (forall p | p in ids :: p in pages) && (forall p | p in chain :: p in pages)
    ensures multiset(Rows(LiveOf(AllRows(pages, chain)))) == multiset(Rows(LiveOf(AllRows(pages, ids))))
  {
    PagesParts(pages, ids, chain);
    ChainParts(pages, ids, chain);
    SameLive(pages, ids, chain);
    RowsBag(LiveOf(AllRows(pages, chain)), LiveOf(AllRows(pages, ids)));
  }

  // A sequential scan of a table returns every live row exactly once.
  method SeqScanTable(store: TableStore) returns (rows: seq<TableRow>)
    requires PagesOk(store.pages, store.pageIds, store.chain)
    ensures forall p | p in store.pageIds :: p in store.pages
    ensures multiset(rows) == multiset(Rows(LiveOf(store.All())))
  {
    hide LiveOf, AllRows, PagesOk;
    SeqScanExact(store.pages, store.pageIds, store.chain);
    var scan := new SeqScanNode(store);
    scan.Open();
    rows := scan.Drain();
  }

  // ---- A query ----

  function Infos(indexes: seq<TableIndex>): seq<IndexInfo> {
    seq(|indexes|, i requires 0 <= i < |indexes| => IndexInfo(indexes[i].id, indexes[i].column, indexes[i].isUnique))
  }

  ghost predicate DistinctIndexes(indexes: seq<TableIndex>) {
    forall i, j | 0 <= i < j < |indexes| :: indexes[i].id != indexes[j].id
  }

  lemma {:induction false} LiveAtMost(ls: seq<Located>)
    ensures |LiveOf(ls)| <= |ls|
  {
    if ls != [] {
      LiveAtMost(ls[1..]);
    }
  }

  // The value satisfies the comparison with the literal, as numbers, codes, or strings in dictionary order.
  ghost predicate Satisfies(op: Operator, v: Value, literal: Value) {
    match op
    case Eq => v == literal
    case Gr => Exceeds(v, literal)
    case Gre => Exceeds(v, literal) || v == literal
    case _ => false
  }

  lemma RowSatisfies(row: TableRow, c: Condition, column: nat)
    requires c.left == Column(column) && c.right.Literal? && (c.op.Eq? || c.op.Gr? || c.op.Gre?) && Ordinary(c.right.value)
    requires column < |row.tokens| && FitsType(row.tokens[column], c.right.value)
    ensures Evaluate(row, c) == Some(Satisfies(c.op, row.tokens[column], c.right.value))
  {
    var v := row.tokens[column];
    if v.Null? {
      NullFails(c.op, c.right.value);
    } else {
      OperatorsMean(v, c.right.value);
    }
  }

  // How often each row passes.
  lemma {:induction false} PassingRows(ls: seq<Located>, c: Condition, row: TableRow)
    requires forall x | x in ls :: Evaluate(x.1, c).Some?
    ensures var kept := Passing(ls, c);
      kept.Some? && multiset(Rows(kept.value))[row] == if Evaluate(row, c) == Some(true) then multiset(Rows(ls))[row] else 0
  {
    hide Evaluate;
    if ls != [] {
      PassingRows(ls[1..], c, row);
      var rest := Passing(ls[1..], c).value;
      assert Rows(ls) == [ls[0].1] + Rows(ls[1..]);
      assert Rows([ls[0]] + rest) == [ls[0].1] + Rows(rest);
    }
  }

  // Plans and runs SELECT ... WHERE column op literal. Whichever scan the planner chooses, the rows
  // are those the filter over the sequential scan lets through: each live row whose value satisfies the
  // comparison, as often as the table has it.
  method RunSelect(store: TableStore, condition: Condition, column: nat, log2: nat -> real) returns (rows: seq<TableRow>)
    requires store.Valid() && store.DistinctIds() && DistinctIndexes(store.indexes) && Logarithm(log2)
    requires Comparable(condition, column, LiveOf(store.All()))
    ensures forall p | p in store.chain :: p in store.pages
    ensures var filtered := Passing(LiveOf(AllRows(store.pages, store.chain)), condition);
      filtered.Some? && multiset(rows) == multiset(Rows(filtered.value))
    ensures forall row: TableRow :: multiset(rows)[row] ==
              if column < |row.tokens| && Satisfies(condition.op, row.tokens[column], condition.right.value)
              then multiset(Rows(LiveOf(store.All())))[row] else 0
  {
    hide LiveOf, AllRows, PagesOk, Covers, IdsApart, Passing, Selected, ResolveAll, Entries, Comparable, Cheapest, Satisfies;
    PagesParts(store.pages, store.pageIds, store.chain);
    ChainParts(store.pages, store.pageIds, store.chain);
    LiveAtMost(store.All());
    CoversShaped(store.indexes, store.All());
    ComparableParts(condition, column, LiveOf(store.All()));
    FilterSucceeds(store.pages, store.pageIds, store.chain, condition, column);
    var choice := ChooseScanType(store.totalRows, store.liveRows, Some(condition), Infos(store.indexes), log2);
    match choice {
      case SeqScan =>
        var scan := new SeqScanNode(store);
        scan.Open();
        var filter := new FilterNode(scan, condition);
        var drained := filter.Drain();
        rows := drained.value;
      case IndexScan(id) =>
        ghost var i := ChosenIndex(store.indexes, id, condition, column, store.totalRows, store.liveRows, log2);
        PlansAgree(store.pages, store.pageIds, store.chain, store.indexes[i], condition);
        var scan := new IndexScanNode(store, id, condition);
        var ok := scan.Open();
        rows := scan.rows;
    }
    forall row: TableRow ensures multiset(rows)[row] ==
              if column < |row.tokens| && Satisfies(condition.op, row.tokens[column], condition.right.value)
              then multiset(Rows(LiveOf(store.All())))[row] else 0
    {
      RowsSatisfying(store.pages, store.pageIds, store.chain, condition, column, row);
    }
  }

  lemma RowsSatisfying(pages: map<PageId, TablePage>, ids: seq<PageId>, chain: seq<PageId>, c: Condition, column: nat, row: TableRow)
    requires PagesOk(pages, ids, chain) && (forall p | p in ids :: p in pages) && (forall p | p in chain :: p in pages)
    requires Comparable(c, column, LiveOf(AllRows(pages, ids)))
    ensures var kept := Passing(LiveOf(AllRows(pages, chain)), c);
      && kept.Some? && c.right.Literal?
      && multiset(Rows(kept.value))[row] ==
           if column < |row.tokens| && Satisfies(c.op, row.tokens[column], c.right.value)
           then multiset(Rows(LiveOf(AllRows(pages, ids))))[row] else 0
  {
    hide LiveOf, AllRows, PagesOk, Evaluate, FitsType, Ordinary, Satisfies, Passing;
    var live, inChain := LiveOf(AllRows(pages, ids)), LiveOf(AllRows(pages, chain));
    SeqScanExact(pages, ids, chain);
    SameLive(pages, ids, chain);
    forall x | x in inChain
      ensures column < |x.1.tokens| && Evaluate(x.1, c) == Some(Satisfies(c.op, x.1.tokens[column], c.right.value))
    {
      assert x in multiset(inChain);
      assert x in live;
      RowSatisfies(x.1, c, column);
    }
    PassingRows(inChain, c, row);
    if multiset(Rows(inChain))[row] > 0 {
      RowFrom(inChain, row);
    }
  }

  lemma RowFrom(ls: seq<Located>, row: TableRow)
    requires multiset(Rows(ls))[row] > 0
    ensures exists x :: x in ls && x.1 == row
  {
    assert row in Rows(ls);
    var i :| 0 <= i < |Rows(ls)| && Rows(ls)[i] == row;
    assert ls[i] in ls;
  }

  lemma ComparableParts(c: Condition, column: nat, ls: seq<Located>)
    requires Comparable(c, column, ls)
    ensures c.left == Column(column) && c.right.Literal? && !IsNullPredicate(c) && forall k :: TaggedKey(c, k) == None
  {
  }

  lemma FilterSucceeds(pages: map<PageId, TablePage>, ids: seq<PageId>, chain: seq<PageId>, c: Condition, column: nat)
    requires PagesOk(pages, ids, chain) && (forall p | p in ids :: p in pages) && (forall p | p in chain :: p in pages)
    requires Comparable(c, column, LiveOf(AllRows(pages, ids)))
    ensures Passing(LiveOf(AllRows(pages, chain)), c).Some?
  {
    hide LiveOf, AllRows, PagesOk, Evaluate, FitsType, Ordinary;
    SameLive(pages, ids, chain);
    var live, inChain := LiveOf(AllRows(pages, ids)), LiveOf(AllRows(pages, chain));
    forall x | x in inChain ensures Evaluate(x.1, c).Some? {
      assert x in multiset(inChain);
      assert x in live;
      RowAgrees(x.1, c, column);
    }
    PassingIs(inChain, c);
  }

  lemma ChosenIndex(indexes: seq<TableIndex>, id: Uuid, c: Condition, column: nat, total: nat, live: nat, log2: nat -> real)
    returns (i: nat)
    requires DistinctIndexes(indexes) && c.left == Column(column) && live <= total
    requires exists j: nat :: Cheapest(Infos(indexes), |Infos(indexes)|, j, c, total, live, log2) && Infos(indexes)[j].id == id
    ensures i < |indexes| && indexes[i].column == column && IndexWith(indexes, id) == Some(indexes[i])
  {
    hide IndexCost;
    i :| Cheapest(Infos(indexes), |Infos(indexes)|, i, c, total, live, log2) && Infos(indexes)[i].id == id;
    var found := IndexWith(indexes, id);
    assert found.Some?;
    var k: nat :| k < |indexes| && indexes[k] == found.value;
    assert k == i;
  }
}
