/**
 Looking up the entries of an index once row versions of a page share an id: exactly when that still yields
 each live row once.
 */
module TableLookups {
  import opened Types
  import opened BTreeModel
  import opened BTreeInvariant
  import opened TablePages
  import opened TableRows
  import opened TableIndexes

  function PointerTo(x: Located): RowPtr {
    (x.0, x.1.id)
  }

  // How often looking up pointers yields x: as often as its own occurs, if that one leads to x.
  lemma {:induction false} ResolveTimes(pages: map<PageId, TablePage>, ps: seq<RowPtr>, x: Located)
    ensures multiset(ResolveAll(pages, ps))[x] == if Resolve(pages, PointerTo(x)) == [x] then multiset(ps)[PointerTo(x)] else 0
  {
    hide Resolve;
    if ps != [] {
      ResolveTimes(pages, ps[1..], x);
      ResolvesTo(pages, ps[0], x);
      assert ps == [ps[0]] + ps[1..];
    }
  }

  lemma ResolvesTo(pages: map<PageId, TablePage>, p: RowPtr, x: Located)
    ensures multiset(Resolve(pages, p))[x] == if p == PointerTo(x) && Resolve(pages, p) == [x] then 1 else 0
  {
    if p.0 in pages {
      FirstWithIdIs(pages[p.0].rows, p.1);
    }
  }

  lemma {:induction false} PointersBag(a: seq<Entry>, b: seq<Entry>)
    requires multiset(a) == multiset(b)
    ensures multiset(Pointers(a)) == multiset(Pointers(b))
    decreases |a|
  {
    if a == [] {
      assert |multiset(b)| == 0;
    } else {
      assert a[0] in multiset(b);
      var i: nat :| i < |b| && b[i] == a[0];
      BagWithout(a, b, i);
      PointersBag(a[1..], b[..i] + b[i + 1..]);
      assert Pointers(a) == [a[0].1] + Pointers(a[1..]);
      assert Pointers(b) == Pointers(b[..i]) + [b[i].1] + Pointers(b[i + 1..]);
      assert Pointers(b[..i] + b[i + 1..]) == Pointers(b[..i]) + Pointers(b[i + 1..]);
    }
  }

  // The indexed versions that share a pointer.
  ghost predicate AllAre(ls: seq<Located>, column: nat, x: Located) {
    forall y | y in ls && Indexed(y.1, column) && PointerTo(y) == PointerTo(x) :: y == x
  }

  // An index of all versions holds a row's pointer as often as the row occurs, and oftener exactly when
  // another version with a value shares it.
  lemma {:induction false} SharedCount(ls: seq<Located>, column: nat, x: Located)
    ensures multiset(Pointers(EntriesFor(ls, column)))[PointerTo(x)] >= multiset(WithValue(ls, column))[x]
    ensures multiset(Pointers(EntriesFor(ls, column)))[PointerTo(x)] == multiset(WithValue(ls, column))[x] <==> AllAre(ls, column, x)
  {
    hide Indexed;
    if ls != [] {
      var y, rest := ls[0], ls[1..];
      SharedCount(rest, column, x);
      assert ls == [y] + rest;
      if Indexed(y.1, column) {
        assert Pointers(EntriesFor(ls, column)) == [PointerTo(y)] + Pointers(EntriesFor(rest, column));
      }
    }
  }

  // The version that the pointer of x leads to is x, or both are obsolete.
  ghost predicate FirstStands(pages: map<PageId, TablePage>, x: Located) {
    x.0 in pages &&
    match FirstWithId(pages[x.0].rows, x.1.id)
    case None => false
    case Some(first) => first == x.1 || (first.obsolete && x.1.obsolete)
  }

  // An index that holds every version with a value yields each live row with a value once if and only if
  // every such version is the one its pointer leads to, or is obsolete like that one.
  lemma LookupExactly(ls: seq<Located>, pages: map<PageId, TablePage>, idx: TableIndex)
    requires Lists(ls, pages) && Shaped(idx.tree) && multiset(Entries(idx.tree)) == multiset(EntriesFor(ls, idx.column))
    ensures multiset(ResolveAll(pages, Pointers(Entries(idx.tree)))) == multiset(WithValue(LiveOf(ls), idx.column)) <==>
            forall x | x in ls && Indexed(x.1, idx.column) :: FirstStands(pages, x)
  {
    hide Lists, Indexed, Entries, EntriesFor, ResolveAll, WithValue, LiveOf, FirstStands, Pointers;
    PointersBag(Entries(idx.tree), EntriesFor(ls, idx.column));
    var found, live := ResolveAll(pages, Pointers(Entries(idx.tree))), WithValue(LiveOf(ls), idx.column);
    forall x: Located ensures multiset(found)[x] == Yields(ls, pages, idx.column, x) && multiset(live)[x] == Wanted(ls, idx.column, x) {
      ResolveTimes(pages, Pointers(Entries(idx.tree)), x);
      WithValueCount(LiveOf(ls), idx.column, x);
      LiveCount(ls, x);
      WithValueCount(ls, idx.column, x);
    }
    if forall x | x in ls && Indexed(x.1, idx.column) :: FirstStands(pages, x) {
      forall x: Located ensures multiset(found)[x] == multiset(live)[x] {
        YieldsWanted(ls, pages, idx.column, x);
      }
    }
    if multiset(found) == multiset(live) {
      forall x: Located ensures Yields(ls, pages, idx.column, x) == Wanted(ls, idx.column, x) {
        assert multiset(found)[x] == multiset(live)[x];
      }
      forall y | y in ls && Indexed(y.1, idx.column) ensures FirstStands(pages, y) {
        WantedStands(ls, pages, idx.column, y);
      }
    }
  }

  ghost function Yields(ls: seq<Located>, pages: map<PageId, TablePage>, column: nat, x: Located): nat {
    if Resolve(pages, PointerTo(x)) == [x] then multiset(Pointers(EntriesFor(ls, column)))[PointerTo(x)] else 0
  }

  ghost function Wanted(ls: seq<Located>, column: nat, x: Located): nat {
    if x.1.obsolete then 0 else multiset(WithValue(ls, column))[x]
  }

  lemma YieldsWanted(ls: seq<Located>, pages: map<PageId, TablePage>, column: nat, x: Located)
    requires Lists(ls, pages) && forall y | y in ls && Indexed(y.1, column) :: FirstStands(pages, y)
    ensures Yields(ls, pages, column, x) == Wanted(ls, column, x)
  {
    hide Lists, Indexed, EntriesFor, WithValue, Pointers;
    SharedCount(ls, column, x);
    WithValueCount(ls, column, x);
    assert x in ls && Indexed(x.1, column) ==> FirstStands(pages, x);
    if Resolve(pages, PointerTo(x)) == [x] {
      forall y | y in ls && Indexed(y.1, column) && PointerTo(y) == PointerTo(x) ensures y == x {
        assert FirstStands(pages, y);
      }
    }
  }

  lemma WantedStands(ls: seq<Located>, pages: map<PageId, TablePage>, column: nat, y: Located)
    requires Lists(ls, pages) && y in ls && Indexed(y.1, column)
    requires forall x: Located :: Yields(ls, pages, column, x) == Wanted(ls, column, x)
    ensures FirstStands(pages, y)
  {
    hide Indexed, EntriesFor, WithValue, Pointers;
    WithValueCount(ls, column, y);
    SharedCount(ls, column, y);
    assert Yields(ls, pages, column, y) == Wanted(ls, column, y);
    FirstWithIdIs(pages[y.0].rows, y.1.id);
    var first := FirstWithId(pages[y.0].rows, y.1.id);
    if first.Some? && !first.value.obsolete && y.1.obsolete {
      var x := (y.0, first.value);
      SharedCount(ls, column, x);
      assert Yields(ls, pages, column, x) == Wanted(ls, column, x);
      assert AllAre(ls, column, x);
    }
  }

  // Where every version has a value: the versions that share a page and an id are all obsolete, or all
  // the same live row.
  lemma SharedAlike(ls: seq<Located>, pages: map<PageId, TablePage>, idx: TableIndex)
    requires Lists(ls, pages) && Shaped(idx.tree) && multiset(Entries(idx.tree)) == multiset(EntriesFor(ls, idx.column))
    requires forall x | x in ls :: Indexed(x.1, idx.column)
    ensures multiset(ResolveAll(pages, Pointers(Entries(idx.tree)))) == multiset(LiveOf(ls)) <==>
            forall x, y | x in ls && y in ls && PointerTo(x) == PointerTo(y) :: x == y || (x.1.obsolete && y.1.obsolete)
  {
    hide Indexed, Entries, EntriesFor, ResolveAll, WithValue, LiveOf, FirstWithId, Lists;
    LookupExactly(ls, pages, idx);
    AllValued(ls, idx.column);
    forall x | x in ls ensures FirstIn(ls, pages, x) {
      FirstListed(ls, pages, x);
    }
    if forall x | x in ls :: FirstStands(pages, x) {
      forall x, y | x in ls && y in ls && PointerTo(x) == PointerTo(y) ensures x == y || (x.1.obsolete && y.1.obsolete) {
        assert FirstStands(pages, x) && FirstStands(pages, y);
      }
    }
    if forall x, y | x in ls && y in ls && PointerTo(x) == PointerTo(y) :: x == y || (x.1.obsolete && y.1.obsolete) {
      forall x | x in ls ensures FirstStands(pages, x) {
        assert FirstIn(ls, pages, x);
      }
    }
  }

  ghost predicate FirstIn(ls: seq<Located>, pages: map<PageId, TablePage>, x: Located) {
    && x.0 in pages
    && var first := FirstWithId(pages[x.0].rows, x.1.id);
       first.Some? && (x.0, first.value) in ls && first.value.id == x.1.id
  }

  lemma FirstListed(ls: seq<Located>, pages: map<PageId, TablePage>, x: Located)
    requires Lists(ls, pages) && x in ls
    ensures FirstIn(ls, pages, x)
  {
    FirstWithIdIs(pages[x.0].rows, x.1.id);
  }

  lemma {:induction false} AllValued(ls: seq<Located>, column: nat)
    requires forall x | x in ls :: Indexed(x.1, column)
    ensures WithValue(LiveOf(ls), column) == LiveOf(ls)
  {
    hide Indexed;
    if ls != [] {
      forall x | x in ls[1..] ensures x in ls {
      }
      AllValued(ls[1..], column);
    }
  }
}
