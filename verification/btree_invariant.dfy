/**
 What every insertion keeps of a whole B+ tree, and what a run of insertions leaves in it.
 */
module BTreeInvariant {
  import opened Values
  import opened BTreeModel
  import opened BTreeOrder
  import opened BTreeShape

  // Page numbers start at 1; 0 stands for no page.
  ghost predicate IdsUpTo(t: Tree, last: nat) {
    forall x | x in Ids(t) :: 0 < x <= last
  }

  ghost predicate Level(t: Tree) {
    exists depth: nat :: Uniform(t, depth)
  }

  // Sorted with separators equal to the smallest key on their right, all leaves at one depth and
  // chained from left to right, nodes filled within their bounds, page numbers distinct.
  ghost predicate WellFormed(t: Tree, last: nat, maxLeaf: nat, maxInternal: nat) {
    && Shaped(t) && Ordered(t) && Level(t) && FilledRoot(t, maxLeaf, maxInternal)
    && Linked(t, 0) && Unique(t) && IdsUpTo(t, last)
  }

  lemma WellFormedParts(t: Tree, last: nat, maxLeaf: nat, maxInternal: nat)
    requires WellFormed(t, last, maxLeaf, maxInternal)
    ensures Shaped(t) && Ordered(t) && Linked(t, 0) && Unique(t) && IdsUpTo(t, last)
  {
  }

  lemma RootedUniform(g: Grown, depth: nat)
    requires UniformGrown(g, depth)
    ensures Uniform(Rooted(g).0, if g.One? then depth else depth + 1)
  {
  }

  lemma RootedFilled(g: Grown, maxLeaf: nat, maxInternal: nat)
    requires FilledGrown(g, maxLeaf, maxInternal) && maxInternal > 0
    requires g.One? ==> FilledRoot(g.tree, maxLeaf, maxInternal)
    ensures FilledRoot(Rooted(g).0, maxLeaf, maxInternal)
  {
    if g.Two? {
      var t := Rooted(g).0;
      forall i | 0 <= i < |t.children| ensures Filled(t.children[i], maxLeaf, maxInternal) {
      }
    }
  }

  lemma RootedLinked(g: Grown, first: nat)
    requires ShapedGrown(g) && LinkedGrown(g, 0, first) && Shaped(Rooted(g).0)
    ensures Linked(Rooted(g).0, 0)
  {
    if g.Two? {
      var t := Rooted(g).0;
      assert NextAfter(t.children, 0, 0) == FirstLeaf(g.right);
      assert NextAfter(t.children, 1, 0) == 0;
    }
  }

  lemma PairIds(a: Tree, b: Tree)
    ensures IdsOf([a, b]) == Ids(a) + Ids(b)
  {
    hide Ids;
    assert [a, b][0] == a && [a, b][1] == b;
    forall x | x in Ids(a) ensures x in IdsOf([a, b]) {
      assert x in Ids([a, b][0]);
    }
    forall x | x in Ids(b) ensures x in IdsOf([a, b]) {
      assert x in Ids([a, b][1]);
    }
  }

  lemma RootedUnique(g: Grown)
    requires UniqueGrown(g) && forall x | x in IdsGrown(g) :: 0 < x <= g.last
    ensures Unique(Rooted(g).0) && IdsUpTo(Rooted(g).0, Rooted(g).1)
  {
    hide Ids, Unique, IdsOf;
    if g.Two? {
      var t := Rooted(g).0;
      NodeIds(t.id, t.keys, t.children);
      PairIds(g.left, g.right);
      assert IdsGrown(g) == IdsOf(t.children);
      assert t.id !in IdsOf(t.children);
      assert Apart(t.children);
      assert Ids(t) == {t.id} + IdsGrown(g);
    } else {
      assert IdsGrown(g) == Ids(g.tree);
    }
  }

  lemma InsertLevel(t: Tree, k: Value, r: RowPtr, last: nat, maxLeaf: nat, maxInternal: nat)
    requires Shaped(t) && Level(t)
    ensures Level(Rooted(Insert(t, k, r, last, maxLeaf, maxInternal)).0)
  {
    hide Uniform, UniformGrown, Insert;
    var depth: nat :| Uniform(t, depth);
    InsertUniform(t, k, r, last, maxLeaf, maxInternal, depth);
    RootedUniform(Insert(t, k, r, last, maxLeaf, maxInternal), depth);
  }

  // One insertion: the whole invariant is kept, and the entries gain exactly the new one.
  lemma InsertKeeps(t: Tree, k: Value, r: RowPtr, last: nat, maxLeaf: nat, maxInternal: nat)
    requires WellFormed(t, last, maxLeaf, maxInternal) && maxLeaf > 0 && maxInternal > 0
    ensures var (t', last') := Rooted(Insert(t, k, r, last, maxLeaf, maxInternal));
      && WellFormed(t', last', maxLeaf, maxInternal) && last' >= last
      && Spliced(Entries(t), Entries(t'), (k, r))
  {
    hide Ordered, Level, FilledBelow, Linked, Unique, Ids, Insert, Entries, Spliced, OrderedGrown, LinkedGrown,
         UniqueGrown, UniformGrown, EntriesGrown, IdsGrown, Rooted;
    var g := Insert(t, k, r, last, maxLeaf, maxInternal);
    InsertEntries(t, k, r, last, maxLeaf, maxInternal);
    InsertOrdered(t, k, r, last, maxLeaf, maxInternal);
    RootedOrdered(g);
    InsertLevel(t, k, r, last, maxLeaf, maxInternal);
    InsertFilled(t, k, r, last, maxLeaf, maxInternal);
    RootedFilled(g, maxLeaf, maxInternal);
    InsertLinked(t, k, r, last, maxLeaf, maxInternal, 0);
    RootedLinked(g, FirstLeaf(t));
    InsertUnique(t, k, r, last, maxLeaf, maxInternal);
    RootedUnique(g);
    RootedLast(g);
  }

  lemma RootedLast(g: Grown)
    ensures Rooted(g).1 >= g.last
  {
  }

  // ---- Runs of insertions ----

  const FIRST: Tree := Leaf(1, [], [], 0)

  // The tree that a sequence of insertions builds from a fresh index file.
  function Built(inserts: seq<Entry>, maxLeaf: nat, maxInternal: nat): (r: (Tree, nat))
    ensures Shaped(r.0)
  {
    if inserts == [] then (FIRST, 1)
    else
      var n := |inserts| - 1;
      var (t, last) := Built(inserts[..n], maxLeaf, maxInternal);
      InsertShaped(t, inserts[n].0, inserts[n].1, last, maxLeaf, maxInternal);
      RootedShaped(Insert(t, inserts[n].0, inserts[n].1, last, maxLeaf, maxInternal));
      Rooted(Insert(t, inserts[n].0, inserts[n].1, last, maxLeaf, maxInternal))
  }

  lemma RootedShaped(g: Grown)
    requires ShapedGrown(g)
    ensures Shaped(Rooted(g).0)
  {
  }

  lemma FirstWellFormed(maxLeaf: nat, maxInternal: nat)
    ensures WellFormed(FIRST, 1, maxLeaf, maxInternal) && Entries(FIRST) == []
  {
    assert Uniform(FIRST, 1);
  }

  lemma SplicedMultiset(es: seq<Entry>, es': seq<Entry>, x: Entry)
    requires Spliced(es, es', x)
    ensures multiset(es') == multiset(es) + multiset{x}
  {
    var p :| 0 <= p <= |es| && es' == es[..p] + [x] + es[p..];
    assert es == es[..p] + es[p..];
  }

  // After any run: the invariant holds, and the entries in leaf order are the inserted ones, in key order.
  lemma {:induction false} BuiltHolds(inserts: seq<Entry>, maxLeaf: nat, maxInternal: nat)
    requires maxLeaf > 0 && maxInternal > 0
    ensures var (t, last) := Built(inserts, maxLeaf, maxInternal);
      && WellFormed(t, last, maxLeaf, maxInternal)
      && multiset(Entries(t)) == multiset(inserts) && Sorted(Entries(t))
  {
    hide Ordered, Level, FilledRoot, Linked, Unique, IdsUpTo, Insert, Rooted, Spliced;
    if inserts == [] {
      FirstWellFormed(maxLeaf, maxInternal);
      FirstSorted();
    } else {
      var n := |inserts| - 1;
      var x := inserts[n];
      BuiltHolds(inserts[..n], maxLeaf, maxInternal);
      var (t, last) := Built(inserts[..n], maxLeaf, maxInternal);
      InsertKeeps(t, x.0, x.1, last, maxLeaf, maxInternal);
      var t' := Built(inserts, maxLeaf, maxInternal).0;
      SplicedMultiset(Entries(t), Entries(t'), x);
      assert inserts == inserts[..n] + [x];
      OrderedSorted(t');
    }
  }

  lemma FirstSorted()
    ensures Sorted(Entries(FIRST))
  {
  }

  lemma OrderedSorted(t: Tree)
    requires Shaped(t) && Ordered(t)
    ensures Sorted(Entries(t))
  {
  }

  // find(k) returns a pointer exactly when some insertion used k, and then one that was inserted with k.
  lemma FindBuilt(inserts: seq<Entry>, k: Value, maxLeaf: nat, maxInternal: nat)
    requires maxLeaf > 0 && maxInternal > 0
    ensures var found := Find(Built(inserts, maxLeaf, maxInternal).0, k);
      && (found.Some? <==> HasKey(inserts, k))
      && (found.Some? ==> (k, found.value) in inserts)
  {
    hide Ordered, Level, FilledRoot, Linked, Unique, IdsUpTo, Built, Find, Entries;
    var t := Built(inserts, maxLeaf, maxInternal).0;
    BuiltHolds(inserts, maxLeaf, maxInternal);
    FindCorrect(t, k);
    SameMembers(Entries(t), inserts);
  }

  lemma SameMembers(a: seq<Entry>, b: seq<Entry>)
    requires multiset(a) == multiset(b)
    ensures forall x :: x in a <==> x in b
  {
    forall x | true ensures x in a <==> x in b {
      assert x in a <==> x in multiset(a);
      assert x in b <==> x in multiset(b);
    }
  }

  function Pointers(es: seq<Entry>): seq<RowPtr> {
    seq(|es|, i requires 0 <= i < |es| => es[i].1)
  }

  // The pointers of one more leaf.
  lemma LeafPointers(leaves: seq<Tree>, i: nat)
    requires i < |leaves| && forall j | 0 <= j < |leaves| :: Shaped(leaves[j]) && leaves[j].Leaf?
    ensures Pointers(EntriesOf(leaves[..i + 1])) == Pointers(EntriesOf(leaves[..i])) + leaves[i].rows
  {
    assert leaves[..i + 1] == leaves[..i] + [leaves[i]];
    EntriesOfConcat(leaves[..i], [leaves[i]]);
    EntriesOfOne(leaves[i]);
    assert Pointers(Entries(leaves[i])) == leaves[i].rows;
  }

  // Walking the leaf chain from the leftmost leaf meets each leaf once, its number is that of the
  // next leaf, and the entries met are those of the tree in order.
  lemma ChainWalk(t: Tree)
    requires Shaped(t) && Linked(t, 0)
    ensures Leaves(t) != [] && Leaves(t)[0].id == FirstLeaf(t) && Chain(Leaves(t), 0)
    ensures forall i | 0 <= i < |Leaves(t)| :: Shaped(Leaves(t)[i]) && Leaves(t)[i].Leaf?
    ensures EntriesOf(Leaves(t)) == Entries(t)
  {
    hide Linked, Leaves, Entries, Chain;
    LeavesChain(t, 0);
    LeavesEntries(t);
  }

  lemma RootedKeepsIds(g: Grown)
    ensures IdsGrown(g) <= Ids(Rooted(g).0)
  {
    if g.Two? {
      hide Ids;
      var t := Rooted(g).0;
      NodeIds(t.id, t.keys, t.children);
      PairIds(g.left, g.right);
    }
  }

  // Page 1 is part of every tree. An index file read back from disk counts its pages from 0, so the
  // next page it creates is page 1 again: a number already taken, whatever was inserted before.
  lemma {:induction false} PageOneTaken(inserts: seq<Entry>, maxLeaf: nat, maxInternal: nat)
    requires maxLeaf > 0 && maxInternal > 0
    ensures 1 in Ids(Built(inserts, maxLeaf, maxInternal).0)
  {
    hide Ids, WellFormed, Rooted, Insert, IdsGrown, Unique;
    if inserts == [] {
      OwnId(FIRST);
    } else {
      var n := |inserts| - 1;
      var x := inserts[n];
      var (t, last) := Built(inserts[..n], maxLeaf, maxInternal);
      PageOneTaken(inserts[..n], maxLeaf, maxInternal);
      BuiltHolds(inserts[..n], maxLeaf, maxInternal);
      WellFormedParts(t, last, maxLeaf, maxInternal);
      InsertUnique(t, x.0, x.1, last, maxLeaf, maxInternal);
      RootedKeepsIds(Insert(t, x.0, x.1, last, maxLeaf, maxInternal));
    }
  }

  lemma OwnId(t: Tree)
    ensures t.id in Ids(t)
  {
  }
}
