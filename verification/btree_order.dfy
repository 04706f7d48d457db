/**
 The key order of B+ trees: entries in order from left to right, and each separator equal to the
 smallest key of the subtree to its right. Insertion keeps both, and a lookup that goes right on
 equal keys finds a key whenever it is there.
 */
module BTreeOrder {
  import opened Types
  import opened Values
  import opened BTreeModel

  ghost predicate Sorted(es: seq<Entry>) {
    forall i, j | 0 <= i < j < |es| :: Le(es[i].0, es[j].0)
  }

  ghost predicate StartsWith(t: Tree, k: Value)
    requires Shaped(t)
  {
    Entries(t) != [] && Entries(t)[0].0 == k
  }

  ghost predicate SeparatorsOk(t: Tree)
    requires Shaped(t)
  {
    match t
    case Leaf(_, _, _, _) => true
    case Node(_, keys, children) =>
      && (forall i | 0 <= i < |children| :: Entries(children[i]) != [])
      && (forall i | 0 <= i < |keys| :: StartsWith(children[i + 1], keys[i]))
      && (forall i | 0 <= i < |children| :: SeparatorsOk(children[i]))
  }

  ghost predicate Ordered(t: Tree)
    requires Shaped(t)
  {
    Sorted(Entries(t)) && SeparatorsOk(t)
  }

  ghost predicate OrderedGrown(g: Grown)
    requires ShapedGrown(g)
  {
    && Sorted(EntriesGrown(g))
    && match g
       case One(tree, _) => SeparatorsOk(tree)
       case Two(left, separator, right, _) =>
         SeparatorsOk(left) && SeparatorsOk(right) && Entries(left) != [] && StartsWith(right, separator)
  }

  lemma SortedParts(a: seq<Entry>, b: seq<Entry>, c: seq<Entry>)
    requires Sorted(a + b + c)
    ensures Sorted(a) && Sorted(b) && Sorted(c)
    ensures forall i, j | 0 <= i < |a| && 0 <= j < |b| :: Le(a[i].0, b[j].0)
    ensures forall i, j | 0 <= i < |b| && 0 <= j < |c| :: Le(b[i].0, c[j].0)
    ensures forall i, j | 0 <= i < |a| && 0 <= j < |c| :: Le(a[i].0, c[j].0)
  {
    hide Le;
    var s := a + b + c;
    forall i, j | 0 <= i < j < |a| ensures Le(a[i].0, a[j].0) { assert a[i] == s[i] && a[j] == s[j]; }
    forall i, j | 0 <= i < j < |b| ensures Le(b[i].0, b[j].0) { assert b[i] == s[|a| + i] && b[j] == s[|a| + j]; }
    forall i, j | 0 <= i < j < |c| ensures Le(c[i].0, c[j].0) { assert c[i] == s[|a + b| + i] && c[j] == s[|a + b| + j]; }
    forall i, j | 0 <= i < |a| && 0 <= j < |b| ensures Le(a[i].0, b[j].0) { assert a[i] == s[i] && b[j] == s[|a| + j]; }
    forall i, j | 0 <= i < |b| && 0 <= j < |c| ensures Le(b[i].0, c[j].0) { assert b[i] == s[|a| + i] && c[j] == s[|a + b| + j]; }
    forall i, j | 0 <= i < |a| && 0 <= j < |c| ensures Le(a[i].0, c[j].0) { assert a[i] == s[i] && c[j] == s[|a + b| + j]; }
  }

  // What surrounds the i-th child of an ordered node, relative to a key that descends into it.
  lemma AroundChild(id: nat, keys: seq<Value>, children: seq<Tree>, k: Value, i: nat)
    requires Shaped(Node(id, keys, children)) && Ordered(Node(id, keys, children)) && i == ChildPos(keys, k)
    ensures Sorted(Entries(children[i]))
    ensures forall x | x in EntriesOf(children[..i]) :: Le(x.0, k)
    ensures forall x | x in EntriesOf(children[i + 1..]) :: Le(k, x.0) && x.0 != k
    ensures i > 0 ==> StartsWith(children[i], keys[i - 1]) && Le(keys[i - 1], k)
    ensures forall x, y | x in EntriesOf(children[..i]) && y in Entries(children[i]) :: Le(x.0, y.0)
    ensures forall x, y | x in Entries(children[i]) && y in EntriesOf(children[i + 1..]) :: Le(x.0, y.0)
    ensures forall x, y | x in EntriesOf(children[..i]) && y in EntriesOf(children[i + 1..]) :: Le(x.0, y.0)
    ensures Sorted(EntriesOf(children[..i])) && Sorted(EntriesOf(children[i + 1..]))
  {
    hide Le, Less, Compare, Entries, ChildPos;
    OrderLaws();
    var a, b, c := EntriesOf(children[..i]), Entries(children[i]), EntriesOf(children[i + 1..]);
    NodeEntries(Node(id, keys, children));
    EntriesAround(children, i);
    SortedParts(a, b, c);
    if i > 0 {
      assert Compare(keys[i - 1], k) <= 0;
      assert StartsWith(children[i], keys[i - 1]);
    }
    if i < |keys| {
      assert Compare(keys[i], k) > 0;
      assert StartsWith(children[i + 1], keys[i]);
      EntriesFirst(children[i + 1..]);
      assert c[0].0 == keys[i];
    } else {
      assert children[i + 1..] == [];
    }
    assert i == 0 ==> children[..i] == [];
  }

  lemma EntriesFirst(ts: seq<Tree>)
    requires ts != [] && (forall i | 0 <= i < |ts| :: Shaped(ts[i])) && Entries(ts[0]) != []
    ensures EntriesOf(ts) != [] && EntriesOf(ts)[0] == Entries(ts[0])[0]
  {
  }

  lemma SortedJoin(a: seq<Entry>, b: seq<Entry>, c: seq<Entry>)
    requires Sorted(a) && Sorted(b) && Sorted(c)
    requires forall x, y | x in a && y in b :: Le(x.0, y.0)
    requires forall x, y | x in b && y in c :: Le(x.0, y.0)
    requires forall x, y | x in a && y in c :: Le(x.0, y.0)
    ensures Sorted(a + b + c)
  {
    hide Le;
    var s := a + b + c;
    forall i, j | 0 <= i < j < |s| ensures Le(s[i].0, s[j].0) {
      assert s[i] in a || s[i] in b || s[i] in c;
      if j < |a| {
        assert s[i] == a[i] && s[j] == a[j];
      } else if j < |a| + |b| {
        assert s[j] == b[j - |a|];
        if i >= |a| { assert s[i] == b[i - |a|]; } else { assert s[i] == a[i]; }
      } else {
        assert s[j] == c[j - |a| - |b|];
        if i >= |a| + |b| { assert s[i] == c[i - |a| - |b|]; }
        else if i >= |a| { assert s[i] == b[i - |a|]; } else { assert s[i] == a[i]; }
      }
    }
  }

  lemma SplicedMembers(es: seq<Entry>, es': seq<Entry>, x: Entry)
    requires Spliced(es, es', x)
    ensures forall y :: y in es' <==> y in es || y == x
  {
    var p :| 0 <= p <= |es| && es' == es[..p] + [x] + es[p..];
    assert es == es[..p] + es[p..];
  }

  lemma SortedInsert(es: seq<Entry>, p: nat, x: Entry)
    requires Sorted(es) && p <= |es|
    requires forall i | 0 <= i < p :: Le(es[i].0, x.0)
    requires forall i | p <= i < |es| :: Le(x.0, es[i].0)
    ensures Sorted(InsertAt(es, p, x))
  {
    hide Le;
    var es' := InsertAt(es, p, x);
    forall i, j | 0 <= i < j < |es'| ensures Le(es'[i].0, es'[j].0) {
      if j < p {
        assert es'[i] == es[i] && es'[j] == es[j];
      } else if j == p {
        assert es'[i] == es[i];
      } else if i < p {
        assert es'[i] == es[i] && es'[j] == es[j - 1];
      } else if i == p {
        assert es'[j] == es[j - 1];
      } else {
        assert es'[i] == es[i - 1] && es'[j] == es[j - 1];
      }
    }
  }

  // The position in a sorted leaf splits it into what is at most k and what is at least k.
  lemma LeafPosSplits(keys: seq<Value>, rows: seq<RowPtr>, k: Value)
    requires |keys| == |rows| && Sorted(Zip(keys, rows))
    ensures var es, p := Zip(keys, rows), LeafPos(keys, k);
      && (forall i | 0 <= i < p :: Le(es[i].0, k)) && (forall i | p <= i < |es| :: Le(k, es[i].0))
      && (es != [] && p == 0 && Le(es[0].0, k) ==> es[0].0 == k)
  {
    hide Le, Less, Compare, LeafPos;
    OrderLaws();
    var p := LeafPos(keys, k);
    var es := Zip(keys, rows);
    forall i | 0 <= i < p ensures Le(es[i].0, k) {
      assert Compare(keys[i], k) < 0;
    }
    forall i | p <= i < |es| ensures Le(k, es[i].0) {
      assert i > p ==> Le(es[p].0, es[i].0);
    }
  }

  lemma LeafInsertedSorted(t: Tree, k: Value, r: RowPtr)
    requires t.Leaf? && Shaped(t) && Sorted(Entries(t))
    ensures Sorted(Entries(LeafInserted(t, k, r)))
    ensures Entries(t) != [] && Le(Entries(t)[0].0, k) ==> Entries(LeafInserted(t, k, r))[0].0 == Entries(t)[0].0
  {
    hide Le, Less, Compare, LeafPos, Zip, Sorted;
    var p := LeafPos(t.keys, k);
    var es := Entries(t);
    LeafPosSplits(t.keys, t.rows, k);
    ZipInsert(t.keys, t.rows, p, k, r);
    assert Entries(LeafInserted(t, k, r)) == InsertAt(es, p, (k, r));
    SortedInsert(es, p, (k, r));
  }

  lemma SplitLeafOrdered(t: Tree, last: nat, maxLeaf: nat)
    requires t.Leaf? && Shaped(t) && Sorted(Entries(t)) && maxLeaf > 0
    ensures ShapedGrown(SplitLeaf(t, last, maxLeaf)) && OrderedGrown(SplitLeaf(t, last, maxLeaf))
  {
    hide Le;
    SplitLeafEntries(t, last, maxLeaf);
  }

  lemma SplitNodeOrdered(t: Tree, last: nat, maxInternal: nat)
    requires t.Node? && Shaped(t) && Ordered(t)
    ensures ShapedGrown(SplitNode(t, last, maxInternal)) && OrderedGrown(SplitNode(t, last, maxInternal))
  {
    hide Entries, Sorted;
    SplitNodeEntries(t, last, maxInternal);
    if |t.keys| > maxInternal {
      var mid := |t.keys| / 2;
      NodeEntries(t);
      NodeEntries(Node(t.id, t.keys[..mid], t.children[..mid + 1]));
      NodeEntries(Node(last + 1, t.keys[mid + 1..], t.children[mid + 1..]));
      EntriesFirst(t.children[..mid + 1]);
      EntriesFirst(t.children[mid + 1..]);
      assert StartsWith(t.children[mid + 1], t.keys[mid]);
      SplitSeparators(t, mid, last);
    }
  }

  lemma SplitSeparators(t: Tree, mid: nat, last: nat)
    requires t.Node? && Shaped(t) && SeparatorsOk(t) && mid < |t.keys|
    ensures SeparatorsOk(Node(t.id, t.keys[..mid], t.children[..mid + 1]))
    ensures SeparatorsOk(Node(last, t.keys[mid + 1..], t.children[mid + 1..]))
  {
    hide Entries;
    var cs, ks := t.children[mid + 1..], t.keys[mid + 1..];
    forall i | 0 <= i < |ks| ensures StartsWith(cs[i + 1], ks[i]) {
      assert StartsWith(t.children[mid + 1 + i + 1], t.keys[mid + 1 + i]);
    }
  }

  ghost predicate GrownStartsWith(g: Grown, k: Value)
    requires ShapedGrown(g)
  {
    EntriesGrown(g) != [] && EntriesGrown(g)[0].0 == k
  }

  // A node whose i-th child has grown in order is in order, and so are the parts it splits into.
  lemma AbsorbOrdered(id: nat, keys: seq<Value>, children: seq<Tree>, i: nat, k: Value, r: RowPtr, g: Grown, maxInternal: nat)
    requires Shaped(Node(id, keys, children)) && Ordered(Node(id, keys, children)) && i == ChildPos(keys, k)
    requires ShapedGrown(g) && OrderedGrown(g) && Spliced(Entries(children[i]), EntriesGrown(g), (k, r))
    requires i > 0 ==> GrownStartsWith(g, keys[i - 1])
    ensures var g' := Absorb(id, keys, children, i, g, maxInternal); ShapedGrown(g') && OrderedGrown(g')
  {
    hide Entries, Sorted, Le, Compare, ChildPos, Spliced;
    AbsorbEntries(id, keys, children, i, g, maxInternal);
    SplicedMembers(Entries(children[i]), EntriesGrown(g), (k, r));
    assert (k, r) in EntriesGrown(g);
    AbsorbSorted(id, keys, children, i, k, r, g);
    match g
    case One(child, last) =>
      AbsorbOneSeparators(id, keys, children, i, g);
    case Two(left, separator, right, last) =>
      AbsorbTwoSeparators(id, keys, children, i, g);
      var node := Node(id, InsertAt(keys, i, separator), InsertAt(children[i := left], i + 1, right));
      AbsorbedEntries(id, keys, children, i, g);
      SplitNodeOrdered(node, last, maxInternal);
  }

  lemma AbsorbSorted(id: nat, keys: seq<Value>, children: seq<Tree>, i: nat, k: Value, r: RowPtr, g: Grown)
    requires Shaped(Node(id, keys, children)) && Ordered(Node(id, keys, children)) && i == ChildPos(keys, k)
    requires ShapedGrown(g) && Sorted(EntriesGrown(g)) && Spliced(Entries(children[i]), EntriesGrown(g), (k, r))
    ensures Sorted(EntriesOf(children[..i]) + EntriesGrown(g) + EntriesOf(children[i + 1..]))
  {
    hide Entries, Le, Compare, ChildPos, Spliced, Sorted, EntriesGrown, SeparatorsOk;
    AroundChild(id, keys, children, k, i);
    SplicedMembers(Entries(children[i]), EntriesGrown(g), (k, r));
    SortedJoin(EntriesOf(children[..i]), EntriesGrown(g), EntriesOf(children[i + 1..]));
  }

  lemma AbsorbedEntries(id: nat, keys: seq<Value>, children: seq<Tree>, i: nat, g: Grown)
    requires Shaped(Node(id, keys, children)) && i < |children| && g.Two? && ShapedGrown(g)
    ensures var node := Node(id, InsertAt(keys, i, g.separator), InsertAt(children[i := g.left], i + 1, g.right));
      Shaped(node) && Entries(node) == EntriesOf(children[..i]) + EntriesGrown(g) + EntriesOf(children[i + 1..])
  {
    hide Entries;
    var n := |keys| + 1;
    AbsorbEntries(id, keys, children, i, g, n);
  }

  lemma AbsorbOneSeparators(id: nat, keys: seq<Value>, children: seq<Tree>, i: nat, g: Grown)
    requires Shaped(Node(id, keys, children)) && SeparatorsOk(Node(id, keys, children)) && i < |children|
    requires g.One? && ShapedGrown(g) && OrderedGrown(g) && EntriesGrown(g) != []
    requires i > 0 ==> GrownStartsWith(g, keys[i - 1])
    ensures SeparatorsOk(Node(id, keys, children[i := g.tree]))
  {
    hide Entries, Sorted;
  }

  lemma AbsorbTwoSeparators(id: nat, keys: seq<Value>, children: seq<Tree>, i: nat, g: Grown)
    requires Shaped(Node(id, keys, children)) && SeparatorsOk(Node(id, keys, children)) && i < |children|
    requires g.Two? && ShapedGrown(g) && OrderedGrown(g)
    requires i > 0 ==> GrownStartsWith(g, keys[i - 1])
    ensures var node := Node(id, InsertAt(keys, i, g.separator), InsertAt(children[i := g.left], i + 1, g.right));
      Shaped(node) && SeparatorsOk(node)
  {
    hide Entries, Sorted;
    var keys', cs := InsertAt(keys, i, g.separator), InsertAt(children[i := g.left], i + 1, g.right);
    forall j | 0 <= j < |cs|
      ensures Shaped(cs[j]) && SeparatorsOk(cs[j]) && Entries(cs[j]) != []
    {
      assert cs[j] == if j < i then children[j] else if j == i then g.left else if j == i + 1 then g.right else children[j - 1];
    }
    forall j | 0 <= j < |keys'| ensures StartsWith(cs[j + 1], keys'[j]) {
      if j < i {
        assert keys'[j] == keys[j] && StartsWith(children[j + 1], keys[j]);
      } else if j > i {
        assert keys'[j] == keys[j - 1] && StartsWith(children[j], keys[j - 1]);
      }
    }
  }

  // Insertion keeps the order. A key at or above the first one leaves the first one in place.
  lemma {:induction false} InsertOrdered(t: Tree, k: Value, r: RowPtr, last: nat, maxLeaf: nat, maxInternal: nat)
    requires Shaped(t) && Ordered(t) && maxLeaf > 0
    ensures var g := Insert(t, k, r, last, maxLeaf, maxInternal);
      && ShapedGrown(g) && OrderedGrown(g)
      && (Entries(t) != [] && Le(Entries(t)[0].0, k) ==> GrownStartsWith(g, Entries(t)[0].0))
    decreases t
  {
    hide Le, Less, Compare, Sorted, Entries, LeafPos, EntriesGrown, Spliced;
    InsertEntries(t, k, r, last, maxLeaf, maxInternal);
    match t
    case Leaf(_, _, _, _) =>
      LeafInsertedSorted(t, k, r);
      SplitLeafOrdered(LeafInserted(t, k, r), last, maxLeaf);
      SplitLeafEntries(LeafInserted(t, k, r), last, maxLeaf);
      if Entries(t) != [] && Le(Entries(t)[0].0, k) {
        FirstKept(Entries(t), EntriesGrown(Insert(t, k, r, last, maxLeaf, maxInternal)), k, r);
      }
    case Node(id, keys, children) =>
      var i := ChildPos(keys, k);
      var g := Insert(children[i], k, r, last, maxLeaf, maxInternal);
      AroundChild(id, keys, children, k, i);
      InsertOrdered(children[i], k, r, last, maxLeaf, maxInternal);
      InsertEntries(children[i], k, r, last, maxLeaf, maxInternal);
      AbsorbOrdered(id, keys, children, i, k, r, g, maxInternal);
      if Entries(t) != [] && Le(Entries(t)[0].0, k) {
        FirstKept(Entries(t), EntriesGrown(Insert(t, k, r, last, maxLeaf, maxInternal)), k, r);
      }
  }

  lemma FirstKept(es: seq<Entry>, es': seq<Entry>, k: Value, r: RowPtr)
    requires Sorted(es') && Spliced(es, es', (k, r)) && es != [] && Le(es[0].0, k)
    ensures es' != [] && es'[0].0 == es[0].0
  {
    hide Le, Less, Compare;
    OrderLaws();
    var p :| 0 <= p <= |es| && es' == es[..p] + [(k, r)] + es[p..];
    if p == 0 {
      assert es'[1] == es[0];
      assert Le(es'[0].0, es'[1].0);
    }
  }

  lemma RootedOrdered(g: Grown)
    requires ShapedGrown(g) && OrderedGrown(g)
    ensures Shaped(Rooted(g).0) && Ordered(Rooted(g).0) && Entries(Rooted(g).0) == EntriesGrown(g)
  {
    hide Sorted, Entries;
    if g.Two? {
      NodeEntries(Rooted(g).0);
      assert Rooted(g).0.children == [g.left] + [g.right];
      EntriesOfConcat([g.left], [g.right]);
      EntriesOfOne(g.left);
      EntriesOfOne(g.right);
    }
  }

  // ---- Lookup ----

  // The leaf that a key descends to.
  function LeafFor(t: Tree, k: Value): (leaf: Tree)
    requires Shaped(t)
    ensures leaf.Leaf? && Shaped(leaf)
  {
    match t
    case Leaf(_, _, _, _) => t
    case Node(_, keys, children) => LeafFor(children[ChildPos(keys, k)], k)
  }

  // The page numbers on the way to that leaf.
  function PathFor(t: Tree, k: Value): seq<nat>
    requires Shaped(t)
  {
    if t.Leaf? then [t.id] else [t.id] + PathFor(t.children[ChildPos(t.keys, k)], k)
  }

  function FirstEqual(keys: seq<Value>, rows: seq<RowPtr>, k: Value): Option<RowPtr>
    requires |keys| == |rows|
  {
    if keys == [] then None
    else if Compare(keys[0], k) == 0 then Some(rows[0])
    else FirstEqual(keys[1..], rows[1..], k)
  }

  function Find(t: Tree, k: Value): Option<RowPtr>
    requires Shaped(t)
  {
    FirstEqual(LeafFor(t, k).keys, LeafFor(t, k).rows, k)
  }

  ghost predicate HasKey(es: seq<Entry>, k: Value) {
    exists x :: x in es && x.0 == k
  }

  // The leaf that a key descends to holds it, if any leaf does, even when equal keys spread over
  // several leaves: the lowest key right of a separator is the separator itself.
  lemma {:induction false} KeyInLeaf(t: Tree, k: Value)
    requires Shaped(t) && Ordered(t)
    ensures HasKey(Entries(t), k) <==> HasKey(Entries(LeafFor(t, k)), k)
    ensures forall x | x in Entries(LeafFor(t, k)) :: x in Entries(t)
    decreases t
  {
    hide Le, Less, Compare, Entries, Sorted, ChildPos;
    match t
    case Leaf(_, _, _, _) =>
    case Node(id, keys, children) =>
      var i := ChildPos(keys, k);
      AroundChild(id, keys, children, k, i);
      KeyInLeaf(children[i], k);
      NodeEntries(t);
      EntriesAround(children, i);
      if x :| x in Entries(t) && x.0 == k {
        if x !in Entries(children[i]) {
          KeyAtSeparator(keys, children, k, i, x);
        }
      }
  }

  lemma KeyAtSeparator(keys: seq<Value>, children: seq<Tree>, k: Value, i: nat, x: Entry)
    requires Shaped(Node(0, keys, children)) && i < |children|
    requires x.0 == k && x in EntriesOf(children[..i])
    requires i > 0 ==> StartsWith(children[i], keys[i - 1]) && Le(keys[i - 1], k)
    requires forall x, y | x in EntriesOf(children[..i]) && y in Entries(children[i]) :: Le(x.0, y.0)
    ensures HasKey(Entries(children[i]), k)
  {
    hide Le, Less, Compare, Entries;
    OrderLaws();
    assert i > 0;
    var first := Entries(children[i])[0];
    assert first in Entries(children[i]);
    assert Le(x.0, first.0);
    assert first.0 == k;
  }

  lemma {:induction false} FirstEqualHas(keys: seq<Value>, rows: seq<RowPtr>, k: Value)
    requires |keys| == |rows|
    ensures FirstEqual(keys, rows, k).Some? <==> HasKey(Zip(keys, rows), k)
    ensures FirstEqual(keys, rows, k).Some? ==> (k, FirstEqual(keys, rows, k).value) in Zip(keys, rows)
  {
    hide Compare;
    OrderLaws();
    if keys != [] {
      FirstEqualHas(keys[1..], rows[1..], k);
      assert Zip(keys, rows) == [(keys[0], rows[0])] + Zip(keys[1..], rows[1..]);
      if Compare(keys[0], k) == 0 {
        assert (keys[0], rows[0]) in Zip(keys, rows);
      } else {
        assert forall x | x in Zip(keys, rows) && x.0 == k :: x in Zip(keys[1..], rows[1..]);
      }
    }
  }

  // A lookup succeeds exactly when some entry has the key, and returns one inserted with it.
  lemma FindCorrect(t: Tree, k: Value)
    requires Shaped(t) && Ordered(t)
    ensures Find(t, k).Some? <==> HasKey(Entries(t), k)
    ensures Find(t, k).Some? ==> (k, Find(t, k).value) in Entries(t)
  {
    hide Compare, Ordered, LeafFor;
    KeyInLeaf(t, k);
    FirstEqualHas(LeafFor(t, k).keys, LeafFor(t, k).rows, k);
  }

  // ---- Which of several equal keys ----

  lemma {:induction false} FirstEqualIs(keys: seq<Value>, rows: seq<RowPtr>, k: Value)
    requires |keys| == |rows|
    ensures FoundFirst(keys, rows, k, FirstEqual(keys, rows, k))
  {
    hide Compare, FoundFirst;
    OrderLaws();
    if keys == [] {
      NothingThere(k);
    } else {
      assert Compare(keys[0], k) == 0 <==> keys[0] == k;
      if keys[0] == k {
        FoundAt(keys, rows, k, 0);
      } else {
        FirstEqualIs(keys[1..], rows[1..], k);
        FoundLater(keys, rows, k, FirstEqual(keys[1..], rows[1..], k));
      }
    }
  }

  // What is found: nothing when no key equals k, otherwise the row of the first that does.
  ghost predicate FoundFirst(keys: seq<Value>, rows: seq<RowPtr>, k: Value, found: Option<RowPtr>)
    requires |keys| == |rows|
  {
    match found
    case None => forall i | 0 <= i < |keys| :: keys[i] != k
    case Some(r) => exists i: nat :: IsFirst(keys, rows, k, r, i)
  }

  lemma NothingThere(k: Value)
    ensures FoundFirst([], [], k, None)
  {
  }

  lemma FoundAt(keys: seq<Value>, rows: seq<RowPtr>, k: Value, i: nat)
    requires |keys| == |rows| && i < |keys| && IsFirst(keys, rows, k, rows[i], i)
    ensures FoundFirst(keys, rows, k, Some(rows[i]))
  {
  }

  lemma FoundLater(keys: seq<Value>, rows: seq<RowPtr>, k: Value, found: Option<RowPtr>)
    requires |keys| == |rows| && keys != [] && keys[0] != k && FoundFirst(keys[1..], rows[1..], k, found)
    ensures FoundFirst(keys, rows, k, found)
  {
    if found.Some? {
      var i: nat :| IsFirst(keys[1..], rows[1..], k, found.value, i);
      FirstLater(keys, rows, k, found.value, i);
    } else {
      forall i | 0 <= i < |keys| ensures keys[i] != k {
        assert i > 0 ==> keys[i] == keys[1..][i - 1];
      }
    }
  }

  lemma FirstLater(keys: seq<Value>, rows: seq<RowPtr>, k: Value, r: RowPtr, i: nat)
    requires |keys| == |rows| && keys != [] && keys[0] != k && IsFirst(keys[1..], rows[1..], k, r, i)
    ensures IsFirst(keys, rows, k, r, i + 1)
  {
    forall j | 0 <= j < i + 1 ensures keys[j] != k {
      assert j > 0 ==> keys[j] == keys[1..][j - 1];
    }
  }

  ghost predicate IsFirst(keys: seq<Value>, rows: seq<RowPtr>, k: Value, r: RowPtr, i: nat)
    requires |keys| == |rows|
  {
    i < |keys| && keys[i] == k && rows[i] == r && forall j | 0 <= j < i :: keys[j] != k
  }

  // The leaf a key descends to is the last one that can hold it.
  lemma {:induction false} LastLeafFor(t: Tree, k: Value) returns (before: seq<Entry>, after: seq<Entry>)
    requires Shaped(t) && Ordered(t)
    ensures Entries(t) == before + Entries(LeafFor(t, k)) + after && !HasKey(after, k)
    decreases t
  {
    hide Le, Less, Compare, Entries, Sorted, ChildPos;
    match t
    case Leaf(_, _, _, _) =>
      before, after := [], [];
    case Node(id, keys, children) =>
      var i := ChildPos(keys, k);
      AroundChild(id, keys, children, k, i);
      NodeEntries(t);
      EntriesAround(children, i);
      var b, a := LastLeafFor(children[i], k);
      before, after := EntriesOf(children[..i]) + b, a + EntriesOf(children[i + 1..]);
      Nested(EntriesOf(children[..i]), b, Entries(LeafFor(children[i], k)), a, EntriesOf(children[i + 1..]));
  }

  lemma Nested(a: seq<Entry>, b: seq<Entry>, c: seq<Entry>, d: seq<Entry>, e: seq<Entry>)
    ensures a + (b + c + d) + e == (a + b) + c + (d + e)
  {
  }

  // So of several entries with the key, find returns the first in the last leaf that holds any.
  lemma FindIsFirst(t: Tree, k: Value) returns (before: seq<Entry>, leaf: Tree, after: seq<Entry>)
    requires Shaped(t) && Ordered(t)
    ensures leaf.Leaf? && Shaped(leaf) && Entries(t) == before + Entries(leaf) + after && !HasKey(after, k)
    ensures FoundFirst(leaf.keys, leaf.rows, k, Find(t, k)) && (Find(t, k) == None ==> !HasKey(Entries(t), k))
  {
    hide Entries, Ordered, FirstEqual, FoundFirst;
    leaf := LeafFor(t, k);
    before, after := LastLeafFor(t, k);
    FirstEqualIs(leaf.keys, leaf.rows, k);
    FindCorrect(t, k);
  }
}
