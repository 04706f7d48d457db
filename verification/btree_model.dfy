/**
 B+ trees as values: insertion of a key and a row pointer, splitting full nodes on the way back up.
 New pages are numbered in the order the splits create them.
 */
module BTreeModel {
  import opened Types
  import opened Values

  // A row pointer: data page and row id.
  type RowPtr = (PageId, nat)
  type Entry = (Value, RowPtr)

  datatype Tree =
    | Leaf(id: nat, keys: seq<Value>, rows: seq<RowPtr>, next: nat)
    | Node(id: nat, keys: seq<Value>, children: seq<Tree>)

  // The result of inserting into a subtree: one tree, or two with their separator. last is the
  // number of the last page created so far.
  datatype Grown =
    | One(tree: Tree, last: nat)
    | Two(left: Tree, separator: Value, right: Tree, last: nat)

  // The first position whose key is not below k.
  function LeafPos(keys: seq<Value>, k: Value): (pos: nat)
    ensures pos <= |keys|
    ensures forall i :: 0 <= i < pos ==> Compare(keys[i], k) < 0
    ensures pos < |keys| ==> Compare(keys[pos], k) >= 0
  {
    if keys != [] && Compare(keys[0], k) < 0 then 1 + LeafPos(keys[1..], k) else 0
  }

  // The child to descend to: equal keys go right.
  function ChildPos(keys: seq<Value>, k: Value): (pos: nat)
    ensures pos <= |keys|
    ensures forall i :: 0 <= i < pos ==> Compare(keys[i], k) <= 0
    ensures pos < |keys| ==> Compare(keys[pos], k) > 0
  {
    if keys != [] && Compare(keys[0], k) <= 0 then 1 + ChildPos(keys[1..], k) else 0
  }

  function InsertAt<T>(s: seq<T>, pos: nat, x: T): (r: seq<T>)
    requires pos <= |s|
    ensures |r| == |s| + 1
  {
    s[..pos] + [x] + s[pos..]
  }

  // As many children as keys plus one, as many rows as keys, all the way down.
  ghost predicate Shaped(t: Tree) {
    match t
    case Leaf(_, keys, rows, _) => |keys| == |rows|
    case Node(_, keys, children) => |children| == |keys| + 1 && forall i | 0 <= i < |children| :: Shaped(children[i])
  }

  function SplitLeaf(t: Tree, last: nat, maxLeaf: nat): Grown
    requires t.Leaf? && |t.keys| == |t.rows|
  {
    if |t.keys| <= maxLeaf then One(t, last)
    else
      var mid := |t.keys| / 2;
      Two(Leaf(t.id, t.keys[..mid], t.rows[..mid], last + 1), t.keys[mid],
          Leaf(last + 1, t.keys[mid..], t.rows[mid..], t.next), last + 1)
  }

  function SplitNode(t: Tree, last: nat, maxInternal: nat): Grown
    requires t.Node? && |t.children| == |t.keys| + 1
  {
    if |t.keys| <= maxInternal then One(t, last)
    else
      var mid := |t.keys| / 2;
      Two(Node(t.id, t.keys[..mid], t.children[..mid + 1]), t.keys[mid],
          Node(last + 1, t.keys[mid + 1..], t.children[mid + 1..]), last + 1)
  }

  function LeafInserted(t: Tree, k: Value, r: RowPtr): Tree
    requires t.Leaf? && |t.keys| == |t.rows|
  {
    var pos := LeafPos(t.keys, k);
    Leaf(t.id, InsertAt(t.keys, pos, k), InsertAt(t.rows, pos, r), t.next)
  }

  // A node takes in what became of its i-th child.
  function Absorb(id: nat, keys: seq<Value>, children: seq<Tree>, i: nat, g: Grown, maxInternal: nat): Grown
    requires |children| == |keys| + 1 && i < |children|
  {
    match g
    case One(child, last) => One(Node(id, keys, children[i := child]), last)
    case Two(left, separator, right, last) =>
      SplitNode(Node(id, InsertAt(keys, i, separator), InsertAt(children[i := left], i + 1, right)), last, maxInternal)
  }

  function Insert(t: Tree, k: Value, r: RowPtr, last: nat, maxLeaf: nat, maxInternal: nat): Grown
    requires Shaped(t)
  {
    match t
    case Leaf(_, _, _, _) => SplitLeaf(LeafInserted(t, k, r), last, maxLeaf)
    case Node(id, keys, children) =>
      var i := ChildPos(keys, k);
      Absorb(id, keys, children, i, Insert(children[i], k, r, last, maxLeaf, maxInternal), maxInternal)
  }

  // A split of the root puts a new root above both halves.
  function Rooted(g: Grown): (Tree, nat) {
    match g
    case One(tree, last) => (tree, last)
    case Two(left, separator, right, last) => (Node(last + 1, [separator], [left, right]), last + 1)
  }

  // ---- Contents ----

  function Zip(keys: seq<Value>, rows: seq<RowPtr>): (es: seq<Entry>)
    requires |keys| == |rows|
    ensures |es| == |keys|
  {
    seq(|keys|, i requires 0 <= i < |keys| => (keys[i], rows[i]))
  }

  ghost function Entries(t: Tree): seq<Entry>
    requires Shaped(t)
    decreases t
  {
    match t
    case Leaf(_, keys, rows, _) => Zip(keys, rows)
    case Node(_, _, children) => EntriesOf(children)
  }

  ghost function EntriesOf(ts: seq<Tree>): seq<Entry>
    requires forall i | 0 <= i < |ts| :: Shaped(ts[i])
    decreases ts
  {
    if ts == [] then [] else Entries(ts[0]) + EntriesOf(ts[1..])
  }

  lemma {:induction false} EntriesOfConcat(a: seq<Tree>, b: seq<Tree>)
    requires forall i | 0 <= i < |a| :: Shaped(a[i])
    requires forall i | 0 <= i < |b| :: Shaped(b[i])
    ensures EntriesOf(a + b) == EntriesOf(a) + EntriesOf(b)
  {
    hide Shaped, Entries;
    if a == [] {
      assert a + b == b;
    } else {
      assert (a + b)[1..] == a[1..] + b;
      EntriesOfConcat(a[1..], b);
    }
  }

  lemma EntriesOfOne(t: Tree)
    requires Shaped(t)
    ensures EntriesOf([t]) == Entries(t)
  {
    hide Shaped, Entries;
    assert [t][1..] == [];
  }

  // The entries of a sequence of trees, around its i-th tree.
  lemma EntriesAround(ts: seq<Tree>, i: nat)
    requires i < |ts| && forall j | 0 <= j < |ts| :: Shaped(ts[j])
    ensures EntriesOf(ts) == EntriesOf(ts[..i]) + Entries(ts[i]) + EntriesOf(ts[i + 1..])
  {
    hide Shaped, Entries, EntriesOf;
    var a, c := ts[..i], ts[i + 1..];
    SplitAround(ts, i);
    EntriesOfConcat(a, [ts[i]] + c);
    EntriesOfConcat([ts[i]], c);
    EntriesOfOne(ts[i]);
    assert EntriesOf(a) + (Entries(ts[i]) + EntriesOf(c)) == EntriesOf(a) + Entries(ts[i]) + EntriesOf(c);
  }

  lemma SplitAround(ts: seq<Tree>, i: nat)
    requires i < |ts|
    ensures ts == ts[..i] + ([ts[i]] + ts[i + 1..])
  {
  }

  ghost function EntriesGrown(g: Grown): seq<Entry>
    requires ShapedGrown(g)
  {
    match g
    case One(tree, _) => Entries(tree)
    case Two(left, _, right, _) => Entries(left) + Entries(right)
  }

  ghost predicate ShapedGrown(g: Grown) {
    match g
    case One(tree, _) => Shaped(tree)
    case Two(left, _, right, _) => Shaped(left) && Shaped(right)
  }

  // One element has been put somewhere into the sequence.
  ghost predicate Spliced<T>(es: seq<T>, es': seq<T>, x: T) {
    exists p :: 0 <= p <= |es| && es' == es[..p] + [x] + es[p..]
  }

  lemma SplicedAround<T>(a: seq<T>, es: seq<T>, es': seq<T>, b: seq<T>, x: T)
    requires Spliced(es, es', x)
    ensures Spliced(a + es + b, a + es' + b, x)
  {
    var p :| 0 <= p <= |es| && es' == es[..p] + [x] + es[p..];
    var q := |a| + p;
    assert (a + es + b)[..q] == a + es[..p];
    assert (a + es + b)[q..] == es[p..] + b;
    assert a + es' + b == (a + es + b)[..q] + [x] + (a + es + b)[q..];
  }

  lemma SplitLeafEntries(t: Tree, last: nat, maxLeaf: nat)
    requires t.Leaf? && |t.keys| == |t.rows|
    ensures ShapedGrown(SplitLeaf(t, last, maxLeaf)) && EntriesGrown(SplitLeaf(t, last, maxLeaf)) == Entries(t)
  {
    hide Zip;
    ZipSplit(t.keys, t.rows, |t.keys| / 2);
  }

  lemma ZipSplit(keys: seq<Value>, rows: seq<RowPtr>, n: nat)
    requires |keys| == |rows| && n <= |keys|
    ensures Zip(keys[..n], rows[..n]) + Zip(keys[n..], rows[n..]) == Zip(keys, rows)
  {
  }

  lemma ZipInsert(keys: seq<Value>, rows: seq<RowPtr>, p: nat, k: Value, r: RowPtr)
    requires |keys| == |rows| && p <= |keys|
    ensures Zip(InsertAt(keys, p, k), InsertAt(rows, p, r)) == Zip(keys, rows)[..p] + [(k, r)] + Zip(keys, rows)[p..]
  {
  }

  lemma LeafInsertedEntries(t: Tree, k: Value, r: RowPtr)
    requires t.Leaf? && |t.keys| == |t.rows|
    ensures Spliced(Entries(t), Entries(LeafInserted(t, k, r)), (k, r))
  {
    hide Compare, LeafPos, Zip, InsertAt;
    ZipInsert(t.keys, t.rows, LeafPos(t.keys, k), k, r);
    var es, p := Entries(t), LeafPos(t.keys, k);
    assert Entries(LeafInserted(t, k, r)) == es[..p] + [(k, r)] + es[p..];
  }

  lemma NodeShaped(t: Tree)
    requires t.Node? && Shaped(t)
    ensures |t.children| == |t.keys| + 1 && forall i | 0 <= i < |t.children| :: Shaped(t.children[i])
  {
  }

  lemma ShapedNode(t: Tree)
    requires t.Node? && |t.children| == |t.keys| + 1 && forall i | 0 <= i < |t.children| :: Shaped(t.children[i])
    ensures Shaped(t)
  {
  }

  lemma SplitNodeShaped(t: Tree, last: nat, maxInternal: nat)
    requires t.Node? && Shaped(t)
    ensures ShapedGrown(SplitNode(t, last, maxInternal))
  {
  }

  lemma SplitNodeEntries(t: Tree, last: nat, maxInternal: nat)
    requires t.Node? && Shaped(t)
    ensures ShapedGrown(SplitNode(t, last, maxInternal)) && EntriesGrown(SplitNode(t, last, maxInternal)) == Entries(t)
  {
    hide Entries, EntriesOf, Shaped;
    SplitNodeShaped(t, last, maxInternal);
    NodeShaped(t);
    if |t.keys| > maxInternal {
      var g := SplitNode(t, last, maxInternal);
      HalvesEntries(t.children, |t.keys| / 2 + 1, t, g.left, g.right);
    }
  }

  lemma HalvesEntries(ts: seq<Tree>, n: nat, t: Tree, left: Tree, right: Tree)
    requires t.Node? && left.Node? && right.Node? && Shaped(t) && Shaped(left) && Shaped(right)
    requires n <= |ts| && t.children == ts && left.children == ts[..n] && right.children == ts[n..]
    ensures Entries(left) + Entries(right) == Entries(t)
  {
    hide Entries, EntriesOf;
    assert ts[..n] + ts[n..] == ts;
    EntriesOfConcat(ts[..n], ts[n..]);
    NodeEntries(t);
    NodeEntries(left);
    NodeEntries(right);
  }

  lemma AbsorbEntries(id: nat, keys: seq<Value>, children: seq<Tree>, i: nat, g: Grown, maxInternal: nat)
    requires Shaped(Node(id, keys, children)) && i < |children| && ShapedGrown(g)
    ensures var g' := Absorb(id, keys, children, i, g, maxInternal);
      && ShapedGrown(g')
      && EntriesGrown(g') == EntriesOf(children[..i]) + EntriesGrown(g) + EntriesOf(children[i + 1..])
  {
    hide Entries;
    match g
    case One(child, last) =>
      var cs := children[i := child];
      EntriesAround(cs, i);
      assert cs[..i] == children[..i] && cs[i + 1..] == children[i + 1..];
      NodeEntries(Node(id, keys, cs));
    case Two(left, separator, right, last) =>
      var cs := InsertAt(children[i := left], i + 1, right);
      assert cs == children[..i] + ([left] + ([right] + children[i + 1..]));
      EntriesOfConcat(children[..i], [left] + ([right] + children[i + 1..]));
      EntriesOfConcat([left], [right] + children[i + 1..]);
      EntriesOfConcat([right], children[i + 1..]);
      EntriesOfOne(left);
      EntriesOfOne(right);
      var node := Node(id, InsertAt(keys, i, separator), cs);
      NodeEntries(node);
      SplitNodeEntries(node, last, maxInternal);
  }

  lemma NodeEntries(t: Tree)
    requires t.Node? && Shaped(t)
    ensures Entries(t) == EntriesOf(t.children)
  {
  }

  // Insertion adds exactly the new entry and keeps all others in their order.
  lemma {:induction false} InsertEntries(t: Tree, k: Value, r: RowPtr, last: nat, maxLeaf: nat, maxInternal: nat)
    requires Shaped(t)
    ensures var g := Insert(t, k, r, last, maxLeaf, maxInternal);
      ShapedGrown(g) && Spliced(Entries(t), EntriesGrown(g), (k, r))
    decreases t
  {
    hide Absorb, Spliced, EntriesGrown;
    match t
    case Leaf(_, _, _, _) =>
      LeafInsertedEntries(t, k, r);
      SplitLeafEntries(LeafInserted(t, k, r), last, maxLeaf);
    case Node(id, keys, children) =>
      var i := ChildPos(keys, k);
      var g := Insert(children[i], k, r, last, maxLeaf, maxInternal);
      InsertEntries(children[i], k, r, last, maxLeaf, maxInternal);
      AbsorbEntries(id, keys, children, i, g, maxInternal);
      EntriesAround(children, i);
      SplicedAround(EntriesOf(children[..i]), Entries(children[i]), EntriesGrown(g), EntriesOf(children[i + 1..]), (k, r));
  }
}
