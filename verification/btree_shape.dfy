/**
 The shape of B+ trees under insertion: all leaves at one depth, key counts within bounds, leaves
 linked from left to right, and page numbers never used twice.
 */
module BTreeShape {
  import opened Values
  import opened BTreeModel

  // ---- Depth and fill ----

  ghost predicate Uniform(t: Tree, depth: nat) {
    match t
    case Leaf(_, _, _, _) => depth == 1
    case Node(_, _, children) => depth > 1 && forall i | 0 <= i < |children| :: Uniform(children[i], depth - 1)
  }

  ghost predicate UniformGrown(g: Grown, depth: nat) {
    match g
    case One(tree, _) => Uniform(tree, depth)
    case Two(left, _, right, _) => Uniform(left, depth) && Uniform(right, depth)
  }

  // The least number of keys in a page other than the root.
  function MinKeys(t: Tree, maxLeaf: nat, maxInternal: nat): nat {
    if t.Leaf? then (maxLeaf + 1) / 2 else maxInternal / 2
  }

  function MaxKeys(t: Tree, maxLeaf: nat, maxInternal: nat): nat {
    if t.Leaf? then maxLeaf else maxInternal
  }

  // No page is too full, and none below the top one too empty.
  ghost predicate FilledBelow(t: Tree, maxLeaf: nat, maxInternal: nat) {
    && |t.keys| <= MaxKeys(t, maxLeaf, maxInternal)
    && (t.Node? ==> forall i | 0 <= i < |t.children| :: Filled(t.children[i], maxLeaf, maxInternal))
  }

  ghost predicate Filled(t: Tree, maxLeaf: nat, maxInternal: nat) {
    && MinKeys(t, maxLeaf, maxInternal) <= |t.keys| <= MaxKeys(t, maxLeaf, maxInternal)
    && (t.Node? ==> forall i | 0 <= i < |t.children| :: Filled(t.children[i], maxLeaf, maxInternal))
  }

  ghost predicate FilledRoot(t: Tree, maxLeaf: nat, maxInternal: nat) {
    FilledBelow(t, maxLeaf, maxInternal) && (t.Node? ==> |t.keys| > 0)
  }

  ghost predicate FilledGrown(g: Grown, maxLeaf: nat, maxInternal: nat) {
    match g
    case One(tree, _) => FilledBelow(tree, maxLeaf, maxInternal)
    case Two(left, _, right, _) => Filled(left, maxLeaf, maxInternal) && Filled(right, maxLeaf, maxInternal)
  }

  // The children after the i-th has split in two.
  lemma At(children: seq<Tree>, i: nat, left: Tree, right: Tree, j: nat)
    requires i < |children| && j <= |children|
    ensures InsertAt(children[i := left], i + 1, right)[j] ==
            if j < i then children[j] else if j == i then left else if j == i + 1 then right else children[j - 1]
    ensures |InsertAt(children[i := left], i + 1, right)| == |children| + 1
  {
  }

  lemma AbsorbUniform(id: nat, keys: seq<Value>, children: seq<Tree>, i: nat, g: Grown, maxInternal: nat, depth: nat)
    requires |children| == |keys| + 1 && i < |children| && Uniform(Node(id, keys, children), depth) && UniformGrown(g, depth - 1)
    ensures UniformGrown(Absorb(id, keys, children, i, g, maxInternal), depth)
  {
    match g
    case One(child, _) =>
    case Two(left, separator, right, _) =>
      var cs := InsertAt(children[i := left], i + 1, right);
      forall j | 0 <= j < |cs| ensures Uniform(cs[j], depth - 1) {
        At(children, i, left, right, j);
      }
  }

  lemma {:induction false} InsertUniform(t: Tree, k: Value, r: RowPtr, last: nat, maxLeaf: nat, maxInternal: nat, depth: nat)
    requires Shaped(t) && Uniform(t, depth)
    ensures UniformGrown(Insert(t, k, r, last, maxLeaf, maxInternal), depth)
    decreases t
  {
    hide Compare, Absorb, UniformGrown;
    match t
    case Leaf(_, _, _, _) =>
      LeafUniform(t, k, r, last, maxLeaf, maxInternal);
    case Node(id, keys, children) =>
      var i := ChildPos(keys, k);
      InsertUniform(children[i], k, r, last, maxLeaf, maxInternal, depth - 1);
      AbsorbUniform(id, keys, children, i, Insert(children[i], k, r, last, maxLeaf, maxInternal), maxInternal, depth);
  }

  lemma LeafUniform(t: Tree, k: Value, r: RowPtr, last: nat, maxLeaf: nat, maxInternal: nat)
    requires t.Leaf? && Shaped(t)
    ensures UniformGrown(Insert(t, k, r, last, maxLeaf, maxInternal), 1)
  {
  }

  lemma InsertShaped(t: Tree, k: Value, r: RowPtr, last: nat, maxLeaf: nat, maxInternal: nat)
    requires Shaped(t)
    ensures ShapedGrown(Insert(t, k, r, last, maxLeaf, maxInternal))
  {
    InsertEntries(t, k, r, last, maxLeaf, maxInternal);
  }

  lemma SplitNodeFilled(t: Tree, last: nat, maxLeaf: nat, maxInternal: nat)
    requires t.Node? && |t.children| == |t.keys| + 1 && |t.keys| <= maxInternal + 1 && maxInternal > 0
    requires forall i | 0 <= i < |t.children| :: Filled(t.children[i], maxLeaf, maxInternal)
    ensures FilledGrown(SplitNode(t, last, maxInternal), maxLeaf, maxInternal)
    ensures SplitNode(t, last, maxInternal).One? ==> SplitNode(t, last, maxInternal).tree == t
  {
  }

  lemma AbsorbFilled(id: nat, keys: seq<Value>, children: seq<Tree>, i: nat, g: Grown, maxLeaf: nat, maxInternal: nat)
    requires |children| == |keys| + 1 && i < |children| && maxInternal > 0
    requires FilledBelow(Node(id, keys, children), maxLeaf, maxInternal) && FilledGrown(g, maxLeaf, maxInternal)
    requires g.One? ==> Filled(g.tree, maxLeaf, maxInternal)
    ensures var g' := Absorb(id, keys, children, i, g, maxInternal);
      && FilledGrown(g', maxLeaf, maxInternal)
      && (g'.One? ==> |g'.tree.keys| >= |keys| && g'.tree.Node?)
  {
    match g
    case One(child, _) =>
    case Two(left, separator, right, last) =>
      var cs := InsertAt(children[i := left], i + 1, right);
      forall j | 0 <= j < |cs| ensures Filled(cs[j], maxLeaf, maxInternal) {
        At(children, i, left, right, j);
      }
      SplitNodeFilled(Node(id, InsertAt(keys, i, separator), cs), last, maxLeaf, maxInternal);
  }

  lemma LeafFilled(t: Tree, k: Value, r: RowPtr, last: nat, maxLeaf: nat, maxInternal: nat)
    requires t.Leaf? && Shaped(t) && |t.keys| <= maxLeaf && maxLeaf > 0
    ensures var g := Insert(t, k, r, last, maxLeaf, maxInternal);
      && FilledGrown(g, maxLeaf, maxInternal)
      && (g.One? ==> |g.tree.keys| >= |t.keys| && g.tree.Leaf?)
  {
  }

  // Splitting an overfull page leaves both halves at least half full.
  lemma {:induction false} InsertFilled(t: Tree, k: Value, r: RowPtr, last: nat, maxLeaf: nat, maxInternal: nat)
    requires Shaped(t) && FilledBelow(t, maxLeaf, maxInternal) && maxLeaf > 0 && maxInternal > 0
    ensures var g := Insert(t, k, r, last, maxLeaf, maxInternal);
      && FilledGrown(g, maxLeaf, maxInternal)
      && (g.One? ==> |g.tree.keys| >= |t.keys| && (g.tree.Leaf? <==> t.Leaf?))
    decreases t
  {
    hide Compare, Absorb;
    match t
    case Leaf(_, _, _, _) =>
      LeafFilled(t, k, r, last, maxLeaf, maxInternal);
    case Node(id, keys, children) =>
      var i := ChildPos(keys, k);
      assert Filled(children[i], maxLeaf, maxInternal);
      InsertFilled(children[i], k, r, last, maxLeaf, maxInternal);
      AbsorbFilled(id, keys, children, i, Insert(children[i], k, r, last, maxLeaf, maxInternal), maxLeaf, maxInternal);
  }

  function Power(b: nat, e: nat): nat {
    if e == 0 then 1 else b * Power(b, e - 1)
  }

  ghost function Count(t: Tree): nat
    requires Shaped(t)
  {
    |Entries(t)|
  }

  lemma {:induction false} CountAtLeast(ts: seq<Tree>, least: nat)
    requires forall i | 0 <= i < |ts| :: Shaped(ts[i]) && Count(ts[i]) >= least
    ensures |EntriesOf(ts)| >= |ts| * least
  {
    hide Shaped, Entries;
    if ts != [] {
      CountAtLeast(ts[1..], least);
      assert |ts| * least == (|ts| - 1) * least + least;
    }
  }

  // A subtree of depth d below the root holds at least ((m + 1) / 2) * (n / 2 + 1)^(d - 1) entries.
  lemma {:induction false} SubtreeCount(t: Tree, depth: nat, maxLeaf: nat, maxInternal: nat)
    requires Shaped(t) && Uniform(t, depth) && Filled(t, maxLeaf, maxInternal)
    ensures depth > 0 && Count(t) >= Power(maxInternal / 2 + 1, depth - 1) * ((maxLeaf + 1) / 2)
    decreases t
  {
    if t.Node? {
      var least := Power(maxInternal / 2 + 1, depth - 2) * ((maxLeaf + 1) / 2);
      forall i | 0 <= i < |t.children| ensures Shaped(t.children[i]) && Count(t.children[i]) >= least {
        SubtreeCount(t.children[i], depth - 1, maxLeaf, maxInternal);
      }
      CountAtLeast(t.children, least);
      MoreChildren(|t.children|, maxInternal / 2 + 1, least);
      MulAssoc(maxInternal / 2 + 1, Power(maxInternal / 2 + 1, depth - 2), (maxLeaf + 1) / 2);
    }
  }

  lemma MoreChildren(n: nat, least: nat, each: nat)
    requires n >= least
    ensures n * each >= least * each
  {
  }

  lemma MulAssoc(a: nat, b: nat, c: nat)
    ensures (a * b) * c == a * (b * c)
  {
  }

  // The height bound: a tree of d >= 2 levels holds at least
  // 2 * (n / 2 + 1)^(d - 2) * ((m + 1) / 2) entries.
  lemma HeightBound(t: Tree, depth: nat, maxLeaf: nat, maxInternal: nat)
    requires Shaped(t) && Uniform(t, depth) && FilledRoot(t, maxLeaf, maxInternal) && depth >= 2
    ensures Count(t) >= 2 * (Power(maxInternal / 2 + 1, depth - 2) * ((maxLeaf + 1) / 2))
  {
    var least := Power(maxInternal / 2 + 1, depth - 2) * ((maxLeaf + 1) / 2);
    forall i | 0 <= i < |t.children| ensures Shaped(t.children[i]) && Count(t.children[i]) >= least {
      SubtreeCount(t.children[i], depth - 1, maxLeaf, maxInternal);
    }
    CountAtLeast(t.children, least);
    MoreChildren(|t.children|, 2, least);
  }

  // ---- The leaf chain ----

  function FirstLeaf(t: Tree): nat
    requires Shaped(t)
  {
    if t.Leaf? then t.id else FirstLeaf(t.children[0])
  }

  // The leaf that the leaves below ts[i] lead on to.
  function NextAfter(ts: seq<Tree>, i: nat, after: nat): nat
    requires i < |ts| && forall j | 0 <= j < |ts| :: Shaped(ts[j])
  {
    if i + 1 < |ts| then FirstLeaf(ts[i + 1]) else after
  }

  // Each leaf names the next one; the last names after.
  ghost predicate Linked(t: Tree, after: nat)
    requires Shaped(t)
  {
    match t
    case Leaf(_, _, _, next) => next == after
    case Node(_, _, children) => forall i | 0 <= i < |children| :: Linked(children[i], NextAfter(children, i, after))
  }

  ghost predicate LinkedGrown(g: Grown, after: nat, first: nat)
    requires ShapedGrown(g)
  {
    match g
    case One(tree, _) => Linked(tree, after) && FirstLeaf(tree) == first
    case Two(left, _, right, _) => Linked(left, FirstLeaf(right)) && Linked(right, after) && FirstLeaf(left) == first
  }

  lemma {:induction false} InsertLinked(t: Tree, k: Value, r: RowPtr, last: nat, maxLeaf: nat, maxInternal: nat, after: nat)
    requires Shaped(t) && Linked(t, after)
    ensures var g := Insert(t, k, r, last, maxLeaf, maxInternal); ShapedGrown(g) && LinkedGrown(g, after, FirstLeaf(t))
    decreases t
  {
    hide Compare, Absorb, LinkedGrown;
    InsertShaped(t, k, r, last, maxLeaf, maxInternal);
    match t
    case Leaf(_, _, _, _) =>
      LeafLinked(t, k, r, last, maxLeaf, maxInternal, after);
    case Node(id, keys, children) =>
      var i := ChildPos(keys, k);
      assert Linked(children[i], NextAfter(children, i, after));
      InsertLinked(children[i], k, r, last, maxLeaf, maxInternal, NextAfter(children, i, after));
      AbsorbLinked(id, keys, children, i, Insert(children[i], k, r, last, maxLeaf, maxInternal), maxInternal, after);
  }

  lemma LeafLinked(t: Tree, k: Value, r: RowPtr, last: nat, maxLeaf: nat, maxInternal: nat, after: nat)
    requires t.Leaf? && Shaped(t) && Linked(t, after) && ShapedGrown(Insert(t, k, r, last, maxLeaf, maxInternal))
    ensures LinkedGrown(Insert(t, k, r, last, maxLeaf, maxInternal), after, FirstLeaf(t))
  {
  }

  lemma AbsorbLinked(id: nat, keys: seq<Value>, children: seq<Tree>, i: nat, g: Grown, maxInternal: nat, after: nat)
    requires Shaped(Node(id, keys, children)) && Linked(Node(id, keys, children), after) && i < |children|
    requires ShapedGrown(g) && LinkedGrown(g, NextAfter(children, i, after), FirstLeaf(children[i]))
    requires ShapedGrown(Absorb(id, keys, children, i, g, maxInternal))
    ensures LinkedGrown(Absorb(id, keys, children, i, g, maxInternal), after, FirstLeaf(Node(id, keys, children)))
  {
    match g
    case One(child, last) =>
      AbsorbOneLinked(id, keys, children, i, child, after);
    case Two(left, separator, right, last) =>
      AbsorbTwoLinked(id, keys, children, i, left, separator, right, after);
      SplitLinked(Node(id, InsertAt(keys, i, separator), InsertAt(children[i := left], i + 1, right)), last, maxInternal, after);
  }

  lemma AbsorbOneLinked(id: nat, keys: seq<Value>, children: seq<Tree>, i: nat, child: Tree, after: nat)
    requires Shaped(Node(id, keys, children)) && Linked(Node(id, keys, children), after) && i < |children|
    requires Shaped(child) && Linked(child, NextAfter(children, i, after)) && FirstLeaf(child) == FirstLeaf(children[i])
    ensures var t := Node(id, keys, children[i := child]);
      Shaped(t) && Linked(t, after) && FirstLeaf(t) == FirstLeaf(Node(id, keys, children))
  {
    var cs := children[i := child];
    forall j | 0 <= j < |cs| ensures Linked(cs[j], NextAfter(cs, j, after)) {
      assert NextAfter(cs, j, after) == NextAfter(children, j, after);
    }
  }

  lemma AbsorbTwoLinked(id: nat, keys: seq<Value>, children: seq<Tree>, i: nat, left: Tree, separator: Value, right: Tree, after: nat)
    requires Shaped(Node(id, keys, children)) && Linked(Node(id, keys, children), after) && i < |children|
    requires Shaped(left) && Shaped(right) && Linked(left, FirstLeaf(right)) && Linked(right, NextAfter(children, i, after))
    requires FirstLeaf(left) == FirstLeaf(children[i])
    ensures var t := Node(id, InsertAt(keys, i, separator), InsertAt(children[i := left], i + 1, right));
      Shaped(t) && Linked(t, after) && FirstLeaf(t) == FirstLeaf(Node(id, keys, children))
  {
    hide FirstLeaf, Linked, Shaped, InsertAt;
    var t := Node(id, keys, children);
    NodeShaped(t);
    var t' := Node(id, InsertAt(keys, i, separator), InsertAt(children[i := left], i + 1, right));
    var cs := t'.children;
    SplitLengths(keys, i, separator, children, left, right);
    forall j: nat | j < |cs| ensures cs[j] == SplitAt(children, i, left, right, j) {
      At(children, i, left, right, j);
    }
    ShapedNode(t');
    forall j | 0 <= j < |cs| ensures Linked(cs[j], NextAfter(cs, j, after)) {
      if j != i && j != i + 1 {
        ChildLinked(t, if j < i then j else j - 1, after);
      }
    }
    NodeLinked(t', after);
    FirstLeafOfNode(t');
    FirstLeafOfNode(t);
  }

  lemma FirstLeafOfNode(t: Tree)
    requires t.Node? && Shaped(t)
    ensures FirstLeaf(t) == FirstLeaf(t.children[0])
  {
  }

  lemma SplitLinked(t: Tree, last: nat, maxInternal: nat, after: nat)
    requires t.Node? && Shaped(t) && Linked(t, after) && ShapedGrown(SplitNode(t, last, maxInternal))
    ensures LinkedGrown(SplitNode(t, last, maxInternal), after, FirstLeaf(t))
  {
    hide Linked, FirstLeaf, Shaped;
    if |t.keys| > maxInternal {
      NodeShaped(t);
      var g := SplitNode(t, last, maxInternal);
      NodeShaped(g.left);
      NodeShaped(g.right);
      SliceLinked(t, g.left, g.right, |t.keys| / 2 + 1, after);
      FirstLeafOfNode(t);
      FirstLeafOfNode(g.left);
    }
  }

  lemma SliceLinked(t: Tree, left: Tree, right: Tree, n: nat, after: nat)
    requires t.Node? && left.Node? && right.Node? && Shaped(t) && Shaped(left) && Shaped(right) && Linked(t, after)
    requires 0 < n < |t.children| && left.children == t.children[..n] && right.children == t.children[n..]
    ensures Linked(left, FirstLeaf(right)) && Linked(right, after)
  {
    hide FirstLeaf, Linked, Shaped;
    NodeShaped(t);
    NodeShaped(left);
    NodeShaped(right);
    FirstLeafOfNode(right);
    forall j | 0 <= j < n ensures Linked(left.children[j], NextAfter(left.children, j, FirstLeaf(right))) {
      assert left.children[j] == t.children[j];
      ChildLinked(t, j, after);
    }
    forall j | 0 <= j < |right.children| ensures Linked(right.children[j], NextAfter(right.children, j, after)) {
      assert right.children[j] == t.children[n + j];
      ChildLinked(t, n + j, after);
    }
    NodeLinked(left, FirstLeaf(right));
    NodeLinked(right, after);
  }

  lemma ChildLinked(t: Tree, j: nat, after: nat)
    requires t.Node? && Shaped(t) && Linked(t, after) && j < |t.children|
    ensures Linked(t.children[j], NextAfter(t.children, j, after))
  {
    hide FirstLeaf;
  }

  lemma NodeLinked(t: Tree, after: nat)
    requires t.Node? && Shaped(t)
    requires forall j | 0 <= j < |t.children| :: Linked(t.children[j], NextAfter(t.children, j, after))
    ensures Linked(t, after)
  {
    hide FirstLeaf;
  }

  function Leaves(t: Tree): seq<Tree>
    decreases t
  {
    match t
    case Leaf(_, _, _, _) => [t]
    case Node(_, _, children) => LeavesOf(children)
  }

  function LeavesOf(ts: seq<Tree>): seq<Tree>
    decreases ts
  {
    if ts == [] then [] else Leaves(ts[0]) + LeavesOf(ts[1..])
  }

  predicate Leads(ls: seq<Tree>, i: nat, after: nat)
    requires i < |ls|
  {
    ls[i].Leaf? && ls[i].next == if i + 1 < |ls| then ls[i + 1].id else after
  }

  // Each leaf names the next in the sequence.
  ghost predicate Chain(ls: seq<Tree>, after: nat) {
    forall i | 0 <= i < |ls| :: Leads(ls, i, after)
  }

  lemma {:induction false} LeavesChain(t: Tree, after: nat)
    requires Shaped(t) && Linked(t, after)
    ensures Leaves(t) != [] && Leaves(t)[0].id == FirstLeaf(t) && Chain(Leaves(t), after)
    decreases t
  {
    if t.Node? {
      LeavesOfChain(t.children, after);
    }
  }

  lemma {:induction false} LeavesOfChain(ts: seq<Tree>, after: nat)
    requires ts != [] && (forall i | 0 <= i < |ts| :: Shaped(ts[i]))
    requires forall i | 0 <= i < |ts| :: Linked(ts[i], NextAfter(ts, i, after))
    ensures LeavesOf(ts) != [] && LeavesOf(ts)[0].id == FirstLeaf(ts[0]) && Chain(LeavesOf(ts), after)
    decreases ts
  {
    hide Shaped, Linked, FirstLeaf;
    var rest := ts[1..];
    LeavesChain(ts[0], NextAfter(ts, 0, after));
    if rest == [] {
      assert LeavesOf(rest) == [];
      assert LeavesOf(ts) == Leaves(ts[0]);
    } else {
      forall i | 0 <= i < |rest| ensures Linked(rest[i], NextAfter(rest, i, after)) {
        assert NextAfter(rest, i, after) == NextAfter(ts, i + 1, after);
      }
      LeavesOfChain(rest, after);
      ChainConcat(Leaves(ts[0]), LeavesOf(rest), after);
    }
  }

  lemma ChainConcat(a: seq<Tree>, b: seq<Tree>, after: nat)
    requires b != [] && Chain(a, b[0].id) && Chain(b, after)
    ensures Chain(a + b, after)
  {
    forall i | 0 <= i < |a + b| ensures Leads(a + b, i, after) {
      assert if i < |a| then Leads(a, i, b[0].id) else Leads(b, i - |a|, after);
    }
  }

  lemma {:induction false} LeavesEntries(t: Tree)
    requires Shaped(t)
    ensures forall i | 0 <= i < |Leaves(t)| :: Shaped(Leaves(t)[i]) && Leaves(t)[i].Leaf?
    ensures EntriesOf(Leaves(t)) == Entries(t)
    decreases t
  {
    if t.Node? {
      LeavesOfEntries(t.children);
    } else {
      EntriesOfOne(t);
    }
  }

  lemma {:induction false} LeavesOfEntries(ts: seq<Tree>)
    requires forall i | 0 <= i < |ts| :: Shaped(ts[i])
    ensures forall i | 0 <= i < |LeavesOf(ts)| :: Shaped(LeavesOf(ts)[i]) && LeavesOf(ts)[i].Leaf?
    ensures EntriesOf(LeavesOf(ts)) == EntriesOf(ts)
    decreases ts
  {
    hide Shaped, Entries;
    if ts != [] {
      LeavesEntries(ts[0]);
      LeavesOfEntries(ts[1..]);
      EntriesOfConcat(Leaves(ts[0]), LeavesOf(ts[1..]));
    }
  }

  // ---- Page numbers ----

  ghost function Ids(t: Tree): set<nat> {
    match t
    case Leaf(id, _, _, _) => {id}
    case Node(id, _, children) => {id} + IdsOf(children)
  }

  ghost function IdsOf(ts: seq<Tree>): set<nat> {
    set i, x | 0 <= i < |ts| && x in Ids(ts[i]) :: x
  }

  ghost predicate Apart(ts: seq<Tree>) {
    forall a, b | 0 <= a < b < |ts| :: Ids(ts[a]) !! Ids(ts[b])
  }

  // No page number occurs twice.
  ghost predicate Unique(t: Tree) {
    match t
    case Leaf(_, _, _, _) => true
    case Node(id, _, children) =>
      id !in IdsOf(children) && Apart(children) && forall i | 0 <= i < |children| :: Unique(children[i])
  }

  // The numbers after last up to last'.
  ghost function NewIds(last: nat, last': nat): (r: set<nat>)
    ensures forall x: nat :: x in r <==> last < x <= last'
  {
    if last' <= last then {} else NewIds(last, last' - 1) + {last'}
  }

  ghost predicate UniqueGrown(g: Grown) {
    match g
    case One(tree, _) => Unique(tree)
    case Two(left, _, right, _) => Unique(left) && Unique(right) && Ids(left) !! Ids(right)
  }

  ghost function IdsGrown(g: Grown): set<nat> {
    match g
    case One(tree, _) => Ids(tree)
    case Two(left, _, right, _) => Ids(left) + Ids(right)
  }

  lemma NodeIds(id: nat, keys: seq<Value>, children: seq<Tree>)
    ensures Ids(Node(id, keys, children)) == {id} + IdsOf(children)
    ensures Unique(Node(id, keys, children)) <==>
            id !in IdsOf(children) && Apart(children) && forall i | 0 <= i < |children| :: Unique(children[i])
  {
  }

  lemma AbsorbUnique(id: nat, keys: seq<Value>, children: seq<Tree>, i: nat, g: Grown, maxInternal: nat, last: nat)
    requires |children| == |keys| + 1 && i < |children|
    requires Unique(Node(id, keys, children)) && forall x | x in Ids(Node(id, keys, children)) :: x <= last
    requires last <= g.last && UniqueGrown(g) && IdsGrown(g) == Ids(children[i]) + NewIds(last, g.last)
    ensures var g' := Absorb(id, keys, children, i, g, maxInternal);
      && last <= g'.last && UniqueGrown(g') && IdsGrown(g') == Ids(Node(id, keys, children)) + NewIds(last, g'.last)
  {
    hide Ids, Unique, IdsOf, Apart, SplitNode, InsertAt;
    NodeIds(id, keys, children);
    match g
    case One(child, last') =>
      var cs := children[i := child];
      ReplacedIds(children, i, child, last, last');
      NodeIds(id, keys, cs);
    case Two(left, separator, right, last') =>
      var cs := InsertAt(children[i := left], i + 1, right);
      var node := Node(id, InsertAt(keys, i, separator), cs);
      SplitIds(children, i, left, right, last, last');
      SplitLengths(keys, i, separator, children, left, right);
      forall j: nat | j < |cs| ensures Unique(cs[j]) {
        At(children, i, left, right, j);
      }
      NodeIds(id, node.keys, cs);
      SplitUnique(node, last', maxInternal);
      assert NewIds(last, last') + NewIds(last', Absorb(id, keys, children, i, g, maxInternal).last)
          == NewIds(last, Absorb(id, keys, children, i, g, maxInternal).last);
  }

  lemma SplitLengths(keys: seq<Value>, i: nat, separator: Value, children: seq<Tree>, left: Tree, right: Tree)
    requires |children| == |keys| + 1 && i < |children|
    ensures |InsertAt(keys, i, separator)| == |keys| + 1
    ensures |InsertAt(children[i := left], i + 1, right)| == |children| + 1
  {
  }

  lemma ReplacedIds(children: seq<Tree>, i: nat, child: Tree, last: nat, last': nat)
    requires i < |children| && Apart(children) && forall x | x in IdsOf(children) :: x <= last
    requires Ids(child) == Ids(children[i]) + NewIds(last, last')
    ensures IdsOf(children[i := child]) == IdsOf(children) + NewIds(last, last') && Apart(children[i := child])
  {
    hide Ids;
    var cs := children[i := child];
    forall j, x | 0 <= j < |cs| && j != i && x in Ids(cs[j]) ensures x !in Ids(child) {
      assert x in IdsOf(children);
      assert Ids(children[j]) !! Ids(children[i]);
    }
    forall x | x in IdsOf(children) + NewIds(last, last') ensures x in IdsOf(cs) {
      if x in IdsOf(children) {
        var j :| 0 <= j < |children| && x in Ids(children[j]);
        assert x in Ids(cs[j]);
      }
      if x in NewIds(last, last') {
        assert x in Ids(cs[i]);
      }
    }
  }

  lemma SplitIds(children: seq<Tree>, i: nat, left: Tree, right: Tree, last: nat, last': nat)
    requires i < |children| && Apart(children) && forall x | x in IdsOf(children) :: x <= last
    requires Ids(left) !! Ids(right) && Ids(left) + Ids(right) == Ids(children[i]) + NewIds(last, last')
    ensures var cs := InsertAt(children[i := left], i + 1, right);
      IdsOf(cs) == IdsOf(children) + NewIds(last, last') && Apart(cs)
  {
    hide Ids, InsertAt, NewIds;
    var cs := InsertAt(children[i := left], i + 1, right);
    forall j: nat | j <= |children| ensures |cs| == |children| + 1 && cs[j] == SplitAt(children, i, left, right, j) {
      At(children, i, left, right, j);
    }
    SplitIdsSet(children, cs, i, left, right, NewIds(last, last'));
    forall a, b | 0 <= a < b < |cs| ensures Ids(cs[a]) !! Ids(cs[b]) {
      ApartFromNew(children, i, left, right, last, last', a, b);
    }
  }

  function SplitAt(children: seq<Tree>, i: nat, left: Tree, right: Tree, j: nat): Tree
    requires i < |children| && j <= |children|
  {
    if j < i then children[j] else if j == i then left else if j == i + 1 then right else children[j - 1]
  }

  lemma SplitIdsSet(children: seq<Tree>, cs: seq<Tree>, i: nat, left: Tree, right: Tree, added: set<nat>)
    requires i < |children| && |cs| == |children| + 1
    requires forall j: nat | j <= |children| :: cs[j] == SplitAt(children, i, left, right, j)
    requires Ids(left) + Ids(right) == Ids(children[i]) + added
    ensures IdsOf(cs) == IdsOf(children) + added
  {
    hide Ids, IdsOf;
    forall x | x in IdsOf(cs) ensures x in IdsOf(children) + added {
      var j := IdWhere(cs, x);
      assert cs[j] == SplitAt(children, i, left, right, j);
      if j == i || j == i + 1 {
        IdThere(children, i);
      } else {
        IdThere(children, if j < i then j else j - 1);
      }
    }
    assert cs[i] == left && cs[i + 1] == right;
    IdThere(cs, i);
    IdThere(cs, i + 1);
    forall x | x in IdsOf(children) ensures x in IdsOf(cs) {
      var j := IdWhere(children, x);
      if j != i {
        IdThere(cs, if j < i then j else j + 1);
      }
    }
  }

  lemma IdWhere(ts: seq<Tree>, x: nat) returns (j: nat)
    requires x in IdsOf(ts)
    ensures j < |ts| && x in Ids(ts[j])
  {
    hide Ids;
    j :| 0 <= j < |ts| && x in Ids(ts[j]);
  }

  lemma IdThere(ts: seq<Tree>, j: nat)
    requires j < |ts|
    ensures Ids(ts[j]) <= IdsOf(ts)
  {
    hide Ids;
  }

  lemma ApartFromNew(children: seq<Tree>, i: nat, left: Tree, right: Tree, last: nat, last': nat, a: nat, b: nat)
    requires i < |children| && Apart(children) && forall x | x in IdsOf(children) :: x <= last
    requires Ids(left) !! Ids(right) && Ids(left) + Ids(right) == Ids(children[i]) + NewIds(last, last')
    requires a < b <= |children|
    ensures Ids(SplitAt(children, i, left, right, a)) !! Ids(SplitAt(children, i, left, right, b))
  {
    hide Ids;
    forall j, x | 0 <= j < |children| && j != i && x in Ids(children[j]) ensures x !in Ids(left) && x !in Ids(right) {
      assert x in IdsOf(children);
      assert Ids(children[j]) !! Ids(children[i]);
    }
  }

  lemma SplitUnique(t: Tree, last: nat, maxInternal: nat)
    requires t.Node? && |t.children| == |t.keys| + 1 && Unique(t) && forall x | x in Ids(t) :: x <= last
    ensures var g := SplitNode(t, last, maxInternal);
      && last <= g.last && UniqueGrown(g) && IdsGrown(g) == Ids(t) + NewIds(last, g.last)
  {
    hide Ids, Unique, IdsOf;
    if |t.keys| > maxInternal {
      HalvesUnique(t, last + 1);
      assert NewIds(last, last + 1) == {last + 1};
    } else {
      assert NewIds(last, last) == {};
    }
  }

  // Both halves of a node, the right one on a page with a new number.
  lemma HalvesUnique(t: Tree, id: nat)
    requires t.Node? && |t.children| == |t.keys| + 1 && t.keys != [] && Unique(t) && id !in Ids(t)
    ensures var mid := |t.keys| / 2;
      var left, right := Node(t.id, t.keys[..mid], t.children[..mid + 1]), Node(id, t.keys[mid + 1..], t.children[mid + 1..]);
      && Unique(left) && Unique(right) && Ids(left) !! Ids(right) && Ids(left) + Ids(right) == Ids(t) + {id}
      && t.id !in IdsOf(right.children)
  {
    hide Ids, Unique, IdsOf;
    var mid := |t.keys| / 2;
    NodeIds(t.id, t.keys, t.children);
    SliceIds(t.children, mid + 1);
    NodeIds(t.id, t.keys[..mid], t.children[..mid + 1]);
    NodeIds(id, t.keys[mid + 1..], t.children[mid + 1..]);
  }

  lemma SliceIds(ts: seq<Tree>, n: nat)
    requires n <= |ts|
    ensures IdsOf(ts) == IdsOf(ts[..n]) + IdsOf(ts[n..])
    ensures Apart(ts) ==> Apart(ts[..n]) && Apart(ts[n..]) && IdsOf(ts[..n]) !! IdsOf(ts[n..])
  {
    hide Ids;
    forall x | x in IdsOf(ts) ensures x in IdsOf(ts[..n]) + IdsOf(ts[n..]) {
      var i :| 0 <= i < |ts| && x in Ids(ts[i]);
      assert if i < n then ts[..n][i] == ts[i] else ts[n..][i - n] == ts[i];
    }
  }

  // New pages get fresh numbers, in order, and no number is used twice.
  lemma {:induction false} InsertUnique(t: Tree, k: Value, r: RowPtr, last: nat, maxLeaf: nat, maxInternal: nat)
    requires Shaped(t) && Unique(t) && forall x | x in Ids(t) :: x <= last
    ensures var g := Insert(t, k, r, last, maxLeaf, maxInternal);
      && last <= g.last && UniqueGrown(g) && IdsGrown(g) == Ids(t) + NewIds(last, g.last)
    decreases t
  {
    hide Compare, Absorb, UniqueGrown, IdsGrown, NewIds;
    match t
    case Leaf(_, _, _, _) =>
      assert t.id in Ids(t);
      LeafUnique(t, k, r, last, maxLeaf, maxInternal);
    case Node(id, keys, children) =>
      var i := ChildPos(keys, k);
      forall x | x in Ids(children[i]) ensures x <= last {
        assert x in Ids(t);
      }
      InsertUnique(children[i], k, r, last, maxLeaf, maxInternal);
      AbsorbUnique(id, keys, children, i, Insert(children[i], k, r, last, maxLeaf, maxInternal), maxInternal, last);
  }

  lemma LeafUnique(t: Tree, k: Value, r: RowPtr, last: nat, maxLeaf: nat, maxInternal: nat)
    requires t.Leaf? && Shaped(t) && t.id <= last
    ensures var g := Insert(t, k, r, last, maxLeaf, maxInternal);
      && last <= g.last && UniqueGrown(g) && IdsGrown(g) == Ids(t) + NewIds(last, g.last)
  {
    assert NewIds(last, last) == {} && NewIds(last, last + 1) == {last + 1};
  }
}
