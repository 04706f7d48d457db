/**
 B+ trees laid out in numbered pages, and the path from the root to a page that is being split: a
 tree with a hole, whose page numbers are the recorded path.
 */
module BTreePages {
  import opened Values
  import opened BTreeModel
  import opened BTreeShape

  datatype IndexNode =
    | InternalNode(keys: seq<Value>, children: seq<nat>)
    | LeafNode(keys: seq<Value>, rows: seq<RowPtr>, next: nat)

  datatype IndexPage = IndexPage(id: nat, parent: nat, node: IndexNode)

  type Pages = map<nat, IndexPage>

  function ChildIds(ts: seq<Tree>): seq<nat> {
    seq(|ts|, i requires 0 <= i < |ts| => ts[i].id)
  }

  function NodeOf(t: Tree): IndexNode {
    match t
    case Leaf(_, keys, rows, next) => LeafNode(keys, rows, next)
    case Node(_, keys, children) => InternalNode(keys, ChildIds(children))
  }

  // The pages below the top page of t.
  ghost predicate LaidOutBelow(pages: Pages, t: Tree) {
    t.Node? ==> forall i | 0 <= i < |t.children| :: LaidOut(pages, t.children[i], t.id)
  }

  // The pages hold t, with parent fields to match.
  ghost predicate LaidOut(pages: Pages, t: Tree, parent: nat) {
    && t.id in pages && pages[t.id] == IndexPage(t.id, parent, NodeOf(t))
    && (t.Node? ==> forall i | 0 <= i < |t.children| :: LaidOut(pages, t.children[i], t.id))
  }

  ghost predicate AllLaidOut(pages: Pages, ts: seq<Tree>, parent: nat) {
    forall i | 0 <= i < |ts| :: LaidOut(pages, ts[i], parent)
  }

  // The way from a page up to the root: each step is an internal node without one of its children.
  datatype Ctx =
    | Top
    | In(id: nat, keys: seq<Value>, before: seq<Tree>, after: seq<Tree>, up: Ctx)

  // The page that holds the hole's page as a child; 0 above the root.
  function HoleParent(ctx: Ctx): nat {
    if ctx.Top? then 0 else ctx.id
  }

  function RootOf(ctx: Ctx, hole: nat): nat {
    if ctx.Top? then hole else RootOf(ctx.up, ctx.id)
  }

  function PathTo(ctx: Ctx): seq<nat> {
    if ctx.Top? then [] else PathTo(ctx.up) + [ctx.id]
  }

  ghost predicate ShapedCtx(ctx: Ctx) {
    ctx.In? ==>
      && |ctx.keys| == |ctx.before| + |ctx.after|
      && (forall i | 0 <= i < |ctx.before| :: Shaped(ctx.before[i]))
      && (forall i | 0 <= i < |ctx.after| :: Shaped(ctx.after[i]))
      && ShapedCtx(ctx.up)
  }

  function Filler(ctx: Ctx, middle: seq<Tree>): seq<Tree>
    requires ctx.In?
  {
    ctx.before + middle + ctx.after
  }

  function Plug(ctx: Ctx, t: Tree): Tree {
    if ctx.Top? then t else Plug(ctx.up, Node(ctx.id, ctx.keys, Filler(ctx, [t])))
  }

  // What a split at the hole makes of the whole tree.
  function Rebuild(ctx: Ctx, g: Grown, maxInternal: nat): Grown
    requires ShapedCtx(ctx)
  {
    if ctx.Top? then g
    else match g
      case One(t, last) => Rebuild(ctx.up, One(Node(ctx.id, ctx.keys, Filler(ctx, [t])), last), maxInternal)
      case Two(left, separator, right, last) =>
        Rebuild(ctx.up, SplitNode(Node(ctx.id, InsertAt(ctx.keys, |ctx.before|, separator), Filler(ctx, [left, right])),
                                  last, maxInternal), maxInternal)
  }

  ghost predicate LaidOutAround(pages: Pages, ctx: Ctx, hole: nat) {
    ctx.In? ==>
      && ctx.id in pages
      && pages[ctx.id] == IndexPage(ctx.id, HoleParent(ctx.up),
                                    InternalNode(ctx.keys, ChildIds(ctx.before) + [hole] + ChildIds(ctx.after)))
      && AllLaidOut(pages, ctx.before, ctx.id) && AllLaidOut(pages, ctx.after, ctx.id)
      && LaidOutAround(pages, ctx.up, ctx.id)
  }

  ghost function IdsAround(ctx: Ctx): set<nat> {
    if ctx.Top? then {} else {ctx.id} + IdsOf(ctx.before) + IdsOf(ctx.after) + IdsAround(ctx.up)
  }

  ghost predicate UniqueAll(ts: seq<Tree>) {
    Apart(ts) && forall i | 0 <= i < |ts| :: Unique(ts[i])
  }

  ghost predicate UniqueAround(ctx: Ctx) {
    ctx.In? ==>
      && UniqueAll(ctx.before) && UniqueAll(ctx.after)
      && IdsOf(ctx.before) !! IdsOf(ctx.after)
      && ctx.id !in IdsOf(ctx.before) + IdsOf(ctx.after)
      && ({ctx.id} + IdsOf(ctx.before) + IdsOf(ctx.after)) !! IdsAround(ctx.up)
      && UniqueAround(ctx.up)
  }

  // ---- Pages that do not change ----

  lemma {:induction false} LaidOutFrame(pages: Pages, pages': Pages, t: Tree, parent: nat)
    requires LaidOut(pages, t, parent)
    requires forall x | x in Ids(t) && x in pages :: x in pages' && pages'[x] == pages[x]
    ensures LaidOut(pages', t, parent)
    decreases t
  {
    if t.Node? {
      forall i | 0 <= i < |t.children| ensures LaidOut(pages', t.children[i], t.id) {
        assert forall x | x in Ids(t.children[i]) :: x in IdsOf(t.children);
        LaidOutFrame(pages, pages', t.children[i], t.id);
      }
    }
  }

  lemma AllLaidOutFrame(pages: Pages, pages': Pages, ts: seq<Tree>, parent: nat)
    requires AllLaidOut(pages, ts, parent)
    requires forall x | x in IdsOf(ts) && x in pages :: x in pages' && pages'[x] == pages[x]
    ensures AllLaidOut(pages', ts, parent)
  {
    hide LaidOut, Ids;
    forall i | 0 <= i < |ts| ensures LaidOut(pages', ts[i], parent) {
      LaidOutFrame(pages, pages', ts[i], parent);
    }
  }

  lemma LaidOutBelowFrame(pages: Pages, pages': Pages, t: Tree)
    requires LaidOutBelow(pages, t) && Unique(t)
    requires forall x | x in Ids(t) && x != t.id && x in pages :: x in pages' && pages'[x] == pages[x]
    ensures LaidOutBelow(pages', t)
  {
    hide LaidOut;
    if t.Node? {
      AllLaidOutFrame(pages, pages', t.children, t.id);
    }
  }

  lemma {:induction false} LaidOutAroundFrame(pages: Pages, pages': Pages, ctx: Ctx, hole: nat)
    requires LaidOutAround(pages, ctx, hole)
    requires forall x | x in IdsAround(ctx) && x in pages :: x in pages' && pages'[x] == pages[x]
    ensures LaidOutAround(pages', ctx, hole)
  {
    hide LaidOut, IdsOf;
    if ctx.In? {
      AllLaidOutFrame(pages, pages', ctx.before, ctx.id);
      AllLaidOutFrame(pages, pages', ctx.after, ctx.id);
      LaidOutAroundFrame(pages, pages', ctx.up, ctx.id);
    }
  }

  // ---- Filling the hole ----

  lemma NodeLaidOut(pages: Pages, ctx: Ctx, t: Tree)
    requires ctx.In? && LaidOutAround(pages, ctx, t.id) && LaidOut(pages, t, ctx.id)
    ensures LaidOut(pages, Node(ctx.id, ctx.keys, Filler(ctx, [t])), HoleParent(ctx.up))
  {
    var cs := Filler(ctx, [t]);
    assert ChildIds(cs) == ChildIds(ctx.before) + [t.id] + ChildIds(ctx.after);
    forall i | 0 <= i < |cs| ensures LaidOut(pages, cs[i], ctx.id) {
      assert cs[i] == if i < |ctx.before| then ctx.before[i] else if i == |ctx.before| then t else ctx.after[i - |ctx.before| - 1];
    }
  }

  lemma {:induction false} PlugLaidOut(pages: Pages, ctx: Ctx, t: Tree)
    requires LaidOutAround(pages, ctx, t.id) && LaidOut(pages, t, HoleParent(ctx))
    ensures LaidOut(pages, Plug(ctx, t), 0)
    ensures Plug(ctx, t).id == RootOf(ctx, t.id)
    ensures Ids(Plug(ctx, t)) == IdsAround(ctx) + Ids(t)
  {
    hide LaidOut, Ids;
    if ctx.In? {
      var node := Node(ctx.id, ctx.keys, Filler(ctx, [t]));
      NodeLaidOut(pages, ctx, t);
      PlugLaidOut(pages, ctx.up, node);
      FillerIds(ctx, [t]);
      NodeIds(ctx.id, ctx.keys, Filler(ctx, [t]));
      OneIds(t);
    }
  }

  lemma OneIds(t: Tree)
    ensures IdsOf([t]) == Ids(t)
  {
    hide Ids;
    forall x | x in Ids(t) ensures x in IdsOf([t]) {
      assert x in Ids([t][0]);
    }
  }

  lemma ConcatIds(a: seq<Tree>, b: seq<Tree>)
    ensures IdsOf(a + b) == IdsOf(a) + IdsOf(b)
  {
    hide Ids;
    assert (a + b)[..|a|] == a && (a + b)[|a|..] == b;
    SliceIds(a + b, |a|);
  }

  lemma FillerIds(ctx: Ctx, middle: seq<Tree>)
    requires ctx.In?
    ensures IdsOf(Filler(ctx, middle)) == IdsOf(ctx.before) + IdsOf(middle) + IdsOf(ctx.after)
  {
    hide Ids, IdsOf;
    ConcatIds(ctx.before, middle);
    ConcatIds(ctx.before + middle, ctx.after);
  }

  lemma {:induction false} RebuildOne(ctx: Ctx, t: Tree, last: nat, maxInternal: nat)
    requires ShapedCtx(ctx)
    ensures Rebuild(ctx, One(t, last), maxInternal) == One(Plug(ctx, t), last)
  {
    if ctx.In? {
      RebuildOne(ctx.up, Node(ctx.id, ctx.keys, Filler(ctx, [t])), last, maxInternal);
    }
  }

  // One step of the descent: the hole moves to the child, and what a split will make of the whole
  // tree stays the same.
  lemma RebuildStep(ctx: Ctx, t: Tree, k: Value, r: RowPtr, last: nat, maxLeaf: nat, maxInternal: nat)
    requires ShapedCtx(ctx) && t.Node? && Shaped(t)
    ensures var i := ChildPos(t.keys, k);
      var ctx' := In(t.id, t.keys, t.children[..i], t.children[i + 1..], ctx);
      && ShapedCtx(ctx')
      && Rebuild(ctx', Insert(t.children[i], k, r, last, maxLeaf, maxInternal), maxInternal)
         == Rebuild(ctx, Insert(t, k, r, last, maxLeaf, maxInternal), maxInternal)
  {
    hide Compare, Rebuild, SplitNode, InsertAt;
    var i := ChildPos(t.keys, k);
    var ctx' := In(t.id, t.keys, t.children[..i], t.children[i + 1..], ctx);
    var g := Insert(t.children[i], k, r, last, maxLeaf, maxInternal);
    assert Insert(t, k, r, last, maxLeaf, maxInternal) == Absorb(t.id, t.keys, t.children, i, g, maxInternal);
    hide Insert;
    RebuildAbsorb(ctx, t, i, g, maxInternal);
  }

  lemma RebuildAbsorb(ctx: Ctx, t: Tree, i: nat, g: Grown, maxInternal: nat)
    requires ShapedCtx(ctx) && t.Node? && Shaped(t) && i < |t.children|
    requires ShapedCtx(In(t.id, t.keys, t.children[..i], t.children[i + 1..], ctx))
    ensures Rebuild(In(t.id, t.keys, t.children[..i], t.children[i + 1..], ctx), g, maxInternal)
         == Rebuild(ctx, Absorb(t.id, t.keys, t.children, i, g, maxInternal), maxInternal)
  {
    hide SplitNode;
    var ctx' := In(t.id, t.keys, t.children[..i], t.children[i + 1..], ctx);
    match g
    case One(child, _) =>
      assert Filler(ctx', [child]) == t.children[i := child];
    case Two(left, separator, right, _) =>
      assert Filler(ctx', [left, right]) == InsertAt(t.children[i := left], i + 1, right);
  }

  // Whatever is inserted with key k, its effect on the whole tree t is its effect on cur, rebuilt
  // along the path.
  ghost predicate Zoomed(ctx: Ctx, cur: Tree, t: Tree, k: Value, maxLeaf: nat, maxInternal: nat)
    requires ShapedCtx(ctx) && Shaped(cur) && Shaped(t)
  {
    forall r: RowPtr, last: nat ::
      Rebuild(ctx, Insert(cur, k, r, last, maxLeaf, maxInternal), maxInternal) == Insert(t, k, r, last, maxLeaf, maxInternal)
  }

  lemma ZoomTop(t: Tree, k: Value, maxLeaf: nat, maxInternal: nat)
    requires Shaped(t)
    ensures Zoomed(Top, t, t, k, maxLeaf, maxInternal)
  {
  }

  lemma ZoomStep(ctx: Ctx, cur: Tree, t: Tree, k: Value, maxLeaf: nat, maxInternal: nat)
    requires ShapedCtx(ctx) && cur.Node? && Shaped(cur) && Shaped(t) && Zoomed(ctx, cur, t, k, maxLeaf, maxInternal)
    ensures var i := ChildPos(cur.keys, k);
      var ctx' := In(cur.id, cur.keys, cur.children[..i], cur.children[i + 1..], ctx);
      ShapedCtx(ctx') && Zoomed(ctx', cur.children[i], t, k, maxLeaf, maxInternal)
  {
    hide Insert, Rebuild;
    var i := ChildPos(cur.keys, k);
    var ctx' := In(cur.id, cur.keys, cur.children[..i], cur.children[i + 1..], ctx);
    forall r: RowPtr, last: nat
      ensures ShapedCtx(ctx') && Rebuild(ctx', Insert(cur.children[i], k, r, last, maxLeaf, maxInternal), maxInternal)
           == Insert(t, k, r, last, maxLeaf, maxInternal)
    {
      RebuildStep(ctx, cur, k, r, last, maxLeaf, maxInternal);
    }
    var r0: RowPtr := (0, 0);
    RebuildStep(ctx, cur, k, r0, 0, maxLeaf, maxInternal);
  }

  lemma DescendLaidOut(pages: Pages, ctx: Ctx, t: Tree, i: nat)
    requires t.Node? && i < |t.children| && LaidOutAround(pages, ctx, t.id) && LaidOut(pages, t, HoleParent(ctx))
    ensures var ctx' := In(t.id, t.keys, t.children[..i], t.children[i + 1..], ctx);
      LaidOutAround(pages, ctx', t.children[i].id) && LaidOut(pages, t.children[i], HoleParent(ctx'))
  {
    assert ChildIds(t.children) == ChildIds(t.children[..i]) + [t.children[i].id] + ChildIds(t.children[i + 1..]);
  }

  lemma DescendUnique(ctx: Ctx, t: Tree, i: nat)
    requires t.Node? && i < |t.children| && UniqueAround(ctx) && Unique(t) && IdsAround(ctx) !! Ids(t)
    ensures var ctx' := In(t.id, t.keys, t.children[..i], t.children[i + 1..], ctx);
      && UniqueAround(ctx') && Unique(t.children[i]) && IdsAround(ctx') !! Ids(t.children[i])
      && IdsAround(ctx') + Ids(t.children[i]) == IdsAround(ctx) + Ids(t)
  {
    hide Ids, Unique, IdsOf;
    NodeIds(t.id, t.keys, t.children);
    var before, rest, after := t.children[..i], t.children[i..], t.children[i + 1..];
    SliceIds(t.children, i);
    SliceIds(rest, 1);
    assert rest[..1] == [t.children[i]] && rest[1..] == after;
    OneIds(t.children[i]);
  }
}
