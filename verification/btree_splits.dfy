/**
 The page writes of a split, step by step: what is laid out before its parent knows of it, and how
 the parent takes it in.
 */
module BTreeSplits {
  import opened Values
  import opened BTreeModel
  import opened BTreeShape
  import opened BTreePages

  ghost predicate UpTo(pages: Pages, last: nat) {
    forall x | x in pages :: x <= last
  }

  // The pages hold the tree around the hole and t in the hole, and nothing else.
  ghost predicate Whole(pages: Pages, ctx: Ctx, t: Tree, last: nat) {
    && ShapedCtx(ctx) && Shaped(t)
    && UniqueAround(ctx) && Unique(t) && IdsAround(ctx) !! Ids(t)
    && LaidOutAround(pages, ctx, t.id) && LaidOut(pages, t, HoleParent(ctx))
    && pages.Keys == IdsAround(ctx) + Ids(t) && UpTo(pages, last)
  }

  // A split that has not reached its parent yet: left is in place at the hole, right is laid out
  // except for the parent field of its top page.
  ghost predicate Halfway(pages: Pages, ctx: Ctx, left: Tree, right: Tree, last: nat) {
    && ShapedCtx(ctx) && Shaped(left) && Shaped(right)
    && UniqueAround(ctx) && Unique(left) && Unique(right)
    && IdsAround(ctx) !! Ids(left) && IdsAround(ctx) !! Ids(right) && Ids(left) !! Ids(right)
    && LaidOutAround(pages, ctx, left.id) && LaidOut(pages, left, HoleParent(ctx))
    && right.id in pages && pages[right.id].id == right.id && pages[right.id].node == NodeOf(right)
    && LaidOutBelow(pages, right)
    && pages.Keys == IdsAround(ctx) + Ids(left) + Ids(right) && UpTo(pages, last)
  }

  // The pages hold the tree, and nothing else.
  ghost predicate Holds(pages: Pages, root: nat, last: nat, t: Tree) {
    LaidOut(pages, t, 0) && root == t.id && pages.Keys == Ids(t) && UpTo(pages, last)
  }

  lemma HoldsWhole(pages: Pages, root: nat, last: nat, t: Tree)
    requires Holds(pages, root, last, t) && Shaped(t) && Unique(t)
    ensures Whole(pages, Top, t, last) && RootOf(Top, t.id) == root
  {
  }

  lemma WholeDescend(pages: Pages, ctx: Ctx, t: Tree, i: nat, last: nat)
    requires Whole(pages, ctx, t, last) && t.Node? && i < |t.children|
    ensures Whole(pages, In(t.id, t.keys, t.children[..i], t.children[i + 1..], ctx), t.children[i], last)
  {
    hide Ids, Unique, IdsOf, LaidOut, LaidOutAround, UniqueAround, IdsAround;
    DescendLaidOut(pages, ctx, t, i);
    DescendUnique(ctx, t, i);
  }

  lemma WholeHolds(pages: Pages, ctx: Ctx, t: Tree, root: nat, last: nat)
    requires Whole(pages, ctx, t, last) && root == RootOf(ctx, t.id)
    ensures Holds(pages, root, last, Plug(ctx, t))
  {
    hide Ids, Unique, IdsOf, LaidOut, LaidOutAround, UniqueAround, IdsAround, Plug;
    PlugLaidOut(pages, ctx, t);
  }

  lemma TopId(t: Tree)
    ensures t.id in Ids(t)
  {
  }

  lemma LaidOutTop(pages: Pages, t: Tree, parent: nat)
    requires t.id in pages && pages[t.id] == IndexPage(t.id, parent, NodeOf(t)) && LaidOutBelow(pages, t)
    ensures LaidOut(pages, t, parent)
  {
  }

  lemma LaidOutParts(pages: Pages, t: Tree, parent: nat)
    requires LaidOut(pages, t, parent)
    ensures t.id in pages && pages[t.id] == IndexPage(t.id, parent, NodeOf(t)) && LaidOutBelow(pages, t)
  {
  }

  // Setting the parent field of its top page moves a subtree under another node.
  lemma Reparented(pages: Pages, pages': Pages, t: Tree, parent: nat)
    requires LaidOutBelow(pages, t) && Unique(t)
    requires t.id in pages' && pages'[t.id] == IndexPage(t.id, parent, NodeOf(t))
    requires forall x | x in Ids(t) && x != t.id && x in pages :: x in pages' && pages'[x] == pages[x]
    ensures LaidOut(pages', t, parent)
  {
    hide LaidOut, Ids, Unique;
    LaidOutBelowFrame(pages, pages', t);
    LaidOutTop(pages', t, parent);
  }

  // ---- A leaf ----

  lemma LeafWritten(pages: Pages, ctx: Ctx, t: Tree, t': Tree, last: nat)
    requires Whole(pages, ctx, t, last) && t.Leaf? && t'.Leaf? && t'.id == t.id && Shaped(t')
    ensures Whole(pages[t.id := pages[t.id].(node := NodeOf(t'))], ctx, t', last)
  {
    LaidOutAroundFrame(pages, pages[t.id := pages[t.id].(node := NodeOf(t'))], ctx, t.id);
  }

  lemma LeafSplit(pages: Pages, pages': Pages, ctx: Ctx, t: Tree, last: nat, maxLeaf: nat)
    requires Whole(pages, ctx, t, last) && t.Leaf? && |t.keys| > maxLeaf
    requires var g := SplitLeaf(t, last, maxLeaf);
      pages' == pages[t.id := pages[t.id].(node := NodeOf(g.left))]
                     [last + 1 := IndexPage(last + 1, pages[t.id].parent, NodeOf(g.right))]
    ensures var g := SplitLeaf(t, last, maxLeaf); Halfway(pages', ctx, g.left, g.right, last + 1)
  {
    hide UniqueAround, ShapedCtx;
    assert t.id in pages && last + 1 !in pages;
    LaidOutAroundFrame(pages, pages', ctx, t.id);
  }

  // ---- An internal node ----

  function Moved(pages: Pages, ids: seq<nat>, parent: nat): Pages {
    map x | x in pages :: if x in ids then pages[x].(parent := parent) else pages[x]
  }

  lemma NodeSplitIds(t: Tree, last: nat, maxInternal: nat)
    requires t.Node? && |t.children| == |t.keys| + 1 && |t.keys| > maxInternal && Unique(t) && last + 1 !in Ids(t)
    ensures var g := SplitNode(t, last, maxInternal);
      && Unique(g.left) && Unique(g.right) && Ids(g.left) !! Ids(g.right)
      && Ids(g.left) + Ids(g.right) == Ids(t) + {last + 1}
      && g.left.id == t.id && t.id !in IdsOf(g.right.children)
  {
    hide Ids, Unique, IdsOf;
    HalvesUnique(t, last + 1);
  }

  lemma ChildIn(ts: seq<Tree>, i: nat)
    requires i < |ts|
    ensures Ids(ts[i]) <= IdsOf(ts) && ts[i].id in IdsOf(ts)
  {
    assert ts[i].id in Ids(ts[i]);
  }

  lemma ChildIdsIn(ts: seq<Tree>)
    ensures forall x | x in ChildIds(ts) :: x in IdsOf(ts)
  {
    hide Ids, IdsOf;
    forall x | x in ChildIds(ts) ensures x in IdsOf(ts) {
      var i :| 0 <= i < |ts| && ChildIds(ts)[i] == x;
      ChildIn(ts, i);
    }
  }

  lemma OnlyOwnChildId(ts: seq<Tree>, j: nat, x: nat)
    requires j < |ts| && Apart(ts) && x in Ids(ts[j]) && x in ChildIds(ts)
    ensures x == ts[j].id
  {
    hide Ids;
    var i :| 0 <= i < |ts| && ChildIds(ts)[i] == x;
    TopId(ts[i]);
  }

  lemma MovedChildren(pages: Pages, pages': Pages, ts: seq<Tree>, from: nat, to: nat)
    requires AllLaidOut(pages, ts, from) && UniqueAll(ts)
    requires forall x | x in IdsOf(ts) && x in pages ::
               x in pages' && pages'[x] == if x in ChildIds(ts) then pages[x].(parent := to) else pages[x]
    ensures AllLaidOut(pages', ts, to)
  {
    hide LaidOut, Ids, Unique, IdsOf;
    forall j | 0 <= j < |ts| ensures LaidOut(pages', ts[j], to) {
      LaidOutParts(pages, ts[j], from);
      ChildIn(ts, j);
      assert ChildIds(ts)[j] == ts[j].id;
      forall x | x in Ids(ts[j]) && x != ts[j].id && x in pages ensures x in pages' && pages'[x] == pages[x] {
        if x in ChildIds(ts) {
          OnlyOwnChildId(ts, j, x);
        }
      }
      Reparented(pages, pages', ts[j], to);
    }
  }

  // The new right node takes over the later children, whose parent fields follow.
  lemma NodeSplit(pages: Pages, pages': Pages, ctx: Ctx, t: Tree, last: nat, maxInternal: nat)
    requires Whole(pages, ctx, t, last) && t.Node? && |t.keys| > maxInternal
    requires var g := SplitNode(t, last, maxInternal);
      pages' == Moved(pages[t.id := pages[t.id].(node := NodeOf(g.left))]
                           [last + 1 := IndexPage(last + 1, pages[t.id].parent, NodeOf(g.right))],
                      ChildIds(g.right.children), last + 1)
    ensures var g := SplitNode(t, last, maxInternal); Halfway(pages', ctx, g.left, g.right, last + 1)
  {
    hide UniqueAround, ShapedCtx, LaidOut, LaidOutAround, Ids, Unique, IdsOf, IdsAround, Moved;
    var g := SplitNode(t, last, maxInternal);
    var mid := |t.keys| / 2;
    LaidOutParts(pages, t, HoleParent(ctx));
    assert last + 1 !in pages;
    NodeSplitIds(t, last, maxInternal);
    TopId(t);
    SplitPages(pages, pages', t, last, maxInternal);
    LaidOutAroundFrame(pages, pages', ctx, t.id);
    NodeIds(t.id, t.keys, t.children);
    NodeIds(g.left.id, g.left.keys, g.left.children);
    NodeIds(g.right.id, g.right.keys, g.right.children);
    AllLaidOutFrame(pages, pages', g.left.children, t.id);
    LaidOutTop(pages', g.left, HoleParent(ctx));
    MovedChildren(pages, pages', g.right.children, t.id, last + 1);
    SplitShaped(t, last, maxInternal);
  }

  lemma SplitShaped(t: Tree, last: nat, maxInternal: nat)
    requires t.Node? && Shaped(t) && |t.keys| > maxInternal
    ensures var g := SplitNode(t, last, maxInternal); Shaped(g.left) && Shaped(g.right)
  {
  }

  lemma SplitPages(pages: Pages, pages': Pages, t: Tree, last: nat, maxInternal: nat)
    requires t.Node? && |t.children| == |t.keys| + 1 && |t.keys| > maxInternal && Unique(t)
    requires t.id in pages && pages[t.id].id == t.id && pages.Keys >= Ids(t) && last + 1 !in pages
    requires var g := SplitNode(t, last, maxInternal);
      pages' == Moved(pages[t.id := pages[t.id].(node := NodeOf(g.left))]
                           [last + 1 := IndexPage(last + 1, pages[t.id].parent, NodeOf(g.right))],
                      ChildIds(g.right.children), last + 1)
    ensures var g := SplitNode(t, last, maxInternal);
      && pages'.Keys == pages.Keys + {last + 1}
      && pages'[t.id] == pages[t.id].(node := NodeOf(g.left))
      && pages'[last + 1].id == last + 1 && pages'[last + 1].node == NodeOf(g.right)
      && (forall x | x in pages && x !in Ids(t) :: pages'[x] == pages[x])
      && (forall x | x in pages && x in IdsOf(g.left.children) :: pages'[x] == pages[x])
      && (forall x | x in pages && x in IdsOf(g.right.children) ::
            pages'[x] == if x in ChildIds(g.right.children) then pages[x].(parent := last + 1) else pages[x])
  {
    hide Ids, Unique, IdsOf;
    var g := SplitNode(t, last, maxInternal);
    NodeSplitIds(t, last, maxInternal);
    TopId(t);
    ChildIdsIn(g.right.children);
    NodeIds(g.left.id, g.left.keys, g.left.children);
    NodeIds(g.right.id, g.right.keys, g.right.children);
  }

  // ---- The parent ----

  // The node around the hole with the split in place of the hole.
  function Joined(ctx: Ctx, left: Tree, separator: Value, right: Tree): Tree
    requires ctx.In? && ShapedCtx(ctx)
  {
    Node(ctx.id, InsertAt(ctx.keys, |ctx.before|, separator), Filler(ctx, [left, right]))
  }

  lemma JoinedUnique(ctx: Ctx, left: Tree, separator: Value, right: Tree)
    requires ctx.In? && ShapedCtx(ctx) && UniqueAround(ctx) && Unique(left) && Unique(right)
    requires IdsAround(ctx) !! Ids(left) && IdsAround(ctx) !! Ids(right) && Ids(left) !! Ids(right)
    ensures var t := Joined(ctx, left, separator, right);
      && Unique(t) && Ids(t) == {ctx.id} + IdsOf(ctx.before) + IdsOf(ctx.after) + Ids(left) + Ids(right)
  {
    hide Ids, Unique, IdsOf;
    var t := Joined(ctx, left, separator, right);
    FillerIds(ctx, [left, right]);
    assert [left] + [right] == [left, right];
    ConcatIds([left], [right]);
    OneIds(left);
    OneIds(right);
    NodeIds(t.id, t.keys, t.children);
    ApartFiller(ctx, left, right);
    forall i | 0 <= i < |t.children| ensures Unique(t.children[i]) {
      FillerAt(ctx, left, right, i);
    }
  }

  function AtFilled(ctx: Ctx, left: Tree, right: Tree, i: nat): Tree
    requires ctx.In? && i < |ctx.before| + 2 + |ctx.after|
  {
    var n := |ctx.before|;
    if i < n then ctx.before[i] else if i == n then left else if i == n + 1 then right else ctx.after[i - n - 2]
  }

  lemma FillerAt(ctx: Ctx, left: Tree, right: Tree, i: nat)
    requires ctx.In? && i < |Filler(ctx, [left, right])|
    ensures Filler(ctx, [left, right])[i] == AtFilled(ctx, left, right, i)
  {
  }

  lemma ApartFiller(ctx: Ctx, left: Tree, right: Tree)
    requires ctx.In? && Apart(ctx.before) && Apart(ctx.after) && IdsOf(ctx.before) !! IdsOf(ctx.after)
    requires (IdsOf(ctx.before) + IdsOf(ctx.after)) !! (Ids(left) + Ids(right)) && Ids(left) !! Ids(right)
    ensures Apart(Filler(ctx, [left, right]))
  {
    hide Ids, IdsOf;
    var ts := Filler(ctx, [left, right]);
    forall i, j | 0 <= i < j < |ts| ensures Ids(ts[i]) !! Ids(ts[j]) {
      FillerAt(ctx, left, right, i);
      FillerAt(ctx, left, right, j);
      ApartPair(ctx, left, right, i, j);
    }
  }

  lemma ApartPair(ctx: Ctx, left: Tree, right: Tree, i: nat, j: nat)
    requires ctx.In? && Apart(ctx.before) && Apart(ctx.after) && IdsOf(ctx.before) !! IdsOf(ctx.after)
    requires (IdsOf(ctx.before) + IdsOf(ctx.after)) !! (Ids(left) + Ids(right)) && Ids(left) !! Ids(right)
    requires i < j < |ctx.before| + 2 + |ctx.after|
    ensures Ids(AtFilled(ctx, left, right, i)) !! Ids(AtFilled(ctx, left, right, j))
  {
    hide Ids, IdsOf;
    var n := |ctx.before|;
    if i < n {
      ChildIn(ctx.before, i);
    }
    if j > n + 1 {
      ChildIn(ctx.after, j - n - 2);
    }
    if j < n {
      ChildIn(ctx.before, j);
    }
    if i > n + 1 {
      ChildIn(ctx.after, i - n - 2);
    }
  }

  lemma JoinedChildren(pages: Pages, ctx: Ctx, left: Tree, right: Tree, parent: nat)
    requires ctx.In? && AllLaidOut(pages, ctx.before, parent) && AllLaidOut(pages, ctx.after, parent)
    requires LaidOut(pages, left, parent) && LaidOut(pages, right, parent)
    ensures AllLaidOut(pages, Filler(ctx, [left, right]), parent)
  {
    hide LaidOut;
    var ts := Filler(ctx, [left, right]);
    forall i | 0 <= i < |ts| ensures LaidOut(pages, ts[i], parent) {
      FillerAt(ctx, left, right, i);
    }
  }

  // The parent's page gains the separator and the right page, and becomes what the split leaves at
  // the next hole up.
  lemma Join(pages: Pages, pages': Pages, ctx: Ctx, left: Tree, separator: Value, right: Tree, last: nat)
    requires Halfway(pages, ctx, left, right, last) && ctx.In? && ctx.id in pages
    requires pages' == pages[ctx.id := pages[ctx.id].(node := NodeOf(Joined(ctx, left, separator, right)))]
                            [right.id := pages[right.id].(parent := ctx.id)]
    ensures Whole(pages', ctx.up, Joined(ctx, left, separator, right), last)
  {
    hide LaidOut, Ids, Unique, IdsOf, NodeOf;
    var t := Joined(ctx, left, separator, right);
    TopId(right);
    JoinedUnique(ctx, left, separator, right);
    LaidOutAroundFrame(pages, pages', ctx.up, ctx.id);
    AllLaidOutFrame(pages, pages', ctx.before, ctx.id);
    AllLaidOutFrame(pages, pages', ctx.after, ctx.id);
    LaidOutFrame(pages, pages', left, ctx.id);
    Reparented(pages, pages', right, ctx.id);
    JoinedChildren(pages', ctx, left, right, ctx.id);
    LaidOutTop(pages', t, HoleParent(ctx.up));
    JoinedShaped(ctx, left, separator, right);
  }

  lemma JoinedShaped(ctx: Ctx, left: Tree, separator: Value, right: Tree)
    requires ctx.In? && ShapedCtx(ctx) && Shaped(left) && Shaped(right)
    ensures Shaped(Joined(ctx, left, separator, right))
  {
    var t := Joined(ctx, left, separator, right);
    forall i | 0 <= i < |t.children| ensures Shaped(t.children[i]) {
      FillerAt(ctx, left, right, i);
    }
  }

  // A split root gets a new page above both halves.
  lemma NewRoot(pages: Pages, pages': Pages, left: Tree, separator: Value, right: Tree, last: nat)
    requires Halfway(pages, Top, left, right, last) && left.id in pages
    requires pages' == pages[last + 1 := IndexPage(last + 1, 0, InternalNode([separator], [left.id, right.id]))]
                            [left.id := pages[left.id].(parent := last + 1)][right.id := pages[right.id].(parent := last + 1)]
    ensures Holds(pages', last + 1, last + 1, Node(last + 1, [separator], [left, right]))
  {
    hide LaidOut, Ids, Unique, IdsOf, NodeOf;
    var t := Node(last + 1, [separator], [left, right]);
    TopId(left);
    TopId(right);
    LaidOutParts(pages, left, 0);
    assert last + 1 !in pages;
    Reparented(pages, pages', left, last + 1);
    Reparented(pages, pages', right, last + 1);
    assert AllLaidOut(pages', t.children, last + 1);
    assert ChildIds(t.children) == [left.id, right.id];
    NodeOfNode(t);
    LaidOutTop(pages', t, 0);
    NodeIds(t.id, t.keys, t.children);
    assert [left] + [right] == [left, right];
    ConcatIds([left], [right]);
    OneIds(left);
    OneIds(right);
  }

  lemma NodeOfNode(t: Tree)
    requires t.Node?
    ensures NodeOf(t) == InternalNode(t.keys, ChildIds(t.children))
  {
  }

  // ---- What the writer relies on ----

  lemma WholeParts(pages: Pages, ctx: Ctx, t: Tree, last: nat)
    requires Whole(pages, ctx, t, last)
    ensures ShapedCtx(ctx) && Shaped(t) && t.id in pages && pages[t.id] == IndexPage(t.id, HoleParent(ctx), NodeOf(t))
    ensures last + 1 !in pages
    ensures t.Node? ==> forall i | 0 <= i < |t.children| :: t.children[i].id in pages
  {
    if t.Node? {
      forall i | 0 <= i < |t.children| ensures t.children[i].id in pages {
        assert LaidOut(pages, t.children[i], t.id);
      }
    }
  }

  lemma HalfwayParts(pages: Pages, ctx: Ctx, left: Tree, right: Tree, last: nat)
    requires Halfway(pages, ctx, left, right, last)
    ensures ShapedCtx(ctx) && left.id in pages && right.id in pages && left.id != right.id && last + 1 !in pages
    ensures ctx.In? ==>
              && ctx.id in pages && ctx.id != left.id && ctx.id != right.id
              && pages[ctx.id].node == InternalNode(ctx.keys, ChildIds(ctx.before) + [left.id] + ChildIds(ctx.after))
              && forall i | 0 <= i < |ctx.before| :: ctx.before[i].id != left.id
  {
    hide Unique, UniqueAround;
    TopId(left);
    TopId(right);
    if ctx.In? {
      forall i | 0 <= i < |ctx.before| ensures ctx.before[i].id != left.id {
        ChildIn(ctx.before, i);
      }
    }
  }

  lemma PathLength(ctx: Ctx)
    ensures |PathTo(ctx)| == 0 <==> ctx.Top?
    ensures ctx.In? ==> PathTo(ctx) == PathTo(ctx.up) + [ctx.id]
  {
  }

  lemma JoinedNode(ctx: Ctx, left: Tree, separator: Value, right: Tree)
    requires ctx.In? && ShapedCtx(ctx)
    ensures var ids := ChildIds(ctx.before) + [left.id] + ChildIds(ctx.after);
      NodeOf(Joined(ctx, left, separator, right))
      == InternalNode(InsertAt(ctx.keys, |ctx.before|, separator), InsertAt(ids, |ctx.before| + 1, right.id))
  {
    var ids := ChildIds(ctx.before) + [left.id] + ChildIds(ctx.after);
    assert ChildIds(Filler(ctx, [left, right])) == InsertAt(ids, |ctx.before| + 1, right.id);
  }

  lemma ChildIdsSlice(ts: seq<Tree>, n: nat)
    requires n <= |ts|
    ensures ChildIds(ts[..n]) == ChildIds(ts)[..n] && ChildIds(ts[n..]) == ChildIds(ts)[n..]
    ensures |ChildIds(ts)| == |ts| && forall i | 0 <= i < |ts| :: ChildIds(ts)[i] == ts[i].id
  {
  }

  lemma {:induction false} LeafPages(pages: Pages, t: Tree, parent: nat)
    requires LaidOut(pages, t, parent)
    ensures forall i | 0 <= i < |Leaves(t)| ::
              Leaves(t)[i].id in Ids(t) && Leaves(t)[i].id in pages && pages[Leaves(t)[i].id].node == NodeOf(Leaves(t)[i])
    decreases t
  {
    if t.Node? {
      LeavesOfPages(pages, t.children, t.id);
    }
  }

  lemma {:induction false} LeavesOfPages(pages: Pages, ts: seq<Tree>, parent: nat)
    requires AllLaidOut(pages, ts, parent)
    ensures forall i | 0 <= i < |LeavesOf(ts)| ::
              && LeavesOf(ts)[i].id in IdsOf(ts) && LeavesOf(ts)[i].id in pages
              && pages[LeavesOf(ts)[i].id].node == NodeOf(LeavesOf(ts)[i])
    decreases ts
  {
    hide Ids, NodeOf, LaidOut;
    if ts != [] {
      LeafPages(pages, ts[0], parent);
      LeavesOfPages(pages, ts[1..], parent);
      ChildIn(ts, 0);
      assert ts == [ts[0]] + ts[1..];
      ConcatIds([ts[0]], ts[1..]);
    }
  }
}
