/**
 The B+ tree index on pages: descent along a recorded path, insertion into a leaf, and splits that
 climb back up that path.
 */
module BTreeIndex {
  import opened Types
  import opened Values
  import opened BTreeModel
  import opened BTreeOrder
  import opened BTreeShape
  import opened BTreePages
  import opened BTreeInvariant
  import opened BTreeSplits

  // The pages of one index file.
  class IndexPager {
    var rootPage: nat
    var lastPage: nat
    var pages: Pages

    // create_index_file: a single empty leaf.
    constructor ()
      ensures rootPage == 1 && lastPage == 1
      ensures pages == map[1 := IndexPage(1, 0, LeafNode([], [], 0))]
    {
      rootPage, lastPage := 1, 1;
      pages := map[1 := IndexPage(1, 0, LeafNode([], [], 0))];
    }

    method CreatePage(isLeaf: bool, parent: nat) returns (id: nat)
      modifies this
      ensures id == old(lastPage) + 1 && lastPage == id && rootPage == old(rootPage)
      ensures pages == old(pages)[id := IndexPage(id, parent, if isLeaf then LeafNode([], [], 0) else InternalNode([], []))]
    {
      lastPage := lastPage + 1;
      id := lastPage;
      pages := pages[id := IndexPage(id, parent, if isLeaf then LeafNode([], [], 0) else InternalNode([], []))];
    }

    method SetNode(id: nat, node: IndexNode)
      requires id in pages
      modifies this`pages
      ensures pages == old(pages)[id := old(pages)[id].(node := node)]
    {
      pages := pages[id := pages[id].(node := node)];
    }

    method SetParent(id: nat, parent: nat)
      requires id in pages
      modifies this`pages
      ensures pages == old(pages)[id := old(pages)[id].(parent := parent)]
    {
      pages := pages[id := pages[id].(parent := parent)];
    }

    method SetRoot(root: nat)
      modifies this`rootPage
      ensures rootPage == root
    {
      rootPage := root;
    }
  }

  class IndexBPlusTree {
    const pager: IndexPager
    const maxLeafKeys: nat
    const maxInternalKeys: nat
    ghost var tree: Tree

    ghost predicate Valid()
      reads this, pager
    {
      && maxLeafKeys > 0 && maxInternalKeys > 0
      && WellFormed(tree, pager.lastPage, maxLeafKeys, maxInternalKeys)
      && Holds(pager.pages, pager.rootPage, pager.lastPage, tree)
    }

    constructor (maxLeafKeys: nat, maxInternalKeys: nat)
      requires maxLeafKeys > 0 && maxInternalKeys > 0
      ensures Valid() && fresh(pager) && tree == FIRST && pager.lastPage == 1
      ensures this.maxLeafKeys == maxLeafKeys && this.maxInternalKeys == maxInternalKeys
    {
      pager := new IndexPager();
      this.maxLeafKeys := maxLeafKeys;
      this.maxInternalKeys := maxInternalKeys;
      tree := FIRST;
      new;
      FirstWellFormed(maxLeafKeys, maxInternalKeys);
    }

    // The leaf a key belongs to, and the path that leads there.
    method FindLeaf(key: Value) returns (leafId: nat, path: seq<nat>, ghost leaf: Tree, ghost ctx: Ctx)
      requires Valid()
      ensures Shaped(tree) && leafId == LeafFor(tree, key).id && path == PathFor(tree, key)
      ensures Whole(pager.pages, ctx, leaf, pager.lastPage) && leafId == leaf.id && leaf == LeafFor(tree, key)
      ensures path == PathTo(ctx) + [leafId] && RootOf(ctx, leafId) == pager.rootPage
      ensures Zoomed(ctx, leaf, tree, key, maxLeafKeys, maxInternalKeys)
    {
      hide WellFormed, Whole, Zoomed, Linked, Ordered, Unique, IdsUpTo, Ids, Compare, ChildPos, PathFor, LeafFor;
      path := [];
      leafId := pager.rootPage;
      ghost var cur := tree;
      ctx := Top;
      WellFormedParts(tree, pager.lastPage, maxLeafKeys, maxInternalKeys);
      HoldsWhole(pager.pages, pager.rootPage, pager.lastPage, tree);
      WholeParts(pager.pages, ctx, cur, pager.lastPage);
      ZoomTop(tree, key, maxLeafKeys, maxInternalKeys);
      while pager.pages[leafId].node.InternalNode?
        invariant Whole(pager.pages, ctx, cur, pager.lastPage) && leafId == cur.id && leafId in pager.pages
        invariant ShapedCtx(ctx) && Shaped(cur) && pager.pages[leafId].node == NodeOf(cur)
        invariant LeafFor(cur, key) == LeafFor(tree, key) && path + PathFor(cur, key) == PathFor(tree, key)
        invariant path == PathTo(ctx) && RootOf(ctx, leafId) == pager.rootPage
        invariant Zoomed(ctx, cur, tree, key, maxLeafKeys, maxInternalKeys)
        decreases cur
      {
        path := path + [leafId];
        var node := pager.pages[leafId].node;
        var i := ChildIndex(node.keys, key);
        PathStep(path[..|path| - 1], cur, key);
        ZoomStep(ctx, cur, tree, key, maxLeafKeys, maxInternalKeys);
        WholeDescend(pager.pages, ctx, cur, i, pager.lastPage);
        ctx := In(cur.id, cur.keys, cur.children[..i], cur.children[i + 1..], ctx);
        cur := cur.children[i];
        leafId := node.children[i];
        WholeParts(pager.pages, ctx, cur, pager.lastPage);
      }
      LeafPath(cur, key);
      path := path + [leafId];
      leaf := cur;
    }

    static method ChildIndex(keys: seq<Value>, key: Value) returns (i: nat)
      ensures i == ChildPos(keys, key)
    {
      i := 0;
      while i < |keys| && Compare(keys[i], key) <= 0
        invariant i <= |keys| && ChildPos(keys, key) == i + ChildPos(keys[i..], key)
      {
        assert keys[i..][1..] == keys[i + 1..];
        i := i + 1;
      }
    }

    static method LeafIndex(keys: seq<Value>, key: Value) returns (pos: nat)
      ensures pos == LeafPos(keys, key)
    {
      pos := 0;
      while pos < |keys| && Compare(keys[pos], key) < 0
        invariant pos <= |keys| && LeafPos(keys, key) == pos + LeafPos(keys[pos..], key)
      {
        assert keys[pos..][1..] == keys[pos + 1..];
        pos := pos + 1;
      }
    }

    // A pointer inserted with the key, if there is one.
    method Find(key: Value) returns (result: Option<RowPtr>)
      requires Valid()
      ensures result.Some? <==> HasKey(Entries(tree), key)
      ensures result.Some? ==> (key, result.value) in Entries(tree)
    {
      hide WellFormed, Whole, Holds, Entries, LeafFor;
      WellFormedParts(tree, pager.lastPage, maxLeafKeys, maxInternalKeys);
      FindCorrect(tree, key);
      var leafId, path;
      ghost var t, ctx;
      leafId, path, t, ctx := FindLeaf(key);
      WholeParts(pager.pages, ctx, t, pager.lastPage);
      var leaf := pager.pages[leafId].node;
      for i := 0 to |leaf.keys|
        invariant FirstEqual(leaf.keys, leaf.rows, key) == FirstEqual(leaf.keys[i..], leaf.rows[i..], key)
      {
        assert leaf.keys[i..][1..] == leaf.keys[i + 1..] && leaf.rows[i..][1..] == leaf.rows[i + 1..];
        if Compare(leaf.keys[i], key) == 0 {
          return Some(leaf.rows[i]);
        }
      }
      return None;
    }

    // Adds the entry to the tree: its page numbers, splits and parent fields are those of the value
    // Insert describes.
    method Insert(key: Value, row: RowPtr)
      requires Valid()
      modifies this, pager
      ensures Valid()
      ensures (tree, pager.lastPage) ==
              Rooted(BTreeModel.Insert(old(tree), key, row, old(pager.lastPage), maxLeafKeys, maxInternalKeys))
      ensures Spliced(old(Entries(tree)), Entries(tree), (key, row))
    {
      hide WellFormed, Whole, Holds, Entries, LeafFor, Rebuild, Spliced;
      WellFormedParts(tree, pager.lastPage, maxLeafKeys, maxInternalKeys);
      InsertKeeps(tree, key, row, pager.lastPage, maxLeafKeys, maxInternalKeys);
      ghost var g := BTreeModel.Insert(tree, key, row, pager.lastPage, maxLeafKeys, maxInternalKeys);
      var leafId, path;
      ghost var t, ctx;
      leafId, path, t, ctx := FindLeaf(key);
      WholeParts(pager.pages, ctx, t, pager.lastPage);
      InsertIntoLeaf(leafId, key, row, ctx, t);
      WholeParts(pager.pages, ctx, LeafInserted(t, key, row), pager.lastPage);
      if |pager.pages[leafId].node.keys| > maxLeafKeys {
        SplitLeafAndPropagate(leafId, path, ctx, LeafInserted(t, key, row));
      } else {
        WholeHolds(pager.pages, ctx, LeafInserted(t, key, row), pager.rootPage, pager.lastPage);
        RebuildOne(ctx, LeafInserted(t, key, row), pager.lastPage, maxInternalKeys);
      }
      tree := Rooted(g).0;
    }

    method InsertIntoLeaf(leafId: nat, key: Value, row: RowPtr, ghost ctx: Ctx, ghost t: Tree)
      requires Whole(pager.pages, ctx, t, pager.lastPage) && t.Leaf? && t.id == leafId
      modifies pager`pages
      ensures Whole(pager.pages, ctx, LeafInserted(t, key, row), pager.lastPage)
    {
      hide Whole;
      WholeParts(pager.pages, ctx, t, pager.lastPage);
      var leaf := pager.pages[leafId].node;
      var pos := LeafIndex(leaf.keys, key);
      LeafWritten(pager.pages, ctx, t, LeafInserted(t, key, row), pager.lastPage);
      pager.SetNode(leafId, LeafNode(InsertAt(leaf.keys, pos, key), InsertAt(leaf.rows, pos, row), leaf.next));
    }

    method SplitLeafAndPropagate(leafId: nat, path: seq<nat>, ghost ctx: Ctx, ghost t: Tree)
      requires maxLeafKeys > 0 && maxInternalKeys > 0
      requires Whole(pager.pages, ctx, t, pager.lastPage) && t.Leaf? && t.id == leafId && |t.keys| > maxLeafKeys
      requires path == PathTo(ctx) + [leafId] && RootOf(ctx, leafId) == pager.rootPage
      modifies pager
      ensures var g := Rooted(Rebuild(ctx, SplitLeaf(t, old(pager.lastPage), maxLeafKeys), maxInternalKeys));
        Holds(pager.pages, pager.rootPage, pager.lastPage, g.0) && pager.lastPage == g.1
    {
      hide Whole, Halfway, Holds, Rebuild;
      WholeParts(pager.pages, ctx, t, pager.lastPage);
      ghost var g := SplitLeaf(t, pager.lastPage, maxLeafKeys);
      ghost var before := pager.pages;
      var leaf := pager.pages[leafId].node;
      var mid := |leaf.keys| / 2;
      var rightId := pager.CreatePage(true, pager.pages[leafId].parent);
      pager.SetNode(rightId, LeafNode(leaf.keys[mid..], leaf.rows[mid..], leaf.next));
      pager.SetNode(leafId, LeafNode(leaf.keys[..mid], leaf.rows[..mid], rightId));
      assert pager.pages == before[leafId := before[leafId].(node := NodeOf(g.left))]
                                  [rightId := IndexPage(rightId, before[leafId].parent, NodeOf(g.right))];
      LeafSplit(before, pager.pages, ctx, t, rightId - 1, maxLeafKeys);
      InsertIntoParent(path, leafId, leaf.keys[mid], rightId, ctx, g.left, g.right);
    }

    // Links a split's right half into the parent, splitting the parent in turn when it overflows.
    method InsertIntoParent(path: seq<nat>, leftId: nat, separator: Value, rightId: nat,
                            ghost ctx: Ctx, ghost left: Tree, ghost right: Tree)
      requires maxInternalKeys > 0
      requires Halfway(pager.pages, ctx, left, right, pager.lastPage) && leftId == left.id && rightId == right.id
      requires path == PathTo(ctx) + [leftId] && RootOf(ctx, leftId) == pager.rootPage
      modifies pager
      ensures var g := Rooted(Rebuild(ctx, Two(left, separator, right, old(pager.lastPage)), maxInternalKeys));
        Holds(pager.pages, pager.rootPage, pager.lastPage, g.0) && pager.lastPage == g.1
      decreases |path|, 0
    {
      hide Whole, Halfway, Holds, Ids, PathTo;
      HalfwayParts(pager.pages, ctx, left, right, pager.lastPage);
      PathLength(ctx);
      ghost var before := pager.pages;
      if |path| == 1 {
        GrowRoot(leftId, separator, rightId, left, right);
        return;
      }
      var parentId := path[|path| - 2];
      var parent := pager.pages[parentId].node;
      var childPos := PositionOf(parent.children, leftId, |ctx.before|);
      pager.SetNode(parentId, InternalNode(InsertAt(parent.keys, childPos, separator),
                                           InsertAt(parent.children, childPos + 1, rightId)));
      ghost var t := Joined(ctx, left, separator, right);
      JoinedNode(ctx, left, separator, right);
      pager.SetParent(rightId, parentId);
      Join(before, pager.pages, ctx, left, separator, right, pager.lastPage);
      WholeParts(pager.pages, ctx.up, t, pager.lastPage);
      if |pager.pages[parentId].node.keys| > maxInternalKeys {
        SplitInternalAndPropagate(parentId, path[..|path| - 1], ctx.up, t);
      } else {
        WholeHolds(pager.pages, ctx.up, t, pager.rootPage, pager.lastPage);
        RebuildOne(ctx.up, t, pager.lastPage, maxInternalKeys);
      }
    }

    // A new root page above both halves.
    method GrowRoot(leftId: nat, separator: Value, rightId: nat, ghost left: Tree, ghost right: Tree)
      requires Halfway(pager.pages, Top, left, right, pager.lastPage) && leftId == left.id && rightId == right.id
      modifies pager
      ensures var g := Rooted(Two(left, separator, right, old(pager.lastPage)));
        Holds(pager.pages, pager.rootPage, pager.lastPage, g.0) && pager.lastPage == g.1
    {
      hide Halfway, Holds;
      HalfwayParts(pager.pages, Top, left, right, pager.lastPage);
      ghost var before := pager.pages;
      var rootId := pager.CreatePage(false, 0);
      pager.SetNode(rootId, InternalNode([separator], [leftId, rightId]));
      pager.SetParent(leftId, rootId);
      pager.SetParent(rightId, rootId);
      pager.SetRoot(rootId);
      NewRoot(before, pager.pages, left, separator, right, rootId - 1);
    }

    static method PositionOf(ids: seq<nat>, id: nat, ghost at: nat) returns (pos: nat)
      requires at < |ids| && ids[at] == id && forall i | 0 <= i < at :: ids[i] != id
      ensures pos == at
    {
      pos := 0;
      while pos < |ids| && ids[pos] != id
        invariant pos <= at
      {
        pos := pos + 1;
      }
    }

    method SplitInternalAndPropagate(pageId: nat, path: seq<nat>, ghost ctx: Ctx, ghost t: Tree)
      requires maxInternalKeys > 0
      requires Whole(pager.pages, ctx, t, pager.lastPage) && t.Node? && t.id == pageId && |t.keys| > maxInternalKeys
      requires path == PathTo(ctx) + [pageId] && RootOf(ctx, pageId) == pager.rootPage
      modifies pager
      ensures var g := Rooted(Rebuild(ctx, SplitNode(t, old(pager.lastPage), maxInternalKeys), maxInternalKeys));
        Holds(pager.pages, pager.rootPage, pager.lastPage, g.0) && pager.lastPage == g.1
      decreases |path|, 1
    {
      hide Whole, Halfway, Holds, Rebuild, ChildIds;
      WholeParts(pager.pages, ctx, t, pager.lastPage);
      ghost var g := SplitNode(t, pager.lastPage, maxInternalKeys);
      ghost var before := pager.pages;
      var node := pager.pages[pageId].node;
      var mid := |node.keys| / 2;
      var rightId := pager.CreatePage(false, pager.pages[pageId].parent);
      ChildIdsSlice(t.children, mid + 1);
      var moved := node.children[mid + 1..];
      pager.SetNode(rightId, InternalNode(node.keys[mid + 1..], moved));
      pager.SetNode(pageId, InternalNode(node.keys[..mid], node.children[..mid + 1]));
      ghost var base := pager.pages;
      assert base == before[pageId := before[pageId].(node := NodeOf(g.left))]
                           [rightId := IndexPage(rightId, before[pageId].parent, NodeOf(g.right))];
      SetParents(moved, rightId);
      NodeSplit(before, pager.pages, ctx, t, rightId - 1, maxInternalKeys);
      InsertIntoParent(path, pageId, node.keys[mid], rightId, ctx, g.left, g.right);
    }

    method SetParents(ids: seq<nat>, parent: nat)
      requires forall i | 0 <= i < |ids| :: ids[i] in pager.pages
      modifies pager`pages
      ensures pager.pages == Moved(old(pager.pages), ids, parent)
    {
      for j := 0 to |ids|
        invariant pager.pages == Moved(old(pager.pages), ids[..j], parent)
      {
        pager.SetParent(ids[j], parent);
        assert ids[..j + 1] == ids[..j] + [ids[j]];
      }
      assert ids[..|ids|] == ids;
    }

    // The row pointers met on the way along the leaf chain: all of them, in key order.
    method Walk() returns (rows: seq<RowPtr>)
      requires Valid()
      ensures rows == Pointers(Entries(tree))
    {
      hide WellFormed, Linked, Entries, Leaves, Ordered, Unique, Ids;
      WellFormedParts(tree, pager.lastPage, maxLeafKeys, maxInternalKeys);
      LeafPages(pager.pages, tree, 0);
      ChainWalk(tree);
      ghost var ls := Leaves(tree);
      var page := LeftmostLeaf();
      rows := [];
      ghost var j := 0;
      assert ls[..0] == [];
      while true
        invariant j < |ls| && page == ls[j].id && rows == Pointers(EntriesOf(ls[..j]))
        decreases |ls| - j
      {
        var leaf := pager.pages[page].node;
        assert Leads(ls, j, 0);
        LeafPointers(ls, j);
        rows := rows + leaf.rows;
        if leaf.next == 0 {
          assert ls[..j + 1] == ls;
          return;
        }
        page := leaf.next;
        j := j + 1;
      }
    }

    method LeftmostLeaf() returns (page: nat)
      requires Shaped(tree) && Holds(pager.pages, pager.rootPage, pager.lastPage, tree)
      ensures page == FirstLeaf(tree)
    {
      page := pager.rootPage;
      ghost var cur := tree;
      ghost var parent := 0;
      while pager.pages[page].node.InternalNode?
        invariant LaidOut(pager.pages, cur, parent) && page == cur.id && Shaped(cur) && FirstLeaf(cur) == FirstLeaf(tree)
        decreases cur
      {
        page := pager.pages[page].node.children[0];
        parent := cur.id;
        cur := cur.children[0];
      }
    }
  }

  // One step of the descent, as recorded in the path.
  lemma PathStep(path: seq<nat>, t: Tree, key: Value)
    requires Shaped(t) && t.Node?
    ensures var i := ChildPos(t.keys, key);
      && path + PathFor(t, key) == (path + [t.id]) + PathFor(t.children[i], key)
      && LeafFor(t, key) == LeafFor(t.children[i], key)
  {
  }

  lemma LeafPath(t: Tree, key: Value)
    requires Shaped(t) && t.Leaf?
    ensures PathFor(t, key) == [t.id] && LeafFor(t, key) == t
  {
  }
}
