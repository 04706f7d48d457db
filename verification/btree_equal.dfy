/**
 Equal keys: which of them a lookup returns once they no longer fit into one leaf.
 */
module BTreeEquals {
  import opened Types
  import opened Values
  import opened BTreeModel
  import opened BTreeOrder
  import opened BTreeInvariant

  // Insertions under one key.
  function Under(k: Value, rows: seq<RowPtr>): seq<Entry> {
    seq(|rows|, i requires 0 <= i < |rows| => (k, rows[i]))
  }

  function Backwards(rows: seq<RowPtr>): (r: seq<RowPtr>)
    ensures |r| == |rows|
  {
    seq(|rows|, i requires 0 <= i < |rows| => rows[|rows| - 1 - i])
  }

  function Repeated(k: Value, n: nat): (r: seq<Value>)
    ensures |r| == n
  {
    seq(n, i => k)
  }

  lemma EqualPos(k: Value, n: nat)
    ensures LeafPos(Repeated(k, n), k) == 0
  {
    OrderLaws();
  }

  lemma BuiltNext(k: Value, rows: seq<RowPtr>, maxLeaf: nat, maxInternal: nat)
    requires rows != []
    ensures var n := |rows| - 1;
      var (t, last) := Built(Under(k, rows[..n]), maxLeaf, maxInternal);
      Built(Under(k, rows), maxLeaf, maxInternal) == Rooted(Insert(t, k, rows[n], last, maxLeaf, maxInternal))
  {
    hide Insert, Rooted;
    assert Under(k, rows)[..|rows| - 1] == Under(k, rows[..|rows| - 1]);
  }

  lemma BuiltEmpty(k: Value, maxLeaf: nat, maxInternal: nat)
    ensures Built(Under(k, []), maxLeaf, maxInternal) == (Leaf(1, Repeated(k, 0), Backwards([]), 0), 1)
  {
    assert Repeated(k, 0) == [] && Backwards([]) == [] && Under(k, []) == [];
  }

  // While they fit, the newest stands first.
  lemma {:induction false} OneLeaf(k: Value, rows: seq<RowPtr>, maxLeaf: nat, maxInternal: nat)
    requires |rows| <= maxLeaf
    ensures Built(Under(k, rows), maxLeaf, maxInternal) == (Leaf(1, Repeated(k, |rows|), Backwards(rows), 0), 1)
    decreases |rows|
  {
    hide Compare, Built, Insert, LeafInserted, Repeated, Backwards, Under;
    var n := |rows|;
    if n == 0 {
      BuiltEmpty(k, maxLeaf, maxInternal);
    } else {
      OneLeaf(k, rows[..n - 1], maxLeaf, maxInternal);
      BuiltNext(k, rows, maxLeaf, maxInternal);
      NextEqual(k, rows, 0);
      StaysOne(Leaf(1, Repeated(k, n - 1), Backwards(rows[..n - 1]), 0), k, rows[n - 1], maxLeaf, maxInternal);
    }
  }

  lemma StaysOne(t: Tree, k: Value, r: RowPtr, maxLeaf: nat, maxInternal: nat)
    requires t.Leaf? && |t.keys| == |t.rows| < maxLeaf
    ensures Rooted(Insert(t, k, r, 1, maxLeaf, maxInternal)) == (LeafInserted(t, k, r), 1)
  {
  }

  lemma NextEqual(k: Value, rows: seq<RowPtr>, next: nat)
    requires rows != []
    ensures var n := |rows| - 1;
      LeafInserted(Leaf(1, Repeated(k, n), Backwards(rows[..n]), next), k, rows[n]) == Leaf(1, Repeated(k, n + 1), Backwards(rows), next)
  {
    var n := |rows| - 1;
    EqualPos(k, n);
    assert [k] + Repeated(k, n) == Repeated(k, n + 1);
    assert [rows[n]] + Backwards(rows[..n]) == Backwards(rows);
  }

  // One more splits the leaf: the newest stays on the left, and what find returns is the newest on the
  // right, with (maxLeaf + 1) / 2 newer ones before it.
  lemma FindsOlder(k: Value, rows: seq<RowPtr>, maxLeaf: nat, maxInternal: nat)
    requires |rows| == maxLeaf + 1 && maxLeaf > 0
    ensures var t := Built(Under(k, rows), maxLeaf, maxInternal).0;
      Find(t, k) == Some(rows[maxLeaf - (maxLeaf + 1) / 2])
  {
    hide Compare, Built, Insert, LeafInserted, Repeated, Under, Find, SplitLeaf;
    OneLeaf(k, rows[..maxLeaf], maxLeaf, maxInternal);
    BuiltNext(k, rows, maxLeaf, maxInternal);
    NextEqual(k, rows, 0);
    SplitsInTwo(Leaf(1, Repeated(k, maxLeaf), Backwards(rows[..maxLeaf]), 0), k, rows[maxLeaf], maxLeaf, maxInternal,
                Leaf(1, Repeated(k, maxLeaf + 1), Backwards(rows), 0));
    AllSame(k, maxLeaf + 1);
    FindsRight(k, Repeated(k, maxLeaf + 1), Backwards(rows), maxLeaf);
  }

  lemma AllSame(k: Value, n: nat)
    ensures forall i | 0 <= i < n :: Repeated(k, n)[i] == k
  {
  }

  // The tree once the leaf has been split.
  function Halves(keys: seq<Value>, rows: seq<RowPtr>, mid: nat): Tree
    requires |keys| == |rows| && mid < |keys|
  {
    Node(3, [keys[mid]], [Leaf(1, keys[..mid], rows[..mid], 2), Leaf(2, keys[mid..], rows[mid..], 0)])
  }

  lemma SplitsInTwo(t: Tree, k: Value, r: RowPtr, maxLeaf: nat, maxInternal: nat, full: Tree)
    requires t.Leaf? && |t.keys| == |t.rows| == maxLeaf > 0 && t.id == 1 && t.next == 0
    requires full == LeafInserted(t, k, r) && full.Leaf? && |full.keys| == |full.rows| == maxLeaf + 1
    ensures Rooted(Insert(t, k, r, 1, maxLeaf, maxInternal)).0 == Halves(full.keys, full.rows, (maxLeaf + 1) / 2)
  {
    hide Compare, LeafPos;
  }

  lemma FindsRight(k: Value, keys: seq<Value>, rows: seq<RowPtr>, maxLeaf: nat)
    requires |keys| == |rows| == maxLeaf + 1 && maxLeaf > 0 && forall i | 0 <= i < |keys| :: keys[i] == k
    ensures var mid := (maxLeaf + 1) / 2; Find(Halves(keys, rows, mid), k) == Some(rows[mid])
  {
    hide Compare, FirstEqual;
    var mid := (maxLeaf + 1) / 2;
    GoesRight(k);
    assert LeafFor(Halves(keys, rows, mid), k) == Leaf(2, keys[mid..], rows[mid..], 0);
    FirstOfEqual(keys[mid..], rows[mid..], k);
  }

  lemma GoesRight(k: Value)
    ensures ChildPos([k], k) == 1
  {
    OrderLaws();
  }

  lemma FirstOfEqual(keys: seq<Value>, rows: seq<RowPtr>, k: Value)
    requires |keys| == |rows| && keys != [] && keys[0] == k
    ensures FirstEqual(keys, rows, k) == Some(rows[0])
  {
    OrderLaws();
  }
}
