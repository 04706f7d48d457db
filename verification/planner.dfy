/**
 The choice between a sequential scan with a filter and an index scan.
 */
module Planner {
  import opened Types
  import opened Conditions

  // What the planner looks at in an index.
  datatype IndexInfo = IndexInfo(id: Uuid, column: nat, isUnique: bool)

  datatype ScanChoice = SeqScan | IndexScan(index: Uuid) | Refused

  function Selectivity(op: Operator, isUnique: bool): real {
    match op
    case Eq => if isUnique then 0.1 else 1.0
    case Lt => 0.3
    case Lte => 0.3
    case Gr => 0.3
    case Gre => 0.3
    case _ => 1.0
  }

  predicate IsNullLiteral(o: Operand) {
    o.Literal? && o.value.Null?
  }

  predicate IsNullPredicate(c: Condition) {
    || c.op.Is?
    || ((c.op.Eq? || c.op.Neq?) && (IsNullLiteral(c.left) || IsNullLiteral(c.right)))
  }

  // log2 is any function without negative values on tables that have rows.
  function IndexCost(total: nat, live: nat, idx: IndexInfo, op: Operator, log2: nat -> real): real
    requires live <= total
  {
    if live == 0 then 0.0
    else
      var ratio := live as real / total as real;
      log2(total) + live as real * Selectivity(op, idx.isUnique) / ratio
  }

  ghost predicate Logarithm(log2: nat -> real) {
    forall n: nat :: n > 0 ==> log2(n) >= 0.0
  }

  // The ratio of live rows cancels: while rows are live, the cost does not depend on how many.
  lemma CostOfTotal(total: nat, live: nat, idx: IndexInfo, op: Operator, log2: nat -> real)
    requires 0 < live <= total
    ensures IndexCost(total, live, idx, op, log2) == log2(total) + Selectivity(op, idx.isUnique) * total as real
  {
    var n, k, s := total as real, live as real, Selectivity(op, idx.isUnique);
    assert k * s / (k / n) == s * n by {
      assert k / n > 0.0;
      assert s * n * (k / n) == k * s by {
        assert n * (k / n) == k;
      }
    }
  }

  // With a selectivity of 1 the index never costs less than reading every row version.
  lemma UselessIndex(total: nat, live: nat, idx: IndexInfo, op: Operator, log2: nat -> real)
    requires live <= total && Logarithm(log2) && live > 0 && Selectivity(op, idx.isUnique) == 1.0
    ensures IndexCost(total, live, idx, op, log2) >= total as real
  {
    CostOfTotal(total, live, idx, op, log2);
  }

  predicate OnColumn(idx: IndexInfo, c: Condition) {
    c.left.Column? && idx.column == c.left.index
  }

  // The i-th of the first n indexes is on the condition's column and costs less than reading every row
  // version, less than any such index before it and no more than any after it.
  ghost predicate Cheapest(indexes: seq<IndexInfo>, n: nat, i: nat, c: Condition, total: nat, live: nat, log2: nat -> real)
    requires live <= total && n <= |indexes|
  {
    && i < n && OnColumn(indexes[i], c)
    && IndexCost(total, live, indexes[i], c.op, log2) < total as real
    && (forall j | 0 <= j < n && OnColumn(indexes[j], c) ::
          && IndexCost(total, live, indexes[i], c.op, log2) <= IndexCost(total, live, indexes[j], c.op, log2)
          && (j < i ==> IndexCost(total, live, indexes[i], c.op, log2) < IndexCost(total, live, indexes[j], c.op, log2)))
  }

  ghost predicate NoneCheaper(indexes: seq<IndexInfo>, n: nat, c: Condition, total: nat, live: nat, log2: nat -> real)
    requires live <= total && n <= |indexes|
  {
    forall j | 0 <= j < n && OnColumn(indexes[j], c) :: IndexCost(total, live, indexes[j], c.op, log2) >= total as real
  }

  // The cheapest scan: an index is chosen exactly when one on the condition's own column costs less than
  // reading every row version, and then the first of the cheapest.
  method ChooseScanType(total: nat, live: nat, condition: Option<Condition>, indexes: seq<IndexInfo>, log2: nat -> real)
    returns (choice: ScanChoice)
    requires live <= total && Logarithm(log2)
    ensures condition == None ==> choice == SeqScan
    ensures condition.Some? && IsNullPredicate(condition.value) ==> choice == SeqScan
    ensures choice == Refused <==>
            condition.Some? && !IsNullPredicate(condition.value) && indexes != [] && !condition.value.left.Column?
    ensures choice == SeqScan && condition.Some? && !IsNullPredicate(condition.value) ==>
              NoneCheaper(indexes, |indexes|, condition.value, total, live, log2)
    ensures choice.IndexScan? ==>
              && condition.Some? && !IsNullPredicate(condition.value)
              && exists i: nat :: Cheapest(indexes, |indexes|, i, condition.value, total, live, log2) && indexes[i].id == choice.index
  {
    hide IndexCost;
    var bestCost := total as real;
    choice := SeqScan;
    if condition == None || IsNullPredicate(condition.value) {
      return;
    }
    var c := condition.value;
    ghost var best: nat := 0;
    for i := 0 to |indexes|
      invariant choice != Refused && (i > 0 ==> c.left.Column?)
      invariant choice == SeqScan ==> bestCost == total as real && NoneCheaper(indexes, i, c, total, live, log2)
      invariant choice.IndexScan? ==> Cheapest(indexes, i, best, c, total, live, log2) && choice.index == indexes[best].id
      invariant choice.IndexScan? ==> bestCost == IndexCost(total, live, indexes[best], c.op, log2)
    {
      var idx := indexes[i];
      if !c.left.Column? {
        return Refused;
      }
      if idx.column == c.left.index {
        var cost := IndexCost(total, live, idx, c.op, log2);
        if cost < bestCost {
          bestCost := cost;
          choice := IndexScan(idx.id);
          best := i;
        }
      }
    }
  }

  // What is cheap enough to be chosen: while rows are live, a range, or equality on a unique index, whose
  // descent costs less than the rows it saves.
  lemma CheapIndex(total: nat, live: nat, idx: IndexInfo, op: Operator, log2: nat -> real)
    requires live <= total && Logarithm(log2)
    ensures IndexCost(total, live, idx, op, log2) < total as real <==>
              if live == 0 then total > 0
              else if op.Eq? && idx.isUnique then log2(total) < 0.9 * total as real
              else (op.Lt? || op.Lte? || op.Gr? || op.Gre?) && log2(total) < 0.7 * total as real
  {
    if live > 0 {
      CostOfTotal(total, live, idx, op, log2);
    }
  }
}
