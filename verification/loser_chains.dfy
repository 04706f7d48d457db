/**
 A chain of two changes of one row without a commit, undone in either order: why only a delete is undone
 without a trace, and why recovery is not claimed right when the two belong to different transactions.
 */
module LoserChains {
  import opened Types
  import opened PageRows
  import opened PageLedger

  // The first change writes a row version, the second takes that version away again.
  ghost predicate Chain(rows: seq<Row>, first: Change, second: Change) {
    && Distinct(rows)
    && (first.InsertRow? || first.UpdateRow?) && !Has(rows, first.after.id) && !Obsolete(first.after)
    && (first.UpdateRow? ==> && Has(rows, first.before.id) && !Obsolete(Get(rows, first.before.id))
                             && Get(rows, first.before.id).tokens == first.before.tokens)
    && (second.UpdateRow? || second.DeleteRow?)
    && second.before.id == first.after.id && second.before.tokens == first.after.tokens
    && (second.UpdateRow? ==> !Has(rows, second.after.id) && second.after.id != first.after.id && !Obsolete(second.after))
  }

  function BothUndone(rows: seq<Row>, first: Change, second: Change): seq<Row> {
    Undo(Undo(Redo(Redo(rows, first), second), second), first)
  }

  // Undoing both, last one first, restores what the page shows exactly when the second change was a
  // delete: undoing an update revives the wrong row version, and a row too many is left.
  lemma BothUndoneShows(rows: seq<Row>, first: Change, second: Change)
    requires Chain(rows, first, second)
    ensures (forall t :: LiveCount(BothUndone(rows, first, second), t) == LiveCount(rows, t)) <==> second.DeleteRow?
  {
    hide IndexOf, LiveCount, Redo, Undo;
    var r1 := Redo(rows, first);
    var r2 := Redo(r1, second);
    RedoEffect(rows, first);
    RedoEffect(r1, second);
    var r3 := Undo(r2, second);
    UndoEffect(r2, second);
    if second.DeleteRow? {
      UndoEffect(r3, first);
    } else {
      UpdateLeavesOne(rows, r1, r3, first);
    }
  }

  lemma UpdateLeavesOne(rows: seq<Row>, r1: seq<Row>, r3: seq<Row>, first: Change)
    requires Redone(rows, r1, first) && (first.InsertRow? || first.UpdateRow?)
    requires Distinct(r3) && Has(r3, first.after.id) && Obsolete(Get(r3, first.after.id))
    requires Get(r3, first.after.id).tokens == first.after.tokens
    requires forall t :: LiveCount(r3, t) == LiveCount(r1, t)
    ensures LiveCount(Undo(r3, first), first.after.tokens) == LiveCount(rows, first.after.tokens) + 1
  {
    hide IndexOf, LiveCount, Undo;
    UndoEffect(r3, first);
    var t := first.after.tokens;
    assert LiveCount(Undo(r3, first), t) == LiveCount(r3, t) - Delta(first, t) + 1;
  }

  // The other order, which recovery may take when the two changes belong to different transactions.
  function UndoneInOrder(rows: seq<Row>, first: Change, second: Change): seq<Row> {
    Undo(Undo(Redo(Redo(rows, first), second), first), second)
  }

  // Undoing the first change first restores what the page shows exactly for a delete of an updated row:
  // hiding an inserted row again has no effect, and undoing the second change then revives it.
  lemma UndoneInOrderShows(rows: seq<Row>, first: Change, second: Change)
    requires Chain(rows, first, second)
    ensures (forall t :: LiveCount(UndoneInOrder(rows, first, second), t) == LiveCount(rows, t)) <==>
            first.UpdateRow? && second.DeleteRow?
  {
    hide IndexOf, LiveCount, Redo, Undo;
    var r1 := Redo(rows, first);
    var r2 := Redo(r1, second);
    RedoEffect(rows, first);
    RedoEffect(r1, second);
    var r3 := Undo(r2, first);
    UndoEffect(r2, first);
    if first.UpdateRow? && second.DeleteRow? {
      UndoShown(r3, second);
    } else {
      UndoEffect(r3, second);
      var t := first.after.tokens;
      assert LiveCount(Undo(r3, second), t) == LiveCount(rows, t) + 1;
    }
  }

  lemma UndoShown(rows: seq<Row>, c: Change)
    requires Distinct(rows) && c.DeleteRow? && Has(rows, c.before.id) && !Obsolete(Get(rows, c.before.id))
    ensures forall t :: LiveCount(Undo(rows, c), t) == LiveCount(rows, t)
  {
    hide IndexOf, LiveCount;
    EditPresent(rows, c.before.id, Show);
  }
}
