/**
 One page between two crashes: which changes the log holds for it, which of them belong to
 committed transactions, and what rows the page had when the last recovery finished. The rows
 found on disk carry the effects of some of the changes, and recovery moves that set to exactly
 the committed ones.
 */
module PageLedger {
  import opened Types
  import opened PageRows

  // ops: the page's data changes by position in the log, all below size.
  datatype Ledger = Ledger(ops: map<nat, Change>, winners: set<nat>, base: seq<Row>, size: nat)

  // The id of the row version a change adds, or makes obsolete; -1 when there is none.
  function NewId(c: Change): int {
    if c.InsertRow? || c.UpdateRow? then c.after.id else -1
  }

  function OldId(c: Change): int {
    if c.UpdateRow? || c.DeleteRow? then c.before.id else -1
  }

  // What a change adds to the number of live rows carrying the tokens t.
  function Delta(c: Change, t: seq<DataToken>): int {
    match c
    case InsertRow(_, _, after) => if after.tokens == t then 1 else 0
    case UpdateRow(_, _, before, after) =>
      (if after.tokens == t then 1 else 0) - (if before.tokens == t then 1 else 0)
    case DeleteRow(_, _, before) => -(if before.tokens == t then 1 else 0)
    case _ => 0
  }

  function Total(ops: map<nat, Change>, s: set<nat>, n: nat, t: seq<DataToken>): int {
    if n == 0 then 0
    else Total(ops, s, n - 1, t) + if n - 1 in s && n - 1 in ops then Delta(ops[n - 1], t) else 0
  }

  ghost predicate WellFormed(l: Ledger) {
    && (forall k | k in l.ops :: k < l.size && l.ops[k].IsData())
    && l.winners <= l.ops.Keys
    && Distinct(l.base)
    && (forall k | k in l.ops && NewId(l.ops[k]) >= 0 :: !Obsolete(l.ops[k].after))
  }

  // Row ids are created once and made obsolete once, and only when live, with the tokens the
  // change recorded as its before image.
  ghost predicate History(l: Ledger) {
    && WellFormed(l)
    && (forall k | k in l.ops && NewId(l.ops[k]) >= 0 :: !Has(l.base, NewId(l.ops[k])))
    && (forall j, k | j in l.ops && k in l.ops && j != k && NewId(l.ops[j]) >= 0 :: NewId(l.ops[j]) != NewId(l.ops[k]))
    && (forall j, k | j in l.ops && k in l.ops && j != k && OldId(l.ops[j]) >= 0 :: OldId(l.ops[j]) != OldId(l.ops[k]))
    && (forall k | k in l.ops && OldId(l.ops[k]) >= 0 :: Known(l, k))
  }

  lemma OpsWellFormed(l: Ledger)
    requires History(l)
    ensures WellFormed(l)
  {
  }

  // The row version that change k makes obsolete: live in the base rows, or written by an
  // earlier change.
  ghost predicate Known(l: Ledger, k: nat)
    requires k in l.ops && OldId(l.ops[k]) >= 0
  {
    || FromBase(l, k)
    || exists j :: WrittenBy(l, j, k)
  }

  ghost predicate FromBase(l: Ledger, k: nat)
    requires k in l.ops && OldId(l.ops[k]) >= 0
  {
    && Has(l.base, OldId(l.ops[k]))
    && !Obsolete(Get(l.base, OldId(l.ops[k])))
    && Get(l.base, OldId(l.ops[k])).tokens == l.ops[k].before.tokens
  }

  ghost predicate WrittenBy(l: Ledger, j: nat, k: nat)
    requires k in l.ops && OldId(l.ops[k]) >= 0
  {
    && j in l.ops && j < k
    && NewId(l.ops[j]) == OldId(l.ops[k])
    && l.ops[j].after.tokens == l.ops[k].before.tokens
  }

  // No committed change touches a row version written by a transaction that does not commit.
  ghost predicate LosersUntouched(l: Ledger) {
    forall j, k | k in l.ops && OldId(l.ops[k]) >= 0 && WrittenBy(l, j, k) && j !in l.winners :: k !in l.winners
  }

  // Some change in E makes the row version obsolete.
  ghost predicate TakenAway(l: Ledger, E: set<nat>, id: int)
    requires E <= l.ops.Keys
  {
    exists k :: k in E && OldId(l.ops[k]) == id
  }

  // An update in D, undone since, made the row version obsolete and left it so: undoing an update
  // revives the version that the update wrote.
  ghost predicate Stuck(ops: map<nat, Change>, D: set<nat>, id: int) {
    exists k :: k in D && k in ops && ops[k].UpdateRow? && OldId(ops[k]) == id
  }

  // What undoing leaves over: the versions that changes in D wrote and that stayed obsolete when they were
  // undone. Their tokens are shown by the versions that were revived in their place.
  ghost function Left(ops: map<nat, Change>, D: set<nat>, n: nat): seq<Row> {
    if n == 0 then []
    else
      var before := Left(ops, D, n - 1);
      if n - 1 in D && n - 1 in ops && NewId(ops[n - 1]) >= 0 && Stuck(ops, D, NewId(ops[n - 1]))
      then before + [ops[n - 1].after] else before
  }

  // rows are the base rows with the effects of exactly the changes in E, where the changes in N have been
  // undone (or never took place) for good, those in D after they had been in effect.
  ghost predicate Holds(l: Ledger, rows: seq<Row>, E: set<nat>, N: set<nat>, D: set<nat>) {
    && Distinct(rows)
    && E <= l.ops.Keys && N <= l.ops.Keys - l.winners && E !! N && D <= N
    && LaterUndone(l, N)
    && BaseKept(l, rows)
    && OnlyKnown(l, rows, E + N)
    && Applied(l, rows, E, D)
    && Pending(l, rows, E + N)
    && Counts(l, rows, E, D)
  }

  ghost predicate Counts(l: Ledger, rows: seq<Row>, E: set<nat>, D: set<nat>) {
    forall t :: LiveCount(rows, t) == LiveCount(l.base, t) + Total(l.ops, E, l.size, t) + LiveCount(Left(l.ops, D, l.size), t)
  }

  // What touches a row version is undone before its writer is.
  ghost predicate LaterUndone(l: Ledger, N: set<nat>) {
    forall j, k | k in l.ops && OldId(l.ops[k]) >= 0 && WrittenBy(l, j, k) && j in N :: k in N
  }

  ghost predicate BaseKept(l: Ledger, rows: seq<Row>) {
    forall id | Has(l.base, id) ::
      && Has(rows, id)
      && Get(rows, id).tokens == Get(l.base, id).tokens
      && (Obsolete(Get(l.base, id)) ==> Obsolete(Get(rows, id)))
  }

  ghost predicate OnlyKnown(l: Ledger, rows: seq<Row>, S: set<nat>)
    requires S <= l.ops.Keys
  {
    forall id | Has(rows, id) && !Has(l.base, id) :: exists k :: k in S && NewId(l.ops[k]) == id
  }

  ghost predicate Applied(l: Ledger, rows: seq<Row>, E: set<nat>, D: set<nat>)
    requires E <= l.ops.Keys
  {
    && (forall k | k in E && NewId(l.ops[k]) >= 0 :: Written(l, rows, E, D, k))
    && (forall k | k in E && OldId(l.ops[k]) >= 0 :: Taken(l, rows, k))
  }

  // The version that k wrote; a loser's is live unless it has been taken away for the time being, or for good.
  ghost predicate Written(l: Ledger, rows: seq<Row>, E: set<nat>, D: set<nat>, k: nat)
    requires E <= l.ops.Keys && k in l.ops && NewId(l.ops[k]) >= 0
  {
    var id := NewId(l.ops[k]);
    && Has(rows, id) && Get(rows, id).tokens == l.ops[k].after.tokens
    && (k !in l.winners ==> && (Stuck(l.ops, D, id) ==> Obsolete(Get(rows, id)))
                            && (!TakenAway(l, E, id) && !Stuck(l.ops, D, id) ==> !Obsolete(Get(rows, id))))
  }

  ghost predicate Taken(l: Ledger, rows: seq<Row>, k: nat)
    requires k in l.ops && OldId(l.ops[k]) >= 0
  {
    && Has(rows, OldId(l.ops[k])) && Get(rows, OldId(l.ops[k])).tokens == l.ops[k].before.tokens
    && Obsolete(Get(rows, OldId(l.ops[k])))
  }

  ghost predicate Pending(l: Ledger, rows: seq<Row>, S: set<nat>)
    requires S <= l.ops.Keys
  {
    && (forall k | k in l.ops.Keys - S && NewId(l.ops[k]) >= 0 :: !Has(rows, NewId(l.ops[k])))
    && (forall k | k in l.ops.Keys - S && OldId(l.ops[k]) >= 0 && Has(rows, OldId(l.ops[k])) ::
          && !Obsolete(Get(rows, OldId(l.ops[k])))
          && Get(rows, OldId(l.ops[k])).tokens == l.ops[k].before.tokens)
  }

  lemma {:induction false} TotalAdd(ops: map<nat, Change>, s: set<nat>, k: nat, n: nat, t: seq<DataToken>)
    requires k in ops && k !in s
    ensures Total(ops, s + {k}, n, t) == Total(ops, s, n, t) + if k < n then Delta(ops[k], t) else 0
  {
    if n > 0 {
      TotalAdd(ops, s, k, n - 1, t);
    }
  }

  lemma {:induction false} TotalCongruent(ops: map<nat, Change>, s: set<nat>, ops': map<nat, Change>, s': set<nat>, n: nat, t: seq<DataToken>)
    requires forall i | i < n ::
               (i in s && i in ops <==> i in s' && i in ops') && (i in s && i in ops ==> ops[i] == ops'[i])
    ensures Total(ops, s, n, t) == Total(ops', s', n, t)
  {
    if n > 0 {
      TotalCongruent(ops, s, ops', s', n - 1, t);
    }
  }

  // ---- One change takes effect ----

  ghost predicate Redone(rows: seq<Row>, rows': seq<Row>, c: Change) {
    && Distinct(rows')
    && (forall id: nat :: Has(rows', id) <==> Has(rows, id) || id == NewId(c))
    && (forall id: nat | Has(rows, id) && id != NewId(c) ::
          Get(rows', id) == if id == OldId(c) then Edited(Get(rows, id), Hide) else Get(rows, id))
    && (NewId(c) >= 0 ==> Has(rows', NewId(c)) && Get(rows', NewId(c)) == c.after)
    && (forall t :: LiveCount(rows', t) == LiveCount(rows, t) + Delta(c, t))
  }

  lemma RedoEffect(rows: seq<Row>, c: Change)
    requires Distinct(rows) && c.IsData()
    requires NewId(c) >= 0 ==> !Has(rows, NewId(c)) && !Obsolete(c.after)
    requires OldId(c) >= 0 ==> Has(rows, OldId(c)) && !Obsolete(Get(rows, OldId(c)))
                               && Get(rows, OldId(c)).tokens == c.before.tokens
    ensures Redone(rows, Redo(rows, c), c)
  {
    hide IndexOf, LiveCount, EditFirst;
    match c
    case InsertRow(_, _, after) =>
      AppendNew(rows, after);
    case UpdateRow(_, _, before, after) =>
      RedoUpdateEffect(rows, c);
    case DeleteRow(_, _, before) =>
      EditPresent(rows, before.id, Hide);
  }

  lemma RedoUpdateEffect(rows: seq<Row>, c: Change)
    requires Distinct(rows) && c.UpdateRow? && !Has(rows, c.after.id) && !Obsolete(c.after)
    requires Has(rows, c.before.id) && !Obsolete(Get(rows, c.before.id)) && Get(rows, c.before.id).tokens == c.before.tokens
    ensures Redone(rows, Redo(rows, c), c)
  {
    hide IndexOf, LiveCount, EditFirst;
    EditPresent(rows, c.before.id, Hide);
    AppendNew(EditFirst(rows, c.before.id, Hide), c.after);
  }

  // A change not yet in effect whose target is on the page takes effect, and nothing else moves.
  lemma RedoHolds(l: Ledger, rows: seq<Row>, E: set<nat>, N: set<nat>, D: set<nat>, k: nat)
    requires History(l) && Holds(l, rows, E, N, D)
    requires k in l.ops && k !in E && k !in N && (k in l.winners || D == {})
    requires OldId(l.ops[k]) >= 0 ==> Has(rows, OldId(l.ops[k]))
    ensures Holds(l, Redo(rows, l.ops[k]), E + {k}, N, D)
  {
    hide BaseKept, OnlyKnown, Applied, Has, Get, Redo, Redone, Distinct, History, Counts, LaterUndone;
    var rows' := Redo(rows, l.ops[k]);
    OpsWellFormed(l);
    Redoable(l, rows, E + N, k);
    RedoEffect(rows, l.ops[k]);
    RedoKnown(l, rows, rows', E + N, k);
    RedoApplied(l, rows, rows', E, D, k);
    RedoPending(l, rows, rows', E + N, k);
    assert E + {k} + N == E + N + {k};
    RedoCounts(l, rows, rows', E, D, k);
  }

  lemma Redoable(l: Ledger, rows: seq<Row>, S: set<nat>, k: nat)
    requires WellFormed(l) && S <= l.ops.Keys && k in l.ops && k !in S && Pending(l, rows, S)
    requires OldId(l.ops[k]) >= 0 ==> Has(rows, OldId(l.ops[k]))
    ensures var c := l.ops[k];
      && (NewId(c) >= 0 ==> !Has(rows, NewId(c)) && !Obsolete(c.after))
      && (OldId(c) >= 0 ==> Has(rows, OldId(c)) && !Obsolete(Get(rows, OldId(c))) && Get(rows, OldId(c)).tokens == c.before.tokens)
  {
    hide Has, Get;
  }

  lemma RedoCounts(l: Ledger, rows: seq<Row>, rows': seq<Row>, E: set<nat>, D: set<nat>, k: nat)
    requires WellFormed(l) && k in l.ops && k !in E && Redone(rows, rows', l.ops[k])
    requires Counts(l, rows, E, D)
    ensures Distinct(rows') && Counts(l, rows', E + {k}, D)
  {
    hide Has, Get, LiveCount, Delta, Left;
    forall t ensures LiveCount(rows', t) == LiveCount(l.base, t) + Total(l.ops, E + {k}, l.size, t) + LiveCount(Left(l.ops, D, l.size), t) {
      TotalAdd(l.ops, E, k, l.size, t);
    }
  }

  lemma RedoKnown(l: Ledger, rows: seq<Row>, rows': seq<Row>, S: set<nat>, k: nat)
    requires History(l) && S <= l.ops.Keys && k in l.ops && Redone(rows, rows', l.ops[k])
    requires BaseKept(l, rows) && OnlyKnown(l, rows, S)
    ensures BaseKept(l, rows') && OnlyKnown(l, rows', S + {k})
  {
    forall id | Has(rows', id) && !Has(l.base, id) ensures exists j :: j in S + {k} && NewId(l.ops[j]) == id {
      if id == NewId(l.ops[k]) {
        assert k in S + {k};
      } else {
        var j :| j in S && NewId(l.ops[j]) == id;
        assert j in S + {k};
      }
    }
  }

  lemma RedoApplied(l: Ledger, rows: seq<Row>, rows': seq<Row>, E: set<nat>, D: set<nat>, k: nat)
    requires History(l) && E <= l.ops.Keys && k in l.ops && k !in E && (k in l.winners || D == {})
    requires Redone(rows, rows', l.ops[k]) && Applied(l, rows, E, D)
    requires NewId(l.ops[k]) >= 0 ==> !Has(rows, NewId(l.ops[k]))
    requires OldId(l.ops[k]) >= 0 ==> Has(rows, OldId(l.ops[k])) && Get(rows, OldId(l.ops[k])).tokens == l.ops[k].before.tokens
    ensures Applied(l, rows', E + {k}, D)
  {
    hide Has, Get, LiveCount, Redone, History, Written, Taken;
    forall j | j in E + {k} && NewId(l.ops[j]) >= 0 ensures Written(l, rows', E + {k}, D, j) {
      RedoneNew(l, rows, rows', E, D, k, j);
    }
    forall j | j in E + {k} && OldId(l.ops[j]) >= 0 ensures Taken(l, rows', j) {
      RedoneOld(l, rows, rows', k, j);
    }
  }

  lemma RedoneNew(l: Ledger, rows: seq<Row>, rows': seq<Row>, E: set<nat>, D: set<nat>, k: nat, j: nat)
    requires History(l) && E <= l.ops.Keys && k in l.ops && j in l.ops && Redone(rows, rows', l.ops[k]) && NewId(l.ops[j]) >= 0
    requires k in l.winners || D == {}
    requires j != k ==> Written(l, rows, E, D, j)
    ensures Written(l, rows', E + {k}, D, j)
  {
    hide Has, Get, LiveCount, TakenAway, Stuck;
    TakenMore(l, E, k, NewId(l.ops[j]));
    if D == {} {
      NothingStuck(l.ops, NewId(l.ops[j]));
    }
  }

  lemma NothingStuck(ops: map<nat, Change>, id: int)
    ensures !Stuck(ops, {}, id)
  {
  }

  lemma RedoneOld(l: Ledger, rows: seq<Row>, rows': seq<Row>, k: nat, j: nat)
    requires History(l) && k in l.ops && j in l.ops && Redone(rows, rows', l.ops[k]) && OldId(l.ops[j]) >= 0
    requires NewId(l.ops[k]) >= 0 ==> !Has(rows, NewId(l.ops[k]))
    requires if j == k then Has(rows, OldId(l.ops[j])) && Get(rows, OldId(l.ops[j])).tokens == l.ops[j].before.tokens
             else Taken(l, rows, j)
    ensures Taken(l, rows', j)
  {
    hide Has, Get, LiveCount;
  }

  lemma TakenMore(l: Ledger, E: set<nat>, k: nat, id: int)
    requires E <= l.ops.Keys && k in l.ops
    ensures TakenAway(l, E + {k}, id) <==> TakenAway(l, E, id) || OldId(l.ops[k]) == id
  {
    if TakenAway(l, E, id) {
      var j :| j in E && OldId(l.ops[j]) == id;
      assert j in E + {k};
    }
    if OldId(l.ops[k]) == id {
      assert k in E + {k};
    }
  }

  lemma RedoPending(l: Ledger, rows: seq<Row>, rows': seq<Row>, S: set<nat>, k: nat)
    requires History(l) && S <= l.ops.Keys && k in l.ops && k !in S
    requires Redone(rows, rows', l.ops[k]) && Pending(l, rows, S)
    ensures Pending(l, rows', S + {k})
  {
    forall j | j in l.ops.Keys - (S + {k}) && OldId(l.ops[j]) >= 0 && Has(rows', OldId(l.ops[j]))
      ensures !Obsolete(Get(rows', OldId(l.ops[j]))) && Get(rows', OldId(l.ops[j])).tokens == l.ops[j].before.tokens
    {
      if NewId(l.ops[k]) == OldId(l.ops[j]) {
        assert Known(l, j);
      }
    }
  }

  // ---- One change is undone ----

  // The id that undoing a change edits.
  function UndoId(c: Change): nat
    requires c.IsData()
  {
    if c.DeleteRow? then c.before.id else c.after.id
  }

  function UndoEdit(c: Change): Edit
    requires c.IsData()
  {
    match c
    case InsertRow(_, _, _) => Hide
    case UpdateRow(_, _, before, _) => Restore(before.tokens)
    case DeleteRow(_, _, _) => Show
  }

  // Undoing a write whose version is obsolete shows that version's tokens once more than it should.
  ghost predicate Reverted(rows: seq<Row>, rows': seq<Row>, c: Change)
    requires c.IsData()
  {
    && Distinct(rows') && Has(rows, UndoId(c))
    && (forall id: nat :: Has(rows', id) <==> Has(rows, id))
    && (forall id: nat | Has(rows, id) ::
          Get(rows', id) == if id == UndoId(c) then Edited(Get(rows, id), UndoEdit(c)) else Get(rows, id))
    && (forall t :: LiveCount(rows', t) == LiveCount(rows, t) - Delta(c, t) + LeftBy(rows, c, t))
  }

  function LeftBy(rows: seq<Row>, c: Change, t: seq<DataToken>): nat
    requires c.IsData() && Has(rows, UndoId(c))
  {
    if !c.DeleteRow? && Obsolete(Get(rows, UndoId(c))) && c.after.tokens == t then 1 else 0
  }

  lemma UndoEffect(rows: seq<Row>, c: Change)
    requires Distinct(rows) && c.IsData() && Has(rows, UndoId(c))
    requires c.DeleteRow? ==> Obsolete(Get(rows, UndoId(c)))
    requires Get(rows, UndoId(c)).tokens == if c.DeleteRow? then c.before.tokens else c.after.tokens
    ensures Reverted(rows, Undo(rows, c), c)
  {
    hide IndexOf, LiveCount;
    EditPresent(rows, UndoId(c), UndoEdit(c));
  }

  // Undoing a change that never reached the page leaves it alone.
  lemma UndoAbsent(rows: seq<Row>, c: Change)
    requires Distinct(rows) && c.IsData()
    requires Has(rows, UndoId(c)) ==> c.DeleteRow? && !Obsolete(Get(rows, UndoId(c)))
    ensures Undo(rows, c) == rows
  {
    hide LiveCount;
  }

  // The change of a loser is undone; whether or not it had reached the page, it is out for good. What took
  // away the version it wrote must have been undone before.
  lemma UndoHolds(l: Ledger, rows: seq<Row>, E: set<nat>, N: set<nat>, D: set<nat>, k: nat)
    requires History(l) && Holds(l, rows, E, N, D)
    requires k in l.ops && k !in l.winners && k !in N
    requires forall m | m in l.ops && OldId(l.ops[m]) >= 0 && WrittenBy(l, k, m) :: m in N
    ensures Holds(l, Undo(rows, l.ops[k]), E - {k}, N + {k}, if k in E then D + {k} else D)
  {
    hide Has, Get, BaseKept, OnlyKnown, Applied, Pending, History, Undo, Reverted, Counts, LaterUndone, WrittenBy;
    OpsWellFormed(l);
    var rows' := Undo(rows, l.ops[k]);
    UndoneLater(l, N, k);
    if k in E {
      Undoable(l, rows, E, N, D, k);
      UndoEffect(rows, l.ops[k]);
      UndoKept(l, rows, rows', E, N, k);
      assert (E - {k}) + (N + {k}) == E + N;
      UndoPending(l, rows, rows', E, N, k);
      UndoApplied(l, rows, rows', E, N, D, k);
      WriterNotUndone(l, N, D, k);
      UndoCounts(l, rows, rows', E, D, k);
    } else {
      SkippedUndo(l, rows, E + N, k);
      UndoAbsent(rows, l.ops[k]);
      assert E - {k} == E;
      UndoSkipped(l, rows, E, N, k);
    }
  }

  lemma UndoneLater(l: Ledger, N: set<nat>, k: nat)
    requires LaterUndone(l, N) && forall m | m in l.ops && OldId(l.ops[m]) >= 0 && WrittenBy(l, k, m) :: m in N
    ensures LaterUndone(l, N + {k})
  {
    hide WrittenBy;
  }

  // When an update is undone, the writer of what it replaced has not been.
  lemma WriterNotUndone(l: Ledger, N: set<nat>, D: set<nat>, k: nat)
    requires History(l) && LaterUndone(l, N) && D <= N <= l.ops.Keys && k in l.ops && k !in N
    ensures forall j | j in D && NewId(l.ops[j]) >= 0 :: NewId(l.ops[j]) != OldId(l.ops[k])
  {
    hide LaterUndone, History;
    forall j | j in D && NewId(l.ops[j]) >= 0 && NewId(l.ops[j]) == OldId(l.ops[k]) ensures false {
      TakesFromLoser(l, j, k);
      LaterIn(l, N, j, k);
    }
  }

  lemma LaterIn(l: Ledger, N: set<nat>, j: nat, k: nat)
    requires LaterUndone(l, N) && k in l.ops && OldId(l.ops[k]) >= 0 && WrittenBy(l, j, k) && j in N
    ensures k in N
  {
  }

  lemma Undoable(l: Ledger, rows: seq<Row>, E: set<nat>, N: set<nat>, D: set<nat>, k: nat)
    requires History(l) && E <= l.ops.Keys && E !! N && Applied(l, rows, E, D) && k in E && k !in l.winners
    requires forall m | m in l.ops && OldId(l.ops[m]) >= 0 && WrittenBy(l, k, m) :: m in N
    ensures var c := l.ops[k];
      && Has(rows, UndoId(c)) && (c.DeleteRow? ==> Obsolete(Get(rows, UndoId(c))))
      && Get(rows, UndoId(c)).tokens == (if c.DeleteRow? then c.before.tokens else c.after.tokens)
      && (!c.DeleteRow? ==> (Obsolete(Get(rows, UndoId(c))) <==> Stuck(l.ops, D, UndoId(c))))
  {
    hide IndexOf, LiveCount, Stuck;
    if NewId(l.ops[k]) >= 0 {
      assert Written(l, rows, E, D, k);
      if TakenAway(l, E, NewId(l.ops[k])) {
        var m :| m in E && OldId(l.ops[m]) == NewId(l.ops[k]);
        TakesFromLoser(l, k, m);
      }
    } else {
      assert Taken(l, rows, k);
    }
  }

  // A change that takes away what k wrote, in terms of the history.
  lemma TakesFromLoser(l: Ledger, k: nat, m: nat)
    requires History(l) && k in l.ops && m in l.ops && OldId(l.ops[m]) == NewId(l.ops[k]) && NewId(l.ops[k]) >= 0
    ensures WrittenBy(l, k, m)
  {
    hide IndexOf, LiveCount;
    assert Known(l, m);
  }

  lemma UndoCounts(l: Ledger, rows: seq<Row>, rows': seq<Row>, E: set<nat>, D: set<nat>, k: nat)
    requires History(l) && k in l.ops && k in E && k !in D && Reverted(rows, rows', l.ops[k]) && Counts(l, rows, E, D)
    requires !l.ops[k].DeleteRow? ==> (Obsolete(Get(rows, UndoId(l.ops[k]))) <==> Stuck(l.ops, D, UndoId(l.ops[k])))
    requires forall j | j in D && j in l.ops && NewId(l.ops[j]) >= 0 :: NewId(l.ops[j]) != OldId(l.ops[k])
    ensures Distinct(rows') && Counts(l, rows', E - {k}, D + {k})
  {
    hide Has, Get, LiveCount, Delta, Left, Stuck, History;
    forall t
      ensures LiveCount(rows', t) == LiveCount(l.base, t) + Total(l.ops, E - {k}, l.size, t) + LiveCount(Left(l.ops, D + {k}, l.size), t)
    {
      TotalAdd(l.ops, E - {k}, k, l.size, t);
      assert E - {k} + {k} == E;
      LeftAdd(l, D, k, l.size, t);
      InSize(l, k);
    }
  }

  lemma InSize(l: Ledger, k: nat)
    requires History(l) && k in l.ops
    ensures k < l.size && l.ops[k].IsData()
  {
  }

  lemma LiveCountOne(rows: seq<Row>, r: Row, t: seq<DataToken>)
    ensures LiveCount(rows + [r], t) == LiveCount(rows, t) + Shows(r, t)
  {
    assert (rows + [r])[..|rows|] == rows;
  }

  // One more undone change leaves its version over exactly when that is stuck already.
  lemma {:induction false} LeftAdd(l: Ledger, D: set<nat>, k: nat, n: nat, t: seq<DataToken>)
    requires History(l) && k in l.ops && k !in D
    requires forall j | j in D && j in l.ops && NewId(l.ops[j]) >= 0 :: NewId(l.ops[j]) != OldId(l.ops[k])
    ensures LiveCount(Left(l.ops, D + {k}, n), t) == LiveCount(Left(l.ops, D, n), t)
              + if k < n && NewId(l.ops[k]) >= 0 && Stuck(l.ops, D, NewId(l.ops[k])) && l.ops[k].after.tokens == t then 1 else 0
  {
    hide LiveCount, Stuck, History;
    if n > 0 {
      LeftAdd(l, D, k, n - 1, t);
      var i := n - 1;
      if i in D + {k} && i in l.ops && NewId(l.ops[i]) >= 0 {
        StuckMore(l, D, k, i);
        AfterLive(l, i);
        LiveCountOne(Left(l.ops, D + {k}, i), l.ops[i].after, t);
        LiveCountOne(Left(l.ops, D, i), l.ops[i].after, t);
      }
    }
  }

  lemma AfterLive(l: Ledger, i: nat)
    requires History(l) && i in l.ops && NewId(l.ops[i]) >= 0
    ensures !Obsolete(l.ops[i].after)
  {
  }

  lemma StuckMore(l: Ledger, D: set<nat>, k: nat, i: nat)
    requires History(l) && k in l.ops && i in l.ops && NewId(l.ops[i]) >= 0
    requires i == k || NewId(l.ops[i]) != OldId(l.ops[k])
    ensures Stuck(l.ops, D + {k}, NewId(l.ops[i])) == Stuck(l.ops, D, NewId(l.ops[i]))
  {
    hide IndexOf;
    if OldId(l.ops[k]) == NewId(l.ops[i]) {
      TakesFromLoser(l, k, k);
    }
    if Stuck(l.ops, D, NewId(l.ops[i])) {
      var m :| m in D && m in l.ops && l.ops[m].UpdateRow? && OldId(l.ops[m]) == NewId(l.ops[i]);
      assert m in D + {k};
    }
  }

  lemma SkippedUndo(l: Ledger, rows: seq<Row>, S: set<nat>, k: nat)
    requires WellFormed(l) && S <= l.ops.Keys && k in l.ops && k !in S && Pending(l, rows, S)
    ensures Has(rows, UndoId(l.ops[k])) ==> l.ops[k].DeleteRow? && !Obsolete(Get(rows, UndoId(l.ops[k])))
  {
    hide Has, Get;
  }

  lemma UndoSkipped(l: Ledger, rows: seq<Row>, E: set<nat>, N: set<nat>, k: nat)
    requires E <= l.ops.Keys && N <= l.ops.Keys && k in l.ops
    requires OnlyKnown(l, rows, E + N) && Pending(l, rows, E + N)
    ensures OnlyKnown(l, rows, E + (N + {k})) && Pending(l, rows, E + (N + {k}))
  {
    hide IndexOf, LiveCount;
    forall id | Has(rows, id) && !Has(l.base, id) ensures exists j :: j in E + (N + {k}) && NewId(l.ops[j]) == id {
      var j :| j in E + N && NewId(l.ops[j]) == id;
      assert j in E + (N + {k});
    }
  }

  lemma UndoKept(l: Ledger, rows: seq<Row>, rows': seq<Row>, E: set<nat>, N: set<nat>, k: nat)
    requires History(l) && E <= l.ops.Keys && N <= l.ops.Keys && k in l.ops && Reverted(rows, rows', l.ops[k])
    requires BaseKept(l, rows) && OnlyKnown(l, rows, E + N)
    ensures BaseKept(l, rows') && OnlyKnown(l, rows', E + N)
  {
    hide IndexOf, LiveCount;
    var c := l.ops[k];
    if c.DeleteRow? {
      assert Known(l, k);
    }
  }

  lemma UndoPending(l: Ledger, rows: seq<Row>, rows': seq<Row>, E: set<nat>, N: set<nat>, k: nat)
    requires History(l) && E <= l.ops.Keys && N <= l.ops.Keys
    requires k in E && Reverted(rows, rows', l.ops[k])
    requires forall m | m in l.ops && OldId(l.ops[m]) >= 0 && WrittenBy(l, k, m) :: m in N
    requires Pending(l, rows, E + N)
    ensures Pending(l, rows', E + N)
  {
    hide IndexOf, LiveCount;
    forall j | j in l.ops.Keys - (E + N) && OldId(l.ops[j]) >= 0 && Has(rows', OldId(l.ops[j]))
      ensures !Obsolete(Get(rows', OldId(l.ops[j]))) && Get(rows', OldId(l.ops[j])).tokens == l.ops[j].before.tokens
    {
      TargetApart(l, j, k);
    }
  }

  // The row that undoing k edits is the target of no other change but one that takes away what k wrote.
  lemma TargetApart(l: Ledger, j: nat, k: nat)
    requires History(l) && j in l.ops && k in l.ops && j != k
    ensures OldId(l.ops[j]) == UndoId(l.ops[k]) ==> WrittenBy(l, k, j)
    ensures NewId(l.ops[j]) == UndoId(l.ops[k]) ==> l.ops[k].DeleteRow?
  {
    hide IndexOf, LiveCount;
    if OldId(l.ops[j]) == UndoId(l.ops[k]) && !l.ops[k].DeleteRow? {
      TakesFromLoser(l, k, j);
    }
  }

  lemma UndoApplied(l: Ledger, rows: seq<Row>, rows': seq<Row>, E: set<nat>, N: set<nat>, D: set<nat>, k: nat)
    requires History(l) && E <= l.ops.Keys && E !! N && D <= N <= l.ops.Keys
    requires k in E && Reverted(rows, rows', l.ops[k]) && Applied(l, rows, E, D)
    requires forall m | m in l.ops && OldId(l.ops[m]) >= 0 && WrittenBy(l, k, m) :: m in N
    ensures Applied(l, rows', E - {k}, D + {k})
  {
    hide IndexOf, LiveCount, TakenAway, Stuck, History, Written, Taken, Reverted, WrittenBy;
    forall j | j in E - {k} && NewId(l.ops[j]) >= 0 ensures Written(l, rows', E - {k}, D + {k}, j) {
      assert Written(l, rows, E, D, j);
      RevertedNew(l, rows, rows', E, N, D, k, j);
    }
    forall j | j in E - {k} && OldId(l.ops[j]) >= 0 ensures Taken(l, rows', j) {
      assert Taken(l, rows, j);
      RevertedOld(l, rows, rows', N, k, j);
    }
  }

  lemma RevertedOld(l: Ledger, rows: seq<Row>, rows': seq<Row>, N: set<nat>, k: nat, j: nat)
    requires History(l) && k in l.ops && j in l.ops && j != k && j !in N && OldId(l.ops[j]) >= 0
    requires Reverted(rows, rows', l.ops[k]) && Taken(l, rows, j)
    requires forall m | m in l.ops && OldId(l.ops[m]) >= 0 && WrittenBy(l, k, m) :: m in N
    ensures Taken(l, rows', j)
  {
    hide IndexOf, LiveCount, History;
    TargetApart(l, j, k);
  }

  lemma RevertedNew(l: Ledger, rows: seq<Row>, rows': seq<Row>, E: set<nat>, N: set<nat>, D: set<nat>, k: nat, j: nat)
    requires History(l) && E <= l.ops.Keys && E !! N && D <= N <= l.ops.Keys && k in E && j in E && j != k && NewId(l.ops[j]) >= 0
    requires Reverted(rows, rows', l.ops[k]) && Applied(l, rows, E, D)
    ensures Written(l, rows', E - {k}, D + {k}, j)
  {
    hide IndexOf, LiveCount, TakenAway, Stuck, History;
    var id := NewId(l.ops[j]);
    assert Written(l, rows, E, D, j);
    TargetApart(l, j, k);
    TakenMore(l, E - {k}, k, id);
    assert E - {k} + {k} == E;
    StuckNow(l, D, k, id);
    if OldId(l.ops[k]) == id {
      assert Taken(l, rows, k);
      OnlyOneTakes(l, D, k, id);
    }
  }

  // With k undone as well, what it replaced is stuck.
  lemma StuckNow(l: Ledger, D: set<nat>, k: nat, id: int)
    requires k in l.ops
    ensures Stuck(l.ops, D + {k}, id) <==> Stuck(l.ops, D, id) || (l.ops[k].UpdateRow? && OldId(l.ops[k]) == id)
  {
    if Stuck(l.ops, D, id) {
      var m :| m in D && m in l.ops && l.ops[m].UpdateRow? && OldId(l.ops[m]) == id;
      assert m in D + {k};
    }
    if l.ops[k].UpdateRow? && OldId(l.ops[k]) == id {
      assert k in D + {k};
    }
  }

  lemma OnlyOneTakes(l: Ledger, D: set<nat>, k: nat, id: int)
    requires History(l) && k in l.ops && k !in D && id >= 0 && OldId(l.ops[k]) == id
    ensures !Stuck(l.ops, D, id)
  {
    hide IndexOf;
  }

  lemma LoserTakes(l: Ledger, j: nat, k: nat)
    requires LosersUntouched(l) && k in l.ops && OldId(l.ops[k]) >= 0 && WrittenBy(l, j, k)
    ensures j in l.winners || k !in l.winners
  {
  }

  // ---- Replaying a set of changes in log order ----

  function Replay(l: Ledger, S: set<nat>, n: nat): seq<Row> {
    if n == 0 then l.base
    else
      var rows := Replay(l, S, n - 1);
      if n - 1 in S && n - 1 in l.ops then Redo(rows, l.ops[n - 1]) else rows
  }

  function Below(S: set<nat>, n: nat): set<nat> {
    set k | k in S && k < n
  }

  // Where what wrote it is in effect, the row that k makes obsolete is there.
  lemma TargetPresent(l: Ledger, rows: seq<Row>, E: set<nat>, N: set<nat>, D: set<nat>, k: nat)
    requires History(l) && Holds(l, rows, E, N, D)
    requires k in l.ops && OldId(l.ops[k]) >= 0
    requires forall j | WrittenBy(l, j, k) :: j in E
    ensures Has(rows, OldId(l.ops[k]))
  {
    hide IndexOf, LiveCount, OnlyKnown, Pending, TakenAway, Counts, Stuck;
    assert Known(l, k);
    if !FromBase(l, k) {
      var j :| WrittenBy(l, j, k);
      assert j in E;
      assert Written(l, rows, E, D, j);
    }
  }

  // Every change in S finds what it takes away written by a change in S, or in the base rows.
  ghost predicate Closed(l: Ledger, S: set<nat>) {
    forall j, k | k in S && k in l.ops && OldId(l.ops[k]) >= 0 && WrittenBy(l, j, k) :: j in S
  }

  // Replaying, in log order, any closed set of changes that includes the committed ones gives rows
  // with exactly those changes in effect.
  lemma {:induction false} ReplayHolds(l: Ledger, S: set<nat>, n: nat)
    requires History(l) && l.winners <= S <= l.ops.Keys && Closed(l, S)
    ensures Holds(l, Replay(l, S, n), Below(S, n), l.ops.Keys - S, {})
  {
    hide History, Holds, Closed, WrittenBy, Redo;
    var E := Below(S, n);
    if n == 0 {
      assert E == {};
      ReplayNothing(l, S);
    } else {
      var E' := Below(S, n - 1);
      ReplayHolds(l, S, n - 1);
      if n - 1 in S {
        assert E == E' + {n - 1};
        if OldId(l.ops[n - 1]) >= 0 {
          forall j | WrittenBy(l, j, n - 1) ensures j in E' {
            ClosedBelow(l, S, j, n - 1);
          }
          TargetPresent(l, Replay(l, S, n - 1), E', l.ops.Keys - S, {}, n - 1);
        }
        RedoHolds(l, Replay(l, S, n - 1), E', l.ops.Keys - S, {}, n - 1);
      } else {
        assert E == E';
      }
    }
  }

  lemma ClosedBelow(l: Ledger, S: set<nat>, j: nat, k: nat)
    requires Closed(l, S) && k in S && k in l.ops && OldId(l.ops[k]) >= 0 && WrittenBy(l, j, k)
    ensures j in S && j < k
  {
  }

  lemma {:induction false} TotalNone(ops: map<nat, Change>, n: nat, t: seq<DataToken>)
    ensures Total(ops, {}, n, t) == 0
  {
    if n > 0 {
      TotalNone(ops, n - 1, t);
    }
  }

  lemma ReplayNothing(l: Ledger, S: set<nat>)
    requires History(l) && l.winners <= S <= l.ops.Keys && Closed(l, S)
    ensures Holds(l, l.base, {}, l.ops.Keys - S, {})
  {
    hide IndexOf, LiveCount;
    forall k | k in l.ops.Keys && OldId(l.ops[k]) >= 0 && Has(l.base, OldId(l.ops[k]))
      ensures !Obsolete(Get(l.base, OldId(l.ops[k]))) && Get(l.base, OldId(l.ops[k])).tokens == l.ops[k].before.tokens
    {
      assert Known(l, k);
    }
    NothingCounts(l);
  }

  lemma NothingCounts(l: Ledger)
    ensures Counts(l, l.base, {}, {})
  {
    hide LiveCount;
    LeftNothing(l.ops, l.size);
    forall t ensures Total(l.ops, {}, l.size, t) == 0 && LiveCount([], t) == 0 {
      TotalNone(l.ops, l.size, t);
      NoneShown(t);
    }
  }

  lemma NoneShown(t: seq<DataToken>)
    ensures LiveCount([], t) == 0
  {
  }

  lemma {:induction false} LeftNothing(ops: map<nat, Change>, n: nat)
    ensures Left(ops, {}, n) == []
  {
    if n > 0 {
      LeftNothing(ops, n - 1);
    }
  }

  // Rows carrying exactly the committed changes show what replaying only those changes shows, and besides
  // what undoing has left over.
  lemma CommittedView(l: Ledger, rows: seq<Row>, N: set<nat>, D: set<nat>, t: seq<DataToken>)
    requires History(l) && LosersUntouched(l) && Holds(l, rows, l.winners, N, D)
    ensures LiveCount(rows, t) == LiveCount(Replay(l, l.winners, l.size), t) + LiveCount(Left(l.ops, D, l.size), t)
    ensures LiveCount(rows, t) == LiveCount(l.base, t) + Total(l.ops, l.winners, l.size, t) + LiveCount(Left(l.ops, D, l.size), t)
  {
    hide IndexOf, LiveCount, BaseKept, OnlyKnown, Pending, Applied, Replay;
    assert Closed(l, l.winners);
    ReplayHolds(l, l.winners, l.size);
    assert Below(l.winners, l.size) == l.winners;
    LeftNothing(l.ops, l.size);
    NoneShown(t);
  }

  // ---- When nothing is left over ----

  // An update in D of a version that a change in D wrote.
  ghost predicate OwnUpdate(l: Ledger, D: set<nat>, j: nat, k: nat) {
    j in D && k in D && k in l.ops && l.ops[k].UpdateRow? && WrittenBy(l, j, k)
  }

  lemma {:induction false} LeftEmpty(l: Ledger, D: set<nat>, n: nat)
    requires History(l) && D <= l.ops.Keys
    ensures Left(l.ops, D, n) == [] <==> forall j: nat, k: nat | j < n :: !OwnUpdate(l, D, j, k)
  {
    hide History;
    if n > 0 {
      LeftEmpty(l, D, n - 1);
      StuckOwn(l, D, n - 1);
    }
  }

  lemma StuckOwn(l: Ledger, D: set<nat>, j: nat)
    requires History(l) && D <= l.ops.Keys
    ensures (exists k: nat :: OwnUpdate(l, D, j, k)) <==> j in D && NewId(l.ops[j]) >= 0 && Stuck(l.ops, D, NewId(l.ops[j]))
  {
    hide IndexOf, History;
    if j in D && NewId(l.ops[j]) >= 0 && Stuck(l.ops, D, NewId(l.ops[j])) {
      var k :| k in D && k in l.ops && l.ops[k].UpdateRow? && OldId(l.ops[k]) == NewId(l.ops[j]);
      TakesFromLoser(l, j, k);
      assert OwnUpdate(l, D, j, k);
    }
  }

  ghost predicate AllLive(rows: seq<Row>) {
    forall i | 0 <= i < |rows| :: !Obsolete(rows[i])
  }

  lemma {:induction false} LeftLive(l: Ledger, D: set<nat>, n: nat)
    requires History(l)
    ensures AllLive(Left(l.ops, D, n))
  {
    hide History;
    if n > 0 {
      LeftLive(l, D, n - 1);
      if n - 1 in l.ops && NewId(l.ops[n - 1]) >= 0 {
        AfterLive(l, n - 1);
      }
    }
  }

  // Live rows show nothing exactly when there are none.
  lemma ShowsNothing(rows: seq<Row>)
    requires AllLive(rows)
    ensures (forall t :: LiveCount(rows, t) == 0) <==> rows == []
  {
    if rows != [] {
      var r := rows[|rows| - 1];
      assert LiveCount(rows, r.tokens) > 0;
    }
  }

  lemma {:induction false} LiveCountConcat(a: seq<Row>, b: seq<Row>, t: seq<DataToken>)
    ensures LiveCount(a + b, t) == LiveCount(a, t) + LiveCount(b, t)
  {
    if b == [] {
      assert a + b == a;
    } else {
      var n := |b| - 1;
      assert (a + b)[..|a| + n] == a + b[..n];
      LiveCountConcat(a, b[..n], t);
    }
  }
}
