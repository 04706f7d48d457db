/**
 Every durable step that recovery takes keeps the store recoverable: writing a redone page,
 appending a compensation, and appending the marker that closes a transaction.
 */
module RecoverySteps {
  import opened Types
  import opened PageRows
  import opened PageLedger
  import opened LogShape
  import opened RecoveryInvariant

  function WithPage(s: Store, p: PageId, page: DataPage): Store {
    s.(disk := s.disk[p := page])
  }

  function WithRecord(s: Store, r: WalRecord): Store {
    s.(log := s.log + [r])
  }

  lemma PageFrame(log: Log, e: Epoch, disk: map<PageId, DataPage>, disk': map<PageId, DataPage>, p: PageId)
    requires PageOk(log, e, disk, p) && PageAt(disk, p) == PageAt(disk', p)
    ensures PageOk(log, e, disk', p)
  {
    hide Holds;
  }

  // Redo writes record i to its page.
  lemma RedoKeeps(s: Store, e: Epoch, i: nat, p: PageId)
    requires Recoverable(s, e) && CaughtUp(s, i) && Replayed(s.log, i, p)
    requires PageAt(s.disk, p).lastLsn <= i
    ensures var s' := WithPage(s, p, Advanced(s.log, i, PageAt(s.disk, p)));
      Recoverable(s', e) && CaughtUp(s', i + 1)
  {
    hide Holds, LogOk, HistoriesOk, UndoneAbove, Resolved, Redo, Undo;
    var s' := WithPage(s, p, Advanced(s.log, i, PageAt(s.disk, p)));
    if s.log[i].body.Do? {
      RedoDoStep(s.log, e, s.disk, i, p);
    } else {
      RedoClrStep(s.log, e, s.disk, i, p);
    }
    forall q ensures PageOk(s.log, e, s'.disk, q) {
      if q != p {
        PageFrame(s.log, e, s.disk, s'.disk, q);
      }
    }
    RedoKeepsTxns(s, s', e, i, p);
  }

  lemma RedoKeepsTxns(s: Store, s': Store, e: Epoch, i: nat, p: PageId)
    requires TxnsOk(s, e) && s'.log == s.log && s'.disk.Keys == s.disk.Keys + {p} && Replayed(s.log, i, p)
    ensures TxnsOk(s', e)
  {
    forall k: nat | k < |s.log| && s.log[k].body.Do? && Resolved(s, k) ensures Resolved(s', k) {
    }
  }

  // ---- Appending a compensation or a rollback marker ----

  lemma GrownLog(log: Log, r: WalRecord)
    requires r.body.Clr? || r.body.Rollback?
    ensures var log' := log + [r];
      && (forall t :: Committed(log', t) <==> Committed(log, t))
      && (forall t :: RolledBack(log', t) <==> RolledBack(log, t) || (r.body.Rollback? && r.txn == t))
      && (forall c: nat, i: nat | c < |log| :: Compensates(log', c, i) <==> Compensates(log, c, i))
      && (forall t :: LastLsn(log', t) == if r.txn == t then |log'| else LastLsn(log, t))
  {
    var log' := log + [r];
    assert log'[..|log|] == log;
    forall t ensures Committed(log', t) <==> Committed(log, t) {
      if Committed(log, t) {
        var i :| 0 <= i < |log| && log[i].txn == t && log[i].body.Commit?;
        assert log'[i] == log[i];
      }
    }
    forall t ensures RolledBack(log', t) <==> RolledBack(log, t) || (r.body.Rollback? && r.txn == t) {
      if RolledBack(log, t) {
        var i :| 0 <= i < |log| && log[i].txn == t && log[i].body.Rollback?;
        assert log'[i] == log[i];
      }
      if r.body.Rollback? && r.txn == t {
        assert log'[|log|] == r;
      }
    }
  }

  lemma GrownLedger(log: Log, e: Epoch, r: WalRecord, p: PageId)
    requires r.body.Clr? || r.body.Rollback?
    ensures OpsOn(log + [r], e.start, p) == OpsOn(log, e.start, p)
    ensures WinnersOn(log + [r], e.start, p) == WinnersOn(log, e.start, p)
    ensures forall n: nat :: n <= |log| ==> UndoneOn(log + [r], e.start, p, n) == UndoneOn(log, e.start, p, n)
  {
    hide Compensates, Committed;
    var log' := log + [r];
    GrownLog(log, r);
    assert forall i | 0 <= i < |log| :: log'[i] == log[i];
    assert OpsOn(log', e.start, p) == OpsOn(log, e.start, p);
  }

  lemma GrownCounts(l: Ledger, rows: seq<Row>, E: set<nat>, D: set<nat>)
    requires WellFormed(l) && Counts(l, rows, E, D)
    ensures Counts(l.(size := l.size + 1), rows, E, D)
  {
    hide IndexOf, LiveCount;
  }

  lemma GrownPage(log: Log, e: Epoch, disk: map<PageId, DataPage>, r: WalRecord, p: PageId)
    requires r.body.Clr? || r.body.Rollback?
    requires History(LedgerOf(log, e, p)) && LosersApart(log, e, p) && PageOk(log, e, disk, p)
    ensures PageOk(log + [r], e, disk, p)
    ensures History(LedgerOf(log + [r], e, p)) && LosersApart(log + [r], e, p)
  {
    hide Holds, History, WellFormed, OpsOn, WinnersOn, UndoneOn, LosersApart;
    GrownLedger(log, e, r, p);
    var l := LedgerOf(log, e, p);
    assert LedgerOf(log + [r], e, p) == l.(size := l.size + 1);
    OpsWellFormed(l);
    var undone := UndoneOn(log, e.start, p, PageAt(disk, p).lastLsn);
    GrownHolds(l, PageAt(disk, p).rows, EffectsOn(log, e, p, PageAt(disk, p).lastLsn), undone, ReachedOn(e, p) * undone);
    GrownHistory(l);
    GrownApart(log, e, r, p);
  }

  lemma GrownApart(log: Log, e: Epoch, r: WalRecord, p: PageId)
    requires r.body.Clr? || r.body.Rollback?
    requires LosersApart(log, e, p)
    ensures LosersApart(log + [r], e, p)
  {
    hide OpsOn, WinnersOn, UndoneOn;
    GrownLedger(log, e, r, p);
    InLog(log, e.start, p);
    var l, l' := LedgerOf(log, e, p), LedgerOf(log + [r], e, p);
    forall j: nat, k | k in l'.ops && OldId(l'.ops[k]) >= 0 && WrittenBy(l', j, k) && j !in l'.winners
      ensures (log + [r])[j].txn == (log + [r])[k].txn
    {
      assert WrittenBy(l, j, k);
    }
  }

  lemma InLog(log: Log, start: nat, p: PageId)
    ensures forall k | k in OpsOn(log, start, p) :: k < |log|
  {
  }

  lemma GrownHolds(l: Ledger, rows: seq<Row>, E: set<nat>, N: set<nat>, D: set<nat>)
    requires WellFormed(l) && Holds(l, rows, E, N, D)
    ensures Holds(l.(size := l.size + 1), rows, E, N, D)
  {
    hide IndexOf, LiveCount, Counts, Stuck;
    GrownCounts(l, rows, E, D);
    var l' := l.(size := l.size + 1);
    forall k | k in E && NewId(l.ops[k]) >= 0 ensures Written(l', rows, E, D, k) {
      assert Written(l, rows, E, D, k);
    }
    forall k | k in E && OldId(l.ops[k]) >= 0 ensures Taken(l', rows, k) {
      assert Taken(l, rows, k);
    }
  }

  lemma GrownHistory(l: Ledger)
    requires History(l)
    ensures History(l.(size := l.size + 1))
  {
    hide IndexOf, LiveCount;
    var l' := l.(size := l.size + 1);
    forall j: nat, k | k in l.ops && OldId(l.ops[k]) >= 0 ensures WrittenBy(l', j, k) == WrittenBy(l, j, k) {
    }
    forall k | k in l.ops && OldId(l.ops[k]) >= 0 ensures Known(l', k) {
      assert Known(l, k);
      if !FromBase(l, k) {
        var j :| WrittenBy(l, j, k);
        assert WrittenBy(l', j, k);
      }
    }
  }

  // The compensation that undo appends for the record with LSN cur; its own prev is left at 0.
  function ClrFor(log: Log, cur: nat): WalRecord
    requires 0 < cur <= |log| && log[cur - 1].body.Do?
  {
    WalRecord(|log| + 1, 0, log[cur - 1].txn, Clr(log[cur - 1].prev, log[cur - 1].body.change))
  }

  function RollbackFor(log: Log, t: TxnId): WalRecord {
    WalRecord(|log| + 1, 0, t, Rollback)
  }

  lemma AppendKeepsChains(log: Log, r: WalRecord)
    requires LogOk(log) && Active(log, r.txn) && r.lsn == |log| + 1 && (r.body.Clr? || r.body.Rollback?)
    ensures var log' := log + [r]; Numbered(log') && ChainsOk(log') && EndingsOk(log')
    ensures forall c, i | Compensates(log, c, i) :: Compensates(log + [r], c, i)
  {
    hide LastLsn, Chained, ClrsOk, EndingsOk;
    var log' := log + [r];
    forall i | 0 <= i < |log| && (log[i].body.Do? || log[i].body.Commit?) ensures Chained(log', i) {
      assert Chained(log, i);
      ChainedGrows(log, r, i);
    }
    AppendKeepsEndingsOk(log, r);
  }

  lemma AppendKeepsEndingsOk(log: Log, r: WalRecord)
    requires EndingsOk(log) && Active(log, r.txn) && (r.body.Clr? || r.body.Rollback?)
    ensures EndingsOk(log + [r])
  {
    hide LastLsn;
    assert !Committed(log, r.txn) && !RolledBack(log, r.txn);
    var log' := log + [r];
    forall i, j | 0 <= i < j < |log'| && log'[i].txn == log'[j].txn
      ensures !log'[i].body.Commit? && !log'[i].body.Rollback? && (log'[i].body.Clr? ==> log'[j].body.Clr? || log'[j].body.Rollback?)
    {
      if j < |log| {
        assert log[i].txn == log[j].txn;
      }
    }
  }

  lemma ClrKeepsLog(s: Store, t: TxnId, cur: nat)
    requires LogOk(s.log) && Active(s.log, t) && UndoneAbove(s, t, cur)
    requires cur > 0 && s.log[cur - 1].body.Do?
    ensures LogOk(s.log + [ClrFor(s.log, cur)])
    ensures Compensates(s.log + [ClrFor(s.log, cur)], |s.log|, cur - 1)
  {
    hide Resolved, LastLsn, ChainsOk, EndingsOk, Numbered, Active;
    var log, r := s.log, ClrFor(s.log, cur);
    var log' := log + [r];
    AppendKeepsChains(log, r);
    assert Compensates(log', |log|, cur - 1);
    forall c | 0 <= c < |log| && log[c].body.Clr?
      ensures exists i :: Compensates(log', c, i)
      ensures log[c].txn == t ==> r.body.undoNext < log[c].body.undoNext
    {
      var j :| Compensates(log, c, j);
      assert Compensates(log', c, j);
      if log[c].txn == t {
        assert Compensated(log, j);
        PrevUnique(log, cur - 1, j);
      }
    }
  }

  lemma RollbackKeepsLog(log: Log, t: TxnId)
    requires LogOk(log) && Active(log, t)
    ensures LogOk(log + [RollbackFor(log, t)])
  {
    hide LastLsn, ChainsOk, EndingsOk, Numbered;
    var log' := log + [RollbackFor(log, t)];
    AppendKeepsChains(log, RollbackFor(log, t));
    forall c | 0 <= c < |log| && log[c].body.Clr? ensures exists i :: Compensates(log', c, i) {
      var j :| Compensates(log, c, j);
      assert Compensates(log', c, j);
    }
  }

  // What does not depend on which record is appended.
  lemma AppendKeepsPages(s: Store, e: Epoch, r: WalRecord)
    requires Recoverable(s, e) && Active(s.log, r.txn)
    requires r.body.Clr? || r.body.Rollback?
    requires r.body.Clr? && r.body.change.IsData() ==> r.body.change.page in s.disk
    ensures var s' := WithRecord(s, r);
      && EpochOk(s', e) && HistoriesOk(s'.log, e) && PagesOk(s'.log, e, s'.disk)
      && (forall i: nat | i < |s.log| && s.log[i].body.Do? && Resolved(s, i) :: Resolved(s', i))
      && (forall n: nat | n <= |s.log| && CaughtUp(s, n) :: CaughtUp(s', n))
  {
    hide History, LosersApart, LedgerOf, PageOk, LogOk, TxnsOk;
    var s' := WithRecord(s, r);
    GrownLog(s.log, r);
    forall p ensures PageOk(s'.log, e, s'.disk, p) && History(LedgerOf(s'.log, e, p)) && LosersApart(s'.log, e, p) {
      GrownPage(s.log, e, s.disk, r, p);
    }
    AppendKeepsEpoch(s, e, r);
    AppendKeepsResolved(s, r);
  }

  lemma AppendKeepsEpoch(s: Store, e: Epoch, r: WalRecord)
    requires EpochOk(s, e) && Active(s.log, r.txn) && (r.body.Clr? || r.body.Rollback?)
    ensures EpochOk(WithRecord(s, r), e)
    ensures forall n: nat | n <= |s.log| && CaughtUp(s, n) :: CaughtUp(WithRecord(s, r), n)
  {
    hide Change.On, Compensates;
    var s' := WithRecord(s, r);
    GrownLog(s.log, r);
    forall i: nat, p | i < |s.log| ensures Replayed(s'.log, i, p) <==> Replayed(s.log, i, p) {
      assert s'.log[i] == s.log[i];
    }
  }

  lemma AppendKeepsResolved(s: Store, r: WalRecord)
    requires r.body.Clr? || r.body.Rollback?
    requires r.body.Clr? && r.body.change.IsData() ==> r.body.change.page in s.disk
    ensures forall i: nat | i < |s.log| && s.log[i].body.Do? && Resolved(s, i) :: Resolved(WithRecord(s, r), i)
  {
    var s' := WithRecord(s, r);
    GrownLog(s.log, r);
    forall i: nat | i < |s.log| && s.log[i].body.Do? && Resolved(s, i) ensures Resolved(s', i) {
      if Compensated(s.log, i) {
        var c :| Compensates(s.log, c, i);
        assert Compensates(s'.log, c, i);
      } else {
        forall j ensures !Replayed(s'.log, j, s.log[i].body.change.page) {
          assert !Replayed(s.log, j, s.log[i].body.change.page);
        }
      }
    }
  }

  // Undo of other transactions is not disturbed.
  lemma OthersUndone(s: Store, r: WalRecord, t: TxnId, cur: nat)
    requires (r.body.Clr? || r.body.Rollback?) && t != r.txn && UndoneAbove(s, t, cur)
    requires r.body.Clr? && r.body.change.IsData() ==> r.body.change.page in s.disk
    ensures UndoneAbove(WithRecord(s, r), t, cur)
  {
    hide Resolved;
    AppendKeepsResolved(s, r);
    GrownLog(s.log, r);
    var s' := WithRecord(s, r);
    forall i | 0 <= i < |s'.log| && s'.log[i].txn == t && s'.log[i].body.Do?
      ensures if i < UndoBound(s'.log, cur) then !Compensated(s'.log, i) else Resolved(s', i)
    {
      assert s'.log[i] == s.log[i];
    }
  }

  // ---- The moves of undo ----

  lemma PrevRecord(log: Log, cur: nat)
    requires LogOk(log) && 0 < cur <= |log| && log[cur - 1].body.Do?
    ensures var prev := log[cur - 1].prev;
      && 0 < prev < cur
      && log[prev - 1].txn == log[cur - 1].txn
      && (log[prev - 1].body.Begin? || log[prev - 1].body.Do?)
      && (forall j :: prev <= j < cur - 1 ==> log[j].txn != log[cur - 1].txn)
  {
    assert Chained(log, cur - 1);
  }

  // After the compensation of record cur, undo goes on at the record before it; a crash right
  // here resumes at the same place, because that is where the compensation points.
  lemma ClrUndoneAbove(s: Store, t: TxnId, cur: nat)
    requires LogOk(s.log) && Active(s.log, t) && UndoneAbove(s, t, cur)
    requires cur > 0 && s.log[cur - 1].body.Do?
    requires s.log[cur - 1].body.change.IsData() ==> s.log[cur - 1].body.change.page in s.disk
    ensures var s' := WithRecord(s, ClrFor(s.log, cur));
      UndoneAbove(s', t, s.log[cur - 1].prev) && UndoneAbove(s', t, |s'.log|)
  {
    hide Resolved, LastLsn, LogOk, Active, Compensates;
    var log, r := s.log, ClrFor(s.log, cur);
    var s' := WithRecord(s, r);
    var prev := log[cur - 1].prev;
    PrevRecord(log, cur);
    ClrKeepsLog(s, t, cur);
    AppendKeepsResolved(s, r);
    GrownLog(log, r);
    forall i | 0 <= i < |log| && log[i].txn == t && log[i].body.Do?
      ensures if i < prev then !Compensated(s'.log, i) else Resolved(s', i)
    {
      assert s'.log[i] == log[i];
      if i == cur - 1 {
        NowResolved(s', |log|, i);
      } else if i < prev {
        StillPending(log, r, cur, i);
      }
    }
  }

  lemma NowResolved(s: Store, c: nat, i: nat)
    requires Compensates(s.log, c, i)
    ensures Resolved(s, i)
  {
  }

  lemma StillPending(log: Log, r: WalRecord, cur: nat, i: nat)
    requires 0 < cur <= |log| && log[cur - 1].body.Do? && r == ClrFor(log, cur) && LogOk(log + [r])
    requires i < |log| && i != cur - 1 && !Compensated(log, i)
    ensures !Compensated(log + [r], i)
  {
    hide EndingsOk, Numbered, ChainsOk;
    GrownLog(log, r);
    if Compensated(log + [r], i) {
      var c :| Compensates(log + [r], c, i);
      assert c == |log|;
      assert Compensates(log + [r], |log|, cur - 1);
      CompensatesOne(log + [r], |log|, i, cur - 1);
    }
  }

  lemma ClrKeeps(s: Store, e: Epoch, t: TxnId, cur: nat)
    requires Recoverable(s, e) && CaughtUp(s, |s.log|) && Active(s.log, t) && UndoneAbove(s, t, cur)
    requires cur > 0 && s.log[cur - 1].body.Do?
    requires s.log[cur - 1].body.change.IsData() ==> s.log[cur - 1].body.change.page in s.disk
    ensures var s' := WithRecord(s, ClrFor(s.log, cur));
      && Recoverable(s', e) && CaughtUp(s', |s.log|)
      && (!s.log[cur - 1].body.change.IsData() ==> CaughtUp(s', |s'.log|))
      && UndoneAbove(s', t, s.log[cur - 1].prev)
  {
    hide UndoneAbove, LogOk, EpochOk, HistoriesOk, PagesOk, Resolved, LastLsn;
    CurOf(s, t, cur);
    var s' := WithRecord(s, ClrFor(s.log, cur));
    AppendKeepsPages(s, e, ClrFor(s.log, cur));
    ClrKeepsLog(s, t, cur);
    ClrUndoneAbove(s, t, cur);
    AppendKeepsTxns(s, e, ClrFor(s.log, cur));
  }

  lemma CurOf(s: Store, t: TxnId, cur: nat)
    requires UndoneAbove(s, t, cur) && cur > 0
    ensures cur <= |s.log| && s.log[cur - 1].txn == t
  {
  }

  lemma AppendKeepsTxns(s: Store, e: Epoch, r: WalRecord)
    requires TxnsOk(s, e) && Active(s.log, r.txn) && (r.body.Clr? || r.body.Rollback?)
    requires r.body.Clr? && r.body.change.IsData() ==> r.body.change.page in s.disk
    requires r.body.Clr? ==> UndoneAbove(WithRecord(s, r), r.txn, |s.log| + 1)
    requires r.body.Rollback? ==> UndoneAbove(s, r.txn, 0)
    ensures TxnsOk(WithRecord(s, r), e)
  {
    hide UndoneAbove, Resolved, LastLsn, Committed, RolledBack, Compensates;
    var s' := WithRecord(s, r);
    GrownLog(s.log, r);
    AppendKeepsResolved(s, r);
    forall t | Active(s'.log, t) ensures UndoneAbove(s', t, LastLsn(s'.log, t)) {
      if t != r.txn {
        OthersUndone(s, r, t, LastLsn(s.log, t));
      }
    }
    forall i | e.start <= i < |s'.log| && s'.log[i].body.Do? && RolledBack(s'.log, s'.log[i].txn)
      ensures Resolved(s', i)
    {
      assert s'.log[i] == s.log[i];
      if s.log[i].txn == r.txn && r.body.Rollback? {
        AllResolved(s, r.txn, i);
      }
    }
  }

  lemma AllResolved(s: Store, t: TxnId, i: nat)
    requires UndoneAbove(s, t, 0) && i < |s.log| && s.log[i].txn == t && s.log[i].body.Do?
    ensures Resolved(s, i)
  {
  }

  lemma RollbackKeeps(s: Store, e: Epoch, t: TxnId)
    requires Recoverable(s, e) && CaughtUp(s, |s.log|) && Active(s.log, t) && UndoneAbove(s, t, 0)
    ensures var s' := WithRecord(s, RollbackFor(s.log, t));
      Recoverable(s', e) && CaughtUp(s', |s'.log|)
  {
    hide UndoneAbove, LogOk, EpochOk, HistoriesOk, PagesOk, Resolved, LastLsn;
    AppendKeepsPages(s, e, RollbackFor(s.log, t));
    RollbackKeepsLog(s.log, t);
    AppendKeepsTxns(s, e, RollbackFor(s.log, t));
  }

  // Undo skips a change whose page is not on disk: after redo, no page means nothing to take out.
  lemma SkipMove(s: Store, t: TxnId, cur: nat)
    requires LogOk(s.log) && CaughtUp(s, |s.log|) && UndoneAbove(s, t, cur)
    requires cur > 0 && s.log[cur - 1].body.Do?
    requires s.log[cur - 1].body.change.IsData() && s.log[cur - 1].body.change.page !in s.disk
    ensures UndoneAbove(s, t, s.log[cur - 1].prev)
  {
    hide LastLsn, LogOk;
    PrevRecord(s.log, cur);
    assert Skippable(s, cur - 1);
    hide Skippable, Replayed, CaughtUp;
  }

  lemma BeginMove(s: Store, t: TxnId, cur: nat)
    requires LogOk(s.log) && UndoneAbove(s, t, cur) && cur > 0 && s.log[cur - 1].body.Begin?
    ensures s.log[cur - 1].prev == 0 && UndoneAbove(s, t, 0)
  {
    hide LastLsn, EndingsOk, Numbered, ClrsOk, Resolved, Compensated;
  }

  lemma ClrMove(s: Store, t: TxnId, cur: nat)
    requires LogOk(s.log) && UndoneAbove(s, t, cur) && cur > 0 && s.log[cur - 1].body.Clr?
    ensures s.log[cur - 1].body.undoNext < cur && UndoneAbove(s, t, s.log[cur - 1].body.undoNext)
  {
    hide LastLsn, ChainsOk, ClrsOk, EndingsOk, Numbered, Resolved, Compensated, Chained;
    var i := ClrOrigin(s.log, cur - 1);
  }

  // The record a compensation belongs to: its prev is where undo goes on.
  lemma ClrOrigin(log: Log, c: nat) returns (i: nat)
    requires LogOk(log) && c < |log| && log[c].body.Clr?
    ensures Compensates(log, c, i)
    ensures var p := log[i].prev;
      && 1 <= p <= i && log[p - 1].txn == log[i].txn && (log[p - 1].body.Begin? || log[p - 1].body.Do?)
      && (forall j :: p <= j < i ==> log[j].txn != log[i].txn)
  {
    hide EndingsOk, Numbered;
    i :| Compensates(log, c, i);
    assert Chained(log, i);
  }

  // ---- The end of recovery ----

  ghost predicate Quiet(s: Store) {
    CaughtUp(s, |s.log|) && forall t :: !Active(s.log, t)
  }

  // Once redo has caught up and no transaction is open, each page carries exactly the committed changes, and
  // besides what undoing the changes that had reached it has left over.
  lemma FinishedPage(s: Store, e: Epoch, p: PageId, t: seq<DataToken>)
    requires Recoverable(s, e) && Quiet(s)
    ensures var l := LedgerOf(s.log, e, p);
      var left := LiveCount(Left(l.ops, ReachedOn(e, p), l.size), t);
      && LiveCount(PageAt(s.disk, p).rows, t) == LiveCount(Replay(l, l.winners, l.size), t) + left
      && LiveCount(PageAt(s.disk, p).rows, t) == LiveCount(l.base, t) + Total(l.ops, l.winners, l.size, t) + left
  {
    hide LogOk, TxnsOk, History, LosersApart, LosersUntouched, Holds, UndoneOn, LiveCount, Total, WinnersOn, OpsOn;
    LosersApartUntouched(s.log, e, p);
    var l, page, R := LedgerOf(s.log, e, p), PageAt(s.disk, p), ReachedOn(e, p);
    assert PageOk(s.log, e, s.disk, p);
    var undone := UndoneOn(s.log, e.start, p, page.lastLsn);
    forall k | k in R ensures k in undone {
      LoserGone(s, e, p, k);
    }
    forall k | k in l.winners ensures k < page.lastLsn {
      WinnerReached(s, e, p, k);
    }
    assert R - undone == {} && R * undone == R;
    assert EffectsOn(s.log, e, p, page.lastLsn) == l.winners;
    CommittedView(l, page.rows, undone, R, t);
  }

  lemma WinnerReached(s: Store, e: Epoch, p: PageId, k: nat)
    requires CaughtUp(s, |s.log|) && k in WinnersOn(s.log, e.start, p)
    ensures k < PageAt(s.disk, p).lastLsn
  {
    assert Replayed(s.log, k, p);
  }

  lemma LoserGone(s: Store, e: Epoch, p: PageId, k: nat)
    requires Recoverable(s, e) && Quiet(s) && k in OpsOn(s.log, e.start, p) && k !in WinnersOn(s.log, e.start, p)
    requires k in ReachedOn(e, p)
    ensures k in UndoneOn(s.log, e.start, p, PageAt(s.disk, p).lastLsn)
  {
    hide LogOk, HistoriesOk, LiveCount, Total, UndoneAbove, Holds, PagesOk;
    assert LastLsn(s.log, s.log[k].txn) > 0;
    assert !Active(s.log, s.log[k].txn);
    assert Resolved(s, k);
    if Compensated(s.log, k) {
      var c :| Compensates(s.log, c, k);
      assert Replayed(s.log, c, p);
    } else {
      NoPageNothingReached(s, e, p, k);
    }
  }

  // A change that had reached the page was in effect there, so the page is there.
  lemma NoPageNothingReached(s: Store, e: Epoch, p: PageId, k: nat)
    requires Recoverable(s, e) && k in OpsOn(s.log, e.start, p) && k in ReachedOn(e, p) && !Compensated(s.log, k)
    ensures p in s.disk
  {
    hide LogOk, TxnsOk, EpochOk, Holds, History, LosersApart;
    var l := LedgerOf(s.log, e, p);
    assert PageOk(s.log, e, s.disk, p);
    OpsWellFormed(l);
    if p !in s.disk {
      var undone := UndoneOn(s.log, e.start, p, 0);
      NoEffectOnNoRows(l, EffectsOn(s.log, e, p, 0), undone, ReachedOn(e, p) * undone, k);
    }
  }

  lemma NoEffectOnNoRows(l: Ledger, E: set<nat>, N: set<nat>, D: set<nat>, k: nat)
    requires WellFormed(l) && Holds(l, [], E, N, D)
    ensures k !in E
  {
    hide LiveCount, Counts, Pending, OnlyKnown, BaseKept, Applied;
    if k in E {
      EffectSeen(l, [], E, D, k);
    }
  }

  lemma EffectSeen(l: Ledger, rows: seq<Row>, E: set<nat>, D: set<nat>, k: nat)
    requires WellFormed(l) && E <= l.ops.Keys && Applied(l, rows, E, D) && k in E
    ensures rows != []
  {
    hide IndexOf, Obsolete, Stuck, TakenAway;
    var id := if NewId(l.ops[k]) >= 0 then NewId(l.ops[k]) else OldId(l.ops[k]);
    if NewId(l.ops[k]) >= 0 {
      assert Written(l, rows, E, D, k);
    } else {
      assert Taken(l, rows, k);
    }
    assert IndexOf(rows, id) < |rows|;
  }
}
