/**
 Runs of recovery, as sequences of durable states. A crash inside recovery changes nothing that is
 durable, so a run cut short and started again, any number of times, is still such a sequence.
 */
module RecoveryRuns {
  import opened Types
  import opened PageRows
  import opened PageLedger
  import opened LogShape
  import opened RecoveryInvariant
  import opened RecoverySteps

  ghost predicate RedoWrite(s: Store, s': Store, i: nat, p: PageId) {
    && CaughtUp(s, i) && Replayed(s.log, i, p)
    && PageAt(s.disk, p).lastLsn <= i
    && s' == WithPage(s, p, Advanced(s.log, i, PageAt(s.disk, p)))
  }

  ghost predicate ClrWrite(s: Store, s': Store, t: TxnId, cur: nat) {
    && CaughtUp(s, |s.log|) && Active(s.log, t) && UndoneAbove(s, t, cur)
    && 0 < cur <= |s.log| && s.log[cur - 1].body.Do?
    && (s.log[cur - 1].body.change.IsData() ==> s.log[cur - 1].body.change.page in s.disk)
    && s' == WithRecord(s, ClrFor(s.log, cur))
  }

  ghost predicate RollbackWrite(s: Store, s': Store, t: TxnId) {
    && CaughtUp(s, |s.log|) && Active(s.log, t) && UndoneAbove(s, t, 0)
    && s' == WithRecord(s, RollbackFor(s.log, t))
  }

  ghost predicate RecStep(s: Store, s': Store) {
    || (exists i: nat, p :: RedoWrite(s, s', i, p))
    || (exists t, cur: nat :: ClrWrite(s, s', t, cur))
    || (exists t :: RollbackWrite(s, s', t))
  }

  ghost predicate RecPath(stores: seq<Store>) {
    && stores != []
    && forall i :: 0 <= i < |stores| - 1 ==> RecStep(stores[i], stores[i + 1])
  }

  function Last(stores: seq<Store>): Store
    requires stores != []
  {
    stores[|stores| - 1]
  }

  // What the committed transactions alone put on page p: their changes replayed in log order on
  // the rows left by the last completed recovery.
  ghost function CommittedRows(log: Log, e: Epoch, p: PageId): seq<Row> {
    var l := LedgerOf(log, e, p);
    Replay(l, l.winners, l.size)
  }

  // What undoing leaves over on page p, of the changes without a commit that had reached it.
  ghost function LeftOver(log: Log, e: Epoch, p: PageId): seq<Row> {
    Left(OpsOn(log, e.start, p), ReachedOn(e, p), |log|)
  }

  // Both show the same token tuples equally often.
  ghost predicate SameShown(a: seq<Row>, b: seq<Row>) {
    forall t :: LiveCount(a, t) == LiveCount(b, t)
  }

  // What a completed recovery shows on page p.
  ghost function RecoveredView(log: Log, e: Epoch, p: PageId): seq<Row> {
    CommittedRows(log, e, p) + LeftOver(log, e, p)
  }

  // Two changes without a commit had reached the page, the later one an update of the version that the
  // earlier one wrote.
  ghost predicate OwnUpdateReached(log: Log, e: Epoch, p: PageId) {
    exists j: nat, k: nat :: OwnUpdate(LedgerOf(log, e, p), ReachedOn(e, p), j, k)
  }

  // Exactly then a row too many is left.
  lemma LeftOverWhen(s: Store, e: Epoch, p: PageId)
    requires Recoverable(s, e)
    ensures LeftOver(s.log, e, p) != [] <==> OwnUpdateReached(s.log, e, p)
    ensures AllLive(LeftOver(s.log, e, p))
  {
    hide LogOk, EpochOk, TxnsOk, History, Left, OwnUpdate, Holds;
    assert PageOk(s.log, e, s.disk, p);
    var l, R := LedgerOf(s.log, e, p), ReachedOn(e, p);
    assert History(l);
    LeftEmpty(l, R, |s.log|);
    LeftLive(l, R, |s.log|);
    forall j: nat, k: nat | OwnUpdate(l, R, j, k) ensures j < |s.log| {
      OwnUpdateIn(l, R, j, k);
    }
  }

  lemma OwnUpdateIn(l: Ledger, D: set<nat>, j: nat, k: nat)
    requires History(l) && OwnUpdate(l, D, j, k)
    ensures j < l.size
  {
  }

  // So recovery shows the committed rows, all of them and no others, if and only if no such update had
  // reached the page before the crash.
  lemma ViewIsCommitted(s: Store, e: Epoch, p: PageId)
    requires Recoverable(s, e)
    ensures SameShown(RecoveredView(s.log, e, p), CommittedRows(s.log, e, p)) <==> !OwnUpdateReached(s.log, e, p)
  {
    hide CommittedRows, LeftOver, OwnUpdateReached, Recoverable;
    LeftOverWhen(s, e, p);
    JoinShows(CommittedRows(s.log, e, p), LeftOver(s.log, e, p));
  }

  lemma JoinShows(a: seq<Row>, b: seq<Row>)
    requires AllLive(b)
    ensures SameShown(a + b, a) <==> b == []
  {
    hide LiveCount;
    ShowsNothing(b);
    forall t ensures LiveCount(a + b, t) == LiveCount(a, t) + LiveCount(b, t) {
      LiveCountConcat(a, b, t);
    }
    if b == [] {
      assert a + b == a;
    } else {
      var t :| LiveCount(b, t) != 0;
      assert LiveCount(a + b, t) != LiveCount(a, t);
    }
  }

  lemma StepKeepsView(s: Store, s': Store, e: Epoch, p: PageId)
    requires Recoverable(s, e) && RecStep(s, s')
    ensures Recoverable(s', e)
    ensures CommittedRows(s'.log, e, p) == CommittedRows(s.log, e, p)
    ensures LeftOver(s'.log, e, p) == LeftOver(s.log, e, p)
  {
    hide Recoverable, CaughtUp, Active, UndoneAbove, LedgerOf;
    if i: nat, q :| RedoWrite(s, s', i, q) {
      RedoKeeps(s, e, i, q);
    } else if t, cur: nat :| ClrWrite(s, s', t, cur) {
      ClrKeeps(s, e, t, cur);
      GrownView(s.log, e, ClrFor(s.log, cur), p);
    } else {
      var t :| RollbackWrite(s, s', t);
      RollbackKeeps(s, e, t);
      GrownView(s.log, e, RollbackFor(s.log, t), p);
    }
  }

  lemma GrownView(log: Log, e: Epoch, r: WalRecord, p: PageId)
    requires r.body.Clr? || r.body.Rollback?
    ensures CommittedRows(log + [r], e, p) == CommittedRows(log, e, p)
    ensures LeftOver(log + [r], e, p) == LeftOver(log, e, p)
  {
    hide OpsOn, WinnersOn, UndoneOn, Redo, Stuck;
    GrownLedger(log, e, r, p);
    var l, l' := LedgerOf(log, e, p), LedgerOf(log + [r], e, p);
    assert |log| !in l.ops by { NotYet(log, e, p); }
    ReplayGrown(l, l', |log|);
  }

  lemma NotYet(log: Log, e: Epoch, p: PageId)
    ensures |log| !in OpsOn(log, e.start, p)
  {
  }

  lemma {:induction false} ReplayGrown(l: Ledger, l': Ledger, n: nat)
    requires l'.ops == l.ops && l'.winners == l.winners && l'.base == l.base
    ensures Replay(l', l'.winners, n) == Replay(l, l.winners, n)
  {
    hide Redo;
    if n > 0 {
      ReplayGrown(l, l', n - 1);
    }
  }

  // Every state a run of recovery passes through can be recovered from, with the same outcome.
  lemma {:induction false} PathRecoverable(stores: seq<Store>, e: Epoch, i: nat, p: PageId)
    requires RecPath(stores) && Recoverable(stores[0], e) && i < |stores|
    ensures Recoverable(stores[i], e)
    ensures CommittedRows(stores[i].log, e, p) == CommittedRows(stores[0].log, e, p)
    ensures LeftOver(stores[i].log, e, p) == LeftOver(stores[0].log, e, p)
  {
    hide Recoverable, RecStep, CommittedRows, LeftOver;
    if i > 0 {
      PathRecoverable(stores, e, i - 1, p);
      StepKeepsView(stores[i - 1], stores[i], e, p);
    }
  }

  // However often recovery is cut short and started again, when it completes each page shows
  // exactly what the committed transactions put there, and what undoing has left over.
  lemma RecoveredRows(stores: seq<Store>, e: Epoch, p: PageId, t: seq<DataToken>)
    requires RecPath(stores) && Recoverable(stores[0], e) && Quiet(Last(stores))
    ensures LiveCount(PageAt(Last(stores).disk, p).rows, t) == LiveCount(RecoveredView(stores[0].log, e, p), t)
  {
    hide Recoverable, RecStep, Quiet, LiveCount, Total, Replay, Left;
    PathRecoverable(stores, e, |stores| - 1, p);
    FinishedPage(Last(stores), e, p, t);
    LiveCountConcat(CommittedRows(stores[0].log, e, p), LeftOver(stores[0].log, e, p), t);
  }

  // The page shows exactly what the committed transactions put there.
  ghost predicate ShowsCommitted(pages: map<PageId, DataPage>, log: Log, e: Epoch, p: PageId) {
    SameShown(PageAt(pages, p).rows, CommittedRows(log, e, p))
  }

  // Those are the committed rows alone if and only if no transaction without a commit had updated a row
  // version of its own on that page before the crash.
  lemma RecoveredExactly(stores: seq<Store>, e: Epoch, p: PageId)
    requires RecPath(stores) && Recoverable(stores[0], e) && Quiet(Last(stores))
    ensures ShowsCommitted(Last(stores).disk, stores[0].log, e, p) <==> !OwnUpdateReached(stores[0].log, e, p)
  {
    hide Recoverable, RecStep, Quiet, LiveCount, CommittedRows, RecoveredView, OwnUpdateReached, SameShown;
    forall t ensures LiveCount(PageAt(Last(stores).disk, p).rows, t) == LiveCount(RecoveredView(stores[0].log, e, p), t) {
      RecoveredRows(stores, e, p, t);
    }
    ViewIsCommitted(stores[0], e, p);
    SameView(PageAt(Last(stores).disk, p).rows, RecoveredView(stores[0].log, e, p), CommittedRows(stores[0].log, e, p));
  }

  lemma SameView(a: seq<Row>, b: seq<Row>, c: seq<Row>)
    requires forall t :: LiveCount(a, t) == LiveCount(b, t)
    ensures SameShown(a, c) <==> SameShown(b, c)
  {
    hide LiveCount;
    if SameShown(a, c) {
      forall t ensures LiveCount(b, t) == LiveCount(c, t) {
        assert LiveCount(a, t) == LiveCount(c, t);
      }
    }
  }

  // An interrupted and restarted recovery ends with the same live rows as an uninterrupted one.
  lemma Restartable(straight: seq<Store>, interrupted: seq<Store>, e: Epoch, p: PageId, t: seq<DataToken>)
    requires RecPath(straight) && RecPath(interrupted) && straight[0] == interrupted[0]
    requires Recoverable(straight[0], e) && Quiet(Last(straight)) && Quiet(Last(interrupted))
    ensures LiveCount(PageAt(Last(straight).disk, p).rows, t) == LiveCount(PageAt(Last(interrupted).disk, p).rows, t)
  {
    hide Recoverable, RecStep, RecPath, Quiet, LiveCount, RecoveredView;
    RecoveredRows(straight, e, p, t);
    RecoveredRows(interrupted, e, p, t);
  }

  // After a completed recovery there is no step left to take.
  lemma QuietIsFinal(s: Store, s': Store)
    requires Quiet(s)
    ensures !RecStep(s, s')
  {
    hide UndoneAbove, Active, WithPage, WithRecord;
    forall i: nat, p ensures !RedoWrite(s, s', i, p) {
      if Replayed(s.log, i, p) {
        assert p in s.disk && i < s.disk[p].lastLsn;
      }
    }
  }

  // ---- What a completed recovery leaves in the log ----

  // Every transaction that was open is closed by exactly one rollback marker, and each of its
  // changes whose page is on disk is compensated by exactly one record.
  lemma LosersClosed(stores: seq<Store>, e: Epoch, t: TxnId)
    requires RecPath(stores) && Recoverable(stores[0], e) && Quiet(Last(stores)) && Active(stores[0].log, t)
    ensures var s := Last(stores);
      && (exists m :: OnlyRollback(s.log, t, m))
      && (forall i | 0 <= i < |s.log| && s.log[i].txn == t && s.log[i].body.Do?
            && (s.log[i].body.change.IsData() ==> s.log[i].body.change.page in s.disk) ::
            exists c :: OnlyCompensation(s.log, c, i))
  {
    hide HistoriesOk, PagesOk, RecStep, CommittedRows, LeftOver, Quiet;
    var s := Last(stores);
    PathRecoverable(stores, e, |stores| - 1, 0);
    StillOpenOrClosed(stores, e, t, |stores| - 1);
    ClosedByOne(s, e, t);
  }

  ghost predicate OnlyRollback(log: Log, t: TxnId, m: nat) {
    && m < |log| && log[m].txn == t && log[m].body.Rollback?
    && forall k :: 0 <= k < |log| && log[k].txn == t && log[k].body.Rollback? ==> k == m
  }

  ghost predicate OnlyCompensation(log: Log, c: nat, i: nat) {
    Compensates(log, c, i) && forall d :: Compensates(log, d, i) ==> d == c
  }

  lemma {:induction false} StillOpenOrClosed(stores: seq<Store>, e: Epoch, t: TxnId, n: nat)
    requires RecPath(stores) && Recoverable(stores[0], e) && Active(stores[0].log, t) && n < |stores|
    ensures Active(stores[n].log, t) || RolledBack(stores[n].log, t)
    ensures OpenSince(stores[n].log, e, t)
  {
    hide Recoverable, RecStep, LastLsn;
    if n == 0 {
      OpenNow(stores[0], e, t);
    } else {
      StillOpenOrClosed(stores, e, t, n - 1);
      PathRecoverable(stores, e, n - 1, 0);
      StepKeepsOpen(stores[n - 1], stores[n], e, t);
    }
  }

  // All records of t were written since the last completed recovery.
  ghost predicate OpenSince(log: Log, e: Epoch, t: TxnId) {
    forall i | 0 <= i < |log| && log[i].txn == t :: e.start <= i
  }

  lemma OpenNow(s: Store, e: Epoch, t: TxnId)
    requires Recoverable(s, e) && Active(s.log, t)
    ensures OpenSince(s.log, e, t)
  {
    hide LogOk, HistoriesOk, PagesOk, TxnsOk, CaughtUp;
  }

  lemma StepKeepsOpen(s: Store, s': Store, e: Epoch, t: TxnId)
    requires RecStep(s, s') && (Active(s.log, t) || RolledBack(s.log, t)) && OpenSince(s.log, e, t)
    requires e.start <= |s.log|
    ensures (Active(s'.log, t) || RolledBack(s'.log, t)) && OpenSince(s'.log, e, t)
  {
    hide CaughtUp, UndoneAbove, Committed, RolledBack, LastLsn, Compensates;
    if t', cur: nat :| ClrWrite(s, s', t', cur) {
      GrownLog(s.log, ClrFor(s.log, cur));
    } else if t' :| RollbackWrite(s, s', t') {
      GrownLog(s.log, RollbackFor(s.log, t'));
    }
  }

  lemma ClosedByOne(s: Store, e: Epoch, t: TxnId)
    requires LogOk(s.log) && TxnsOk(s, e) && Quiet(s) && OpenSince(s.log, e, t)
    requires Active(s.log, t) || RolledBack(s.log, t)
    ensures exists m :: OnlyRollback(s.log, t, m)
    ensures forall i | 0 <= i < |s.log| && s.log[i].txn == t && s.log[i].body.Do?
              && (s.log[i].body.change.IsData() ==> s.log[i].body.change.page in s.disk) ::
              exists c :: OnlyCompensation(s.log, c, i)
  {
    hide LastLsn, CaughtUp, UndoneAbove, Chained, ClrsOk;
    assert RolledBack(s.log, t);
    var m: nat :| m < |s.log| && s.log[m].txn == t && s.log[m].body.Rollback?;
    assert OnlyRollback(s.log, t, m);
    forall i | 0 <= i < |s.log| && s.log[i].txn == t && s.log[i].body.Do?
      && (s.log[i].body.change.IsData() ==> s.log[i].body.change.page in s.disk)
      ensures exists c :: OnlyCompensation(s.log, c, i)
    {
      assert Resolved(s, i);
      var c :| Compensates(s.log, c, i);
      forall d | Compensates(s.log, d, i) ensures d == c {
        CompensationUnique(s.log, c, d, i);
      }
      assert OnlyCompensation(s.log, c, i);
    }
  }

  // Compensations run in reverse: of two compensated changes of a transaction the later one comes
  // first.
  lemma ReverseOrder(log: Log, c: nat, d: nat, i: nat, j: nat)
    requires LogOk(log) && Compensates(log, c, i) && Compensates(log, d, j)
    requires log[i].txn == log[j].txn && i < j
    ensures d < c
  {
    PrevUnique(log, i, j);
    LaterUndoesEarlier(log, c, d);
  }

  // A later compensation of the same transaction leads further back.
  lemma LaterUndoesEarlier(log: Log, c: nat, d: nat)
    requires LogOk(log) && c < |log| && d < |log| && log[c].txn == log[d].txn && log[c].body.Clr? && log[d].body.Clr?
    requires log[c].body.undoNext < log[d].body.undoNext
    ensures d < c
  {
    hide ChainsOk, EndingsOk, Numbered;
  }
}
