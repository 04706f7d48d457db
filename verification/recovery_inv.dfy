/**
 What recovery can rely on, and keeps, at every point where the machine may stop: the durable log,
 the data pages on disk, and what is known to connect them since the last completed recovery.
 */
module RecoveryInvariant {
  import opened Types
  import opened PageRows
  import opened PageLedger
  import opened LogShape

  // Everything that survives a crash.
  datatype Store = Store(log: Log, disk: map<PageId, DataPage>)

  // Where the last completed recovery left the log and the rows it left on the pages. After a crash,
  // reached are the changes without a commit that had reached a page on disk; left are the rows that
  // earlier recoveries left over.
  datatype Epoch = Epoch(start: nat, base: map<PageId, seq<Row>>, reached: map<PageId, set<nat>>, left: map<PageId, seq<Row>>)

  // A page that is not on disk is read as a new, empty one.
  function PageAt(disk: map<PageId, DataPage>, p: PageId): DataPage {
    if p in disk then disk[p] else DataPage([], 0)
  }

  function BaseRows(e: Epoch, p: PageId): seq<Row> {
    if p in e.base then e.base[p] else []
  }

  function ReachedOn(e: Epoch, p: PageId): set<nat> {
    if p in e.reached then e.reached[p] else {}
  }

  function OpsOn(log: Log, start: nat, p: PageId): map<nat, Change> {
    map i: nat | start <= i < |log| && log[i].body.Do? && log[i].body.change.On(p) :: log[i].body.change
  }

  ghost function WinnersOn(log: Log, start: nat, p: PageId): set<nat> {
    set i | i in OpsOn(log, start, p) && Committed(log, log[i].txn)
  }

  ghost function LedgerOf(log: Log, e: Epoch, p: PageId): Ledger {
    Ledger(OpsOn(log, e.start, p), WinnersOn(log, e.start, p), BaseRows(e, p), |log|)
  }

  // Redo applies record i to page p, if the page has not seen it yet.
  ghost predicate Replayed(log: Log, i: nat, p: PageId) {
    && i < |log|
    && ((log[i].body.Do? && Committed(log, log[i].txn)) || log[i].body.Clr?)
    && log[i].body.change.On(p)
  }

  // The changes whose compensation is among the first n records.
  ghost function UndoneOn(log: Log, start: nat, p: PageId, n: nat): set<nat> {
    set i | i in OpsOn(log, start, p) && CompensatedBefore(log, i, n)
  }

  ghost predicate CompensatedBefore(log: Log, i: nat, n: nat) {
    exists c: nat :: c < n && Compensates(log, c, i)
  }

  // The changes in effect on a page with last LSN n: the committed ones up to it, and those that had
  // reached the page before the crash and are not undone yet.
  ghost function EffectsOn(log: Log, e: Epoch, p: PageId, n: nat): set<nat> {
    (set k | k in WinnersOn(log, e.start, p) && k < n) + (ReachedOn(e, p) - UndoneOn(log, e.start, p, n))
  }

  ghost predicate PageOk(log: Log, e: Epoch, disk: map<PageId, DataPage>, p: PageId) {
    var page, l := PageAt(disk, p), LedgerOf(log, e, p);
    var undone := UndoneOn(log, e.start, p, page.lastLsn);
    && page.lastLsn <= |log|
    && ReachedOn(e, p) <= l.ops.Keys - l.winners
    && Holds(l, page.rows, EffectsOn(log, e, p, page.lastLsn), undone, ReachedOn(e, p) * undone)
  }

  ghost predicate PagesOk(log: Log, e: Epoch, disk: map<PageId, DataPage>) {
    forall p :: PageOk(log, e, disk, p)
  }

  // What a transaction that does not commit wrote on page p is touched by no other transaction.
  ghost predicate LosersApart(log: Log, e: Epoch, p: PageId) {
    var l := LedgerOf(log, e, p);
    forall j: nat, k | k in l.ops && OldId(l.ops[k]) >= 0 && WrittenBy(l, j, k) && j !in l.winners :: log[j].txn == log[k].txn
  }

  lemma LosersApartUntouched(log: Log, e: Epoch, p: PageId)
    requires LosersApart(log, e, p)
    ensures LosersUntouched(LedgerOf(log, e, p))
  {
  }

  ghost predicate HistoriesOk(log: Log, e: Epoch) {
    forall p :: History(LedgerOf(log, e, p)) && LosersApart(log, e, p)
  }

  // Redo has nothing left to do for the first n records.
  ghost predicate CaughtUp(s: Store, n: nat) {
    forall p, i: nat | i < n && Replayed(s.log, i, p) :: p in s.disk && i < s.disk[p].lastLsn
  }

  // A change to a page that recovery will not find on disk: it needs no compensation.
  ghost predicate Skippable(s: Store, i: nat)
    requires i < |s.log| && s.log[i].body.Do?
  {
    && s.log[i].body.change.IsData()
    && s.log[i].body.change.page !in s.disk
    && (forall j :: !Replayed(s.log, j, s.log[i].body.change.page))
  }

  ghost predicate Resolved(s: Store, i: nat)
    requires i < |s.log| && s.log[i].body.Do?
  {
    Compensated(s.log, i) || Skippable(s, i)
  }

  // The LSN up to which undo, standing at LSN cur, has yet to compensate.
  function UndoBound(log: Log, cur: nat): nat
    requires cur <= |log|
  {
    if cur > 0 && log[cur - 1].body.Clr? then log[cur - 1].body.undoNext else cur
  }

  // Undo of transaction t may stand at LSN cur: everything above is resolved, nothing at or below
  // is compensated.
  ghost predicate UndoneAbove(s: Store, t: TxnId, cur: nat) {
    && cur <= |s.log|
    && (cur > 0 ==> s.log[cur - 1].txn == t && !s.log[cur - 1].body.Commit? && !s.log[cur - 1].body.Rollback?)
    && (forall i | 0 <= i < |s.log| && s.log[i].txn == t && s.log[i].body.Do? ::
          if i < UndoBound(s.log, cur) then !Compensated(s.log, i) else Resolved(s, i))
  }

  // A transaction with records in the log and neither a commit nor a rollback marker.
  ghost predicate Active(log: Log, t: TxnId) {
    LastLsn(log, t) > 0 && !Committed(log, t) && !RolledBack(log, t)
  }

  ghost predicate EpochOk(s: Store, e: Epoch) {
    && e.start <= |s.log|
    && (forall i, j | 0 <= i < e.start <= j < |s.log| :: s.log[i].txn != s.log[j].txn)
    && (forall i | 0 <= i < e.start :: Committed(s.log, s.log[i].txn) || RolledBack(s.log, s.log[i].txn))
    && (forall p | p in e.base :: p in s.disk)
    && CaughtUp(s, e.start)
  }

  ghost predicate TxnsOk(s: Store, e: Epoch) {
    && (forall t | Active(s.log, t) :: UndoneAbove(s, t, LastLsn(s.log, t)))
    && (forall i | e.start <= i < |s.log| && s.log[i].body.Do? && RolledBack(s.log, s.log[i].txn) :: Resolved(s, i))
  }

  // Holds of the log and disk after any crash, whether in normal operation or inside recovery.
  ghost predicate Recoverable(s: Store, e: Epoch) {
    && LogOk(s.log)
    && EpochOk(s, e)
    && HistoriesOk(s.log, e)
    && PagesOk(s.log, e, s.disk)
    && TxnsOk(s, e)
  }

  // ---- Redo of one record ----

  // The page after redo has applied record i to it.
  function Advanced(log: Log, i: nat, page: DataPage): DataPage
    requires i < |log|
  {
    match log[i].body
    case Do(change) => DataPage(Redo(page.rows, change), i + 1)
    case Clr(_, change) => DataPage(Undo(page.rows, change), i + 1)
    case _ => page
  }

  // Between a page's last LSN and record i there is no compensation for the page.
  lemma UndoneAdvance(log: Log, e: Epoch, disk: map<PageId, DataPage>, i: nat, p: PageId)
    requires i < |log| && CaughtUp(Store(log, disk), i) && PageAt(disk, p).lastLsn <= i
    ensures log[i].body.Do? ==> UndoneOn(log, e.start, p, i + 1) == UndoneOn(log, e.start, p, PageAt(disk, p).lastLsn)
    ensures LogOk(log) && log[i].body.Clr? ==> forall j | j in OpsOn(log, e.start, p) && Compensates(log, i, j) ::
              UndoneOn(log, e.start, p, i + 1) == UndoneOn(log, e.start, p, PageAt(disk, p).lastLsn) + {j}
  {
    hide LogOk;
    var last := PageAt(disk, p).lastLsn;
    forall k | k in UndoneOn(log, e.start, p, i + 1)
      ensures k in UndoneOn(log, e.start, p, last) || Compensates(log, i, k)
    {
      var c: nat :| c < i + 1 && Compensates(log, c, k);
      if c < i {
        assert Replayed(log, c, p);
      }
    }
    forall j | log[i].body.Clr? && LogOk(log) && j in OpsOn(log, e.start, p) && Compensates(log, i, j)
      ensures UndoneOn(log, e.start, p, i + 1) == UndoneOn(log, e.start, p, last) + {j}
    {
      forall k | Compensates(log, i, k) ensures k == j {
        CompensatesOne(log, i, j, k);
      }
    }
  }

  // Up to record i, all committed changes of the page have reached it.
  lemma WinnersReached(log: Log, e: Epoch, disk: map<PageId, DataPage>, i: nat, p: PageId)
    requires i <= |log| && CaughtUp(Store(log, disk), i) && PageAt(disk, p).lastLsn <= i
    ensures (set k | k in WinnersOn(log, e.start, p) && k < i)
         == (set k | k in WinnersOn(log, e.start, p) && k < PageAt(disk, p).lastLsn)
  {
    forall k | k in WinnersOn(log, e.start, p) && k < i ensures k < PageAt(disk, p).lastLsn {
      assert Replayed(log, k, p);
    }
  }

  lemma RedoDoStep(log: Log, e: Epoch, disk: map<PageId, DataPage>, i: nat, p: PageId)
    requires HistoriesOk(log, e) && PageOk(log, e, disk, p)
    requires CaughtUp(Store(log, disk), i) && e.start <= i && Replayed(log, i, p) && log[i].body.Do?
    requires PageAt(disk, p).lastLsn <= i
    ensures PageOk(log, e, disk[p := Advanced(log, i, PageAt(disk, p))], p)
  {
    hide Holds, History, LosersApart, LosersUntouched, Redo, Has, LiveCount, UndoneOn, CaughtUp;
    LosersApartUntouched(log, e, p);
    var l, page, R := LedgerOf(log, e, p), PageAt(disk, p), ReachedOn(e, p);
    var N := UndoneOn(log, e.start, p, page.lastLsn);
    var E := EffectsOn(log, e, p, page.lastLsn);
    WinnersReached(log, e, disk, i, p);
    if OldId(l.ops[i]) >= 0 {
      forall j | WrittenBy(l, j, i) ensures j in E {
        LoserTakes(l, j, i);
      }
      TargetPresent(l, page.rows, E, N, R * N, i);
    }
    NotUndone(log, e.start, p, page.lastLsn, i);
    RedoHolds(l, page.rows, E, N, R * N, i);
    UndoneAdvance(log, e, disk, i, p);
    assert EffectsOn(log, e, p, i + 1) == E + {i};
  }

  lemma NotUndone(log: Log, start: nat, p: PageId, n: nat, i: nat)
    requires n <= i
    ensures i !in UndoneOn(log, start, p, n)
  {
  }

  lemma RedoClrStep(log: Log, e: Epoch, disk: map<PageId, DataPage>, i: nat, p: PageId)
    requires LogOk(log) && HistoriesOk(log, e) && PageOk(log, e, disk, p)
    requires EpochOk(Store(log, disk), e) && TxnsOk(Store(log, disk), e)
    requires CaughtUp(Store(log, disk), i) && Replayed(log, i, p) && log[i].body.Clr?
    requires PageAt(disk, p).lastLsn <= i
    ensures PageOk(log, e, disk[p := Advanced(log, i, PageAt(disk, p))], p)
  {
    hide Holds, History, LosersApart, LosersUntouched, Undo, Has, LiveCount, UndoneOn, LogOk, EpochOk, TxnsOk, WrittenBy, CaughtUp;
    var l, page, R := LedgerOf(log, e, p), PageAt(disk, p), ReachedOn(e, p);
    var N := UndoneOn(log, e.start, p, page.lastLsn);
    var E := EffectsOn(log, e, p, page.lastLsn);
    var j := ClrTarget(log, e, disk, i, p);
    forall m | m in l.ops && OldId(l.ops[m]) >= 0 && WrittenBy(l, j, m) ensures m in N {
      LaterUndoneFirst(log, e, disk, i, p, j, m);
    }
    UndoHolds(l, page.rows, E, N, R * N, j);
    UndoneAdvance(log, e, disk, i, p);
    WinnersReached(log, e, disk, i, p);
    assert EffectsOn(log, e, p, i + 1) == E - {j};
    assert R * (N + {j}) == if j in E then R * N + {j} else R * N;
  }

  // The change that a compensation on page p takes out: a loser's, not taken out before.
  lemma ClrTarget(log: Log, e: Epoch, disk: map<PageId, DataPage>, i: nat, p: PageId) returns (j: nat)
    requires LogOk(log) && EpochOk(Store(log, disk), e) && Replayed(log, i, p) && log[i].body.Clr?
    requires PageAt(disk, p).lastLsn <= i
    ensures Compensates(log, i, j) && j in OpsOn(log, e.start, p) && log[j].body.change == log[i].body.change
    ensures j !in WinnersOn(log, e.start, p)
    ensures j !in UndoneOn(log, e.start, p, PageAt(disk, p).lastLsn)
  {
    j :| Compensates(log, i, j);
    CompensatedNotCommitted(log, i);
    forall c | Compensates(log, c, j) ensures c == i {
      CompensationUnique(log, c, i, j);
    }
    if i < e.start {
      assert false;
    }
  }

  // When the compensation of j is redone, that of whatever took away what j wrote has reached the page already.
  lemma LaterUndoneFirst(log: Log, e: Epoch, disk: map<PageId, DataPage>, i: nat, p: PageId, j: nat, m: nat)
    requires LogOk(log) && LosersApart(log, e, p) && TxnsOk(Store(log, disk), e)
    requires CaughtUp(Store(log, disk), i) && Replayed(log, i, p) && log[i].body.Clr? && Compensates(log, i, j)
    requires j in OpsOn(log, e.start, p) && j !in WinnersOn(log, e.start, p)
    requires var l := LedgerOf(log, e, p); m in l.ops && OldId(l.ops[m]) >= 0 && WrittenBy(l, j, m)
    ensures m in UndoneOn(log, e.start, p, PageAt(disk, p).lastLsn)
  {
    hide LogOk, TxnsOk, CaughtUp, UndoneOn, LosersApart;
    OwnLater(log, e, p, j, m);
    LaterCompensated(Store(log, disk), e, i, p, j, m);
    var c :| Compensates(log, c, m);
    CompensatedEarlier(log, c, m, i, j);
    SeenByPage(Store(log, disk), i, p, c, m);
    InUndone(log, e.start, p, PageAt(disk, p).lastLsn, m, c);
  }

  lemma OwnLater(log: Log, e: Epoch, p: PageId, j: nat, m: nat)
    requires LosersApart(log, e, p) && j !in WinnersOn(log, e.start, p)
    requires var l := LedgerOf(log, e, p); m in l.ops && OldId(l.ops[m]) >= 0 && WrittenBy(l, j, m)
    ensures j < m < |log| && e.start <= m && log[j].txn == log[m].txn && log[m].body.Do? && log[m].body.change.On(p)
  {
  }

  // Undo goes backwards, so above a compensated change of an open transaction all is compensated.
  lemma LaterCompensated(s: Store, e: Epoch, i: nat, p: PageId, j: nat, m: nat)
    requires LogOk(s.log) && TxnsOk(s, e) && Replayed(s.log, i, p) && s.log[i].body.Clr? && Compensates(s.log, i, j)
    requires j < m < |s.log| && e.start <= m && s.log[j].txn == s.log[m].txn
    requires s.log[m].body.Do? && s.log[m].body.change.On(p)
    ensures Compensated(s.log, m)
  {
    hide LogOk, LastLsn, Compensates, Committed, RolledBack, EndingsOk;
    var t := s.log[i].txn;
    SameTxn(s.log, i, j);
    CompensatedNotCommitted(s.log, i);
    HasRecord(s.log, i);
    assert Compensated(s.log, j);
    assert Resolved(s, m);
    assert !Skippable(s, m);
  }

  lemma SameTxn(log: Log, i: nat, j: nat)
    requires Compensates(log, i, j)
    ensures j < i < |log| && log[j].txn == log[i].txn && log[j].body.Do?
  {
  }

  lemma HasRecord(log: Log, i: nat)
    requires i < |log|
    ensures LastLsn(log, log[i].txn) > 0
  {
  }

  lemma CompensatedEarlier(log: Log, c: nat, m: nat, i: nat, j: nat)
    requires LogOk(log) && Compensates(log, c, m) && Compensates(log, i, j) && j < m && log[j].txn == log[m].txn
    ensures c < i && log[c].body.Clr? && log[c].body.change == log[m].body.change
  {
    hide EndingsOk, Numbered, ChainsOk;
    PrevUnique(log, j, m);
    if c == i {
      CompensatesOne(log, i, j, m);
    }
  }

  lemma SeenByPage(s: Store, i: nat, p: PageId, c: nat, m: nat)
    requires CaughtUp(s, i) && c < i && c < |s.log| && s.log[c].body.Clr? && s.log[c].body.change.On(p)
    ensures c < PageAt(s.disk, p).lastLsn
  {
    assert Replayed(s.log, c, p);
  }

  lemma InUndone(log: Log, start: nat, p: PageId, n: nat, m: nat, c: nat)
    requires m in OpsOn(log, start, p) && Compensates(log, c, m) && c < n
    ensures m in UndoneOn(log, start, p, n)
  {
  }
}
