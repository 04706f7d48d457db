/**
 Whole runs of the engine: transactions work on pages in memory and on the tail of the log, the log
 is flushed, pages are written once the log covers them, the machine stops, and recovery, itself
 stopped any number of times, brings it back up.
 */
module EngineRuns {
  import opened Types
  import opened PageRows
  import opened PageLedger
  import opened LogShape
  import opened RecoveryInvariant
  import opened RecoverySteps
  import opened RecoveryRuns

  // The first durable records of log are on disk; mem holds the current pages.
  datatype Machine =
    | Up(log: Log, durable: nat, mem: map<PageId, DataPage>, disk: map<PageId, DataPage>, epoch: Epoch)
    | Down(store: Store, epoch: Epoch)

  const Start := Up([], 0, map[], map[], Epoch(0, map[], map[], map[]))

  // ---- Steps in normal operation ----

  // The next record of t: the log manager numbers it, and it names the one before it in t.
  function NewRecord(log: Log, t: TxnId, body: Body): WalRecord {
    WalRecord(|log| + 1, LastLsn(log, t), t, body)
  }

  ghost predicate BeginStep(s: Machine, s': Machine, t: TxnId) {
    s.Up? && LastLsn(s.log, t) == 0 && s' == s.(log := s.log + [NewRecord(s.log, t, Begin)])
  }

  ghost predicate CommitStep(s: Machine, s': Machine, t: TxnId) {
    s.Up? && Active(s.log, t) && s' == s.(log := s.log + [NewRecord(s.log, t, Commit)])
  }

  ghost predicate MetaStep(s: Machine, s': Machine, t: TxnId, c: Change) {
    s.Up? && Active(s.log, t) && !c.IsData() && s' == s.(log := s.log + [NewRecord(s.log, t, Do(c))])
  }

  // A row change may go ahead when the row version it adds has a new id on the page, and the one
  // it makes obsolete is live there and matches the before image.
  ghost predicate MayChange(rows: seq<Row>, c: Change) {
    && (NewId(c) >= 0 ==> !Has(rows, NewId(c)) && !Obsolete(c.after))
    && (OldId(c) >= 0 ==> && Has(rows, OldId(c)) && !Obsolete(Get(rows, OldId(c)))
                          && Get(rows, OldId(c)).tokens == c.before.tokens)
  }

  ghost predicate ChangeStep(s: Machine, s': Machine, t: TxnId, c: Change) {
    && s.Up? && Active(s.log, t) && c.IsData() && MayChange(PageAt(s.mem, c.page).rows, c)
    && s' == s.(log := s.log + [NewRecord(s.log, t, Do(c))],
                mem := s.mem[c.page := DataPage(Redo(PageAt(s.mem, c.page).rows, c), |s.log| + 1)])
  }

  // insert_row stamps the page with the LSN of the table record that follows the row's.
  ghost predicate StampStep(s: Machine, s': Machine, p: PageId) {
    s.Up? && p in s.mem && s' == s.(mem := s.mem[p := s.mem[p].(lastLsn := |s.log|)])
  }

  ghost predicate FlushStep(s: Machine, s': Machine) {
    s.Up? && s'.Up? && s.durable <= s'.durable <= |s.log| && s' == s.(durable := s'.durable)
  }

  // A page goes to disk only when the log is durable up to its last LSN.
  ghost predicate WriteStep(s: Machine, s': Machine, p: PageId) {
    s.Up? && p in s.mem && s.mem[p].lastLsn <= s.durable && s' == s.(disk := s.disk[p := s.mem[p]])
  }

  // ---- Stopping and recovering ----

  // The changes without a commit that have reached the pages on disk.
  ghost function ReachedAt(log: Log, start: nat, disk: map<PageId, DataPage>): map<PageId, set<nat>> {
    map p | p in disk :: set k | k in OpsOn(log, start, p) && k !in WinnersOn(log, start, p) && k < disk[p].lastLsn
  }

  // The hypothesis under which recovery is claimed to be right: no change in the durable log touches a
  // row version written, since the last recovery, by another transaction without a commit.
  ghost predicate CrashStep(s: Machine, s': Machine) {
    && s.Up? && s.durable <= |s.log|
    && (forall p :: LosersApart(s.log[..s.durable], s.epoch, p))
    && s' == Down(Store(s.log[..s.durable], s.disk), s.epoch.(reached := ReachedAt(s.log[..s.durable], s.epoch.start, s.disk)))
  }

  ghost predicate RecoveryStep(s: Machine, s': Machine) {
    s.Down? && s'.Down? && s'.epoch == s.epoch && RecStep(s.store, s'.store)
  }

  // The rows that earlier recoveries left over on page p.
  function LeftBefore(e: Epoch, p: PageId): seq<Row> {
    if p in e.left then e.left[p] else []
  }

  ghost function NewEpoch(store: Store, e: Epoch): Epoch {
    Epoch(|store.log|, map p | p in store.disk :: store.disk[p].rows, map[],
          map p | p in store.disk.Keys + e.left.Keys + e.reached.Keys :: LeftBefore(e, p) + LeftOver(store.log, e, p))
  }

  ghost predicate RestartStep(s: Machine, s': Machine) {
    s.Down? && Quiet(s.store) && s' == Up(s.store.log, |s.store.log|, s.store.disk, s.store.disk, NewEpoch(s.store, s.epoch))
  }

  ghost predicate Next(s: Machine, s': Machine) {
    || (exists t :: BeginStep(s, s', t))
    || (exists t :: CommitStep(s, s', t))
    || (exists t, c :: MetaStep(s, s', t, c))
    || (exists t, c :: ChangeStep(s, s', t, c))
    || (exists p :: StampStep(s, s', p))
    || FlushStep(s, s')
    || (exists p :: WriteStep(s, s', p))
    || CrashStep(s, s')
    || RecoveryStep(s, s')
    || RestartStep(s, s')
  }

  // ---- The invariant in normal operation ----

  // All changes of a page, whoever made them.
  ghost function AllOf(log: Log, e: Epoch, p: PageId): Ledger {
    Ledger(OpsOn(log, e.start, p), OpsOn(log, e.start, p).Keys, BaseRows(e, p), |log|)
  }

  // The page carries the effects of exactly its first n changes.
  ghost predicate ShowsFirst(log: Log, e: Epoch, p: PageId, page: DataPage, n: nat) {
    page.rows == Replay(AllOf(log, e, p), OpsOn(log, e.start, p).Keys, n)
  }

  ghost predicate NoRecoveryRecords(log: Log, start: nat) {
    forall i | start <= i < |log| :: !log[i].body.Clr? && !log[i].body.Rollback?
  }

  ghost predicate Separated(log: Log, start: nat) {
    && (forall i, j | 0 <= i < start <= j < |log| :: log[i].txn != log[j].txn)
    && (forall i | 0 <= i < start && i < |log| :: Committed(log, log[i].txn) || RolledBack(log, log[i].txn))
  }

  ghost predicate PageUp(s: Machine, p: PageId)
    requires s.Up?
  {
    && History(AllOf(s.log, s.epoch, p))
    && ShowsFirst(s.log, s.epoch, p, PageAt(s.mem, p), |s.log|)
    && ShowsFirst(s.log, s.epoch, p, PageAt(s.disk, p), PageAt(s.disk, p).lastLsn)
    && PageAt(s.disk, p).lastLsn <= PageAt(s.mem, p).lastLsn <= |s.log|
    && PageAt(s.disk, p).lastLsn <= s.durable
    && (forall k | k in OpsOn(s.log, s.epoch.start, p) :: k < PageAt(s.mem, p).lastLsn)
    && (p in s.disk ==> p in s.mem)
    && (p in s.epoch.base ==> p in s.disk)
  }

  ghost predicate UpInv(s: Machine)
    requires s.Up?
  {
    && LogOk(s.log)
    && s.epoch.start <= s.durable <= |s.log|
    && NoRecoveryRecords(s.log, s.epoch.start)
    && Separated(s.log, s.epoch.start)
    && CaughtUp(Store(s.log, s.disk), s.epoch.start)
    && forall p :: PageUp(s, p)
  }

  // The rows at the last recovery are what the transactions committed before it put there, and what
  // recoveries have left over.
  ghost predicate BaseIsCommitted(log: Log, e: Epoch) {
    forall p, t :: LiveCount(BaseRows(e, p), t)
                == Total(OpsOn(log, 0, p), WinnersOn(log, 0, p), e.start, t) + LiveCount(LeftBefore(e, p), t)
  }

  ghost predicate Inv(s: Machine) {
    match s
    case Up(log, _, _, _, epoch) => UpInv(s) && BaseIsCommitted(log, epoch)
    case Down(store, epoch) => Recoverable(store, epoch) && BaseIsCommitted(store.log, epoch)
  }

  // ---- Replays that agree ----

  lemma {:induction false} ReplayAgree(l: Ledger, S: set<nat>, l': Ledger, S': set<nat>, n: nat)
    requires l'.base == l.base
    requires forall k: nat | k < n :: (k in S && k in l.ops <==> k in S' && k in l'.ops) && (k in S && k in l.ops ==> l.ops[k] == l'.ops[k])
    ensures Replay(l, S, n) == Replay(l', S', n)
  {
    hide Redo;
    if n > 0 {
      ReplayAgree(l, S, l', S', n - 1);
    }
  }

  // With every transaction counted as a winner, the current rows carry all changes.
  lemma AllHold(l: Ledger, n: nat)
    requires History(l) && l.winners == l.ops.Keys
    ensures Holds(l, Replay(l, l.ops.Keys, n), Below(l.ops.Keys, n), {}, {})
  {
    hide Has, Get, Holds, Replay;
    assert Closed(l, l.ops.Keys);
    ReplayHolds(l, l.ops.Keys, n);
    assert l.ops.Keys - l.ops.Keys == {};
  }

  // ---- The log in normal operation ----

  ghost predicate MayAppend(log: Log, t: TxnId, body: Body) {
    match body
    case Begin => LastLsn(log, t) == 0
    case Commit => Active(log, t)
    case Do(_) => Active(log, t)
    case _ => false
  }

  lemma AppendKeepsLog(log: Log, start: nat, t: TxnId, body: Body)
    requires LogOk(log) && start <= |log| && NoRecoveryRecords(log, start) && Separated(log, start)
    requires MayAppend(log, t, body)
    ensures LogOk(log + [NewRecord(log, t, body)])
  {
    hide Separated, NoRecoveryRecords, ChainsOk, EndingsOk, ClrsOk, Chained;
    var r := NewRecord(log, t, body);
    var last := LastLsn(log, t);
    LastIsOpen(log, start, t, body);
    AppendKeepsChainsOk(log, r);
    AppendKeepsClrsOk(log, r);
    AppendKeepsEndings(log, start, t, body);
  }

  lemma LastIsOpen(log: Log, start: nat, t: TxnId, body: Body)
    requires LogOk(log) && start <= |log| && NoRecoveryRecords(log, start) && Separated(log, start)
    requires MayAppend(log, t, body)
    ensures forall i | 0 <= i < |log| && log[i].txn == t :: start <= i && (log[i].body.Begin? || log[i].body.Do?)
  {
    hide ChainsOk, ClrsOk, EndingsOk;
    forall i | 0 <= i < |log| && log[i].txn == t ensures start <= i && (log[i].body.Begin? || log[i].body.Do?) {
      assert body.Do? || body.Commit?;
      assert !Committed(log, t) && !RolledBack(log, t);
    }
  }

  lemma AppendKeepsChainsOk(log: Log, r: WalRecord)
    requires ChainsOk(log) && r.prev == LastLsn(log, r.txn)
    requires r.body.Begin? ==> r.prev == 0
    requires r.body.Do? || r.body.Commit? ==> r.prev > 0 && (log[r.prev - 1].body.Begin? || log[r.prev - 1].body.Do?)
    ensures ChainsOk(log + [r])
  {
    hide Chained;
    var log' := log + [r];
    forall i | 0 <= i < |log| && (log[i].body.Do? || log[i].body.Commit?) ensures Chained(log', i) {
      ChainedGrows(log, r, i);
    }
    if r.body.Do? || r.body.Commit? {
      ChainedLast(log, r);
    }
  }

  lemma ChainedLast(log: Log, r: WalRecord)
    requires r.prev == LastLsn(log, r.txn) > 0 && (log[r.prev - 1].body.Begin? || log[r.prev - 1].body.Do?)
    ensures Chained(log + [r], |log|)
  {
  }

  lemma AppendKeepsClrsOk(log: Log, r: WalRecord)
    requires ClrsOk(log) && !r.body.Clr?
    ensures ClrsOk(log + [r])
  {
    var log' := log + [r];
    forall c | 0 <= c < |log'| && log'[c].body.Clr? ensures exists i :: Compensates(log', c, i) {
      var i :| Compensates(log, c, i);
      assert Compensates(log', c, i);
    }
  }

  lemma AppendKeepsEndings(log: Log, start: nat, t: TxnId, body: Body)
    requires LogOk(log) && start <= |log| && NoRecoveryRecords(log, start) && Separated(log, start)
    requires MayAppend(log, t, body)
    ensures EndingsOk(log + [NewRecord(log, t, body)])
  {
    hide ChainsOk, ClrsOk, Separated, NoRecoveryRecords, LastLsn;
    LastIsOpen(log, start, t, body);
  }

  lemma AppendKeepsSeparated(log: Log, start: nat, t: TxnId, body: Body)
    requires LogOk(log) && start <= |log| && NoRecoveryRecords(log, start) && Separated(log, start)
    requires MayAppend(log, t, body)
    ensures var log' := log + [NewRecord(log, t, body)];
      Separated(log', start) && NoRecoveryRecords(log', start)
  {
    hide LogOk, LastLsn;
    var log' := log + [NewRecord(log, t, body)];
    LastIsOpen(log, start, t, body);
    forall i | 0 <= i < start ensures Committed(log', log[i].txn) || RolledBack(log', log[i].txn) {
      StillFinished(log, log', log[i].txn);
    }
  }

  lemma StillFinished(log: Log, log': Log, t: TxnId)
    requires log <= log'
    ensures Committed(log, t) ==> Committed(log', t)
    ensures RolledBack(log, t) ==> RolledBack(log', t)
  {
    if Committed(log, t) {
      var i :| 0 <= i < |log| && log[i].txn == t && log[i].body.Commit?;
      assert log'[i] == log[i];
    }
    if RolledBack(log, t) {
      var i :| 0 <= i < |log| && log[i].txn == t && log[i].body.Rollback?;
      assert log'[i] == log[i];
    }
  }

  // Whether a transaction from before the last recovery committed was settled there.
  lemma SettledBefore(log: Log, log': Log, start: nat, i: nat)
    requires Separated(log, start) && Separated(log', start) && start <= |log| && start <= |log'|
    requires log[..start] == log'[..start] && i < start
    ensures Committed(log, log[i].txn) <==> Committed(log', log[i].txn)
  {
    assert log[i] == log[..start][i] == log'[i];
    forall a: Log, b: Log | Separated(a, start) && start <= |a| && start <= |b| && a[..start] == b[..start] && a[i] == b[i]
      && Committed(a, a[i].txn)
      ensures Committed(b, a[i].txn)
    {
      var k :| 0 <= k < |a| && a[k].txn == a[i].txn && a[k].body.Commit?;
      assert k < start;
      assert a[k] == a[..start][k] == b[k];
    }
  }

  lemma SettledCaughtUp(log: Log, log': Log, disk: map<PageId, DataPage>, start: nat)
    requires Separated(log, start) && Separated(log', start) && start <= |log| && start <= |log'|
    requires log[..start] == log'[..start] && CaughtUp(Store(log, disk), start)
    ensures CaughtUp(Store(log', disk), start)
  {
    hide Separated, Committed;
    forall i: nat, p | i < start && Replayed(log', i, p) ensures Replayed(log, i, p) {
      SettledBefore(log, log', start, i);
      assert log[i] == log[..start][i] == log'[i];
    }
  }

  lemma SettledBase(log: Log, log': Log, e: Epoch)
    requires Separated(log, e.start) && Separated(log', e.start) && e.start <= |log| && e.start <= |log'|
    requires log[..e.start] == log'[..e.start] && BaseIsCommitted(log, e)
    ensures BaseIsCommitted(log', e)
  {
    hide Separated, Committed, LiveCount, Delta;
    forall p, t
      ensures LiveCount(BaseRows(e, p), t)
           == Total(OpsOn(log', 0, p), WinnersOn(log', 0, p), e.start, t) + LiveCount(LeftBefore(e, p), t)
    {
      forall i: nat | i < e.start
        ensures i in WinnersOn(log, 0, p) <==> i in WinnersOn(log', 0, p)
        ensures i in OpsOn(log, 0, p) <==> i in OpsOn(log', 0, p)
        ensures i in OpsOn(log, 0, p) ==> OpsOn(log, 0, p)[i] == OpsOn(log', 0, p)[i]
      {
        SettledBefore(log, log', e.start, i);
        assert log[i] == log[..e.start][i] == log'[i];
      }
      TotalCongruent(OpsOn(log, 0, p), WinnersOn(log, 0, p), OpsOn(log', 0, p), WinnersOn(log', 0, p), e.start, t);
    }
  }

  // ---- Pages in normal operation ----

  lemma OpsAppend(log: Log, start: nat, r: WalRecord, p: PageId)
    requires start <= |log|
    ensures OpsOn(log + [r], start, p) ==
            if r.body.Do? && r.body.change.On(p) then OpsOn(log, start, p)[|log| := r.body.change] else OpsOn(log, start, p)
  {
    var log' := log + [r];
    assert forall i | 0 <= i < |log| :: log'[i] == log[i];
  }

  lemma OpsInLog(log: Log, start: nat, p: PageId)
    ensures forall k | k in OpsOn(log, start, p) :: start <= k < |log|
  {
  }

  // A record that is none of p's data changes leaves p as it was.
  lemma PageUpKept(s: Machine, s': Machine, r: WalRecord, p: PageId)
    requires s.Up? && s'.Up? && s.epoch.start <= |s.log| && PageUp(s, p) && s'.log == s.log + [r]
    requires !(r.body.Do? && r.body.change.On(p))
    requires s'.epoch == s.epoch && s'.durable == s.durable
    requires PageAt(s'.mem, p) == PageAt(s.mem, p) && s'.disk == s.disk && s.mem.Keys <= s'.mem.Keys
    ensures PageUp(s', p)
  {
    hide Has, Get, LiveCount, Distinct, OpsOn, Redo;
    OpsAppend(s.log, s.epoch.start, r, p);
    OpsInLog(s.log, s.epoch.start, p);
    var l, l' := AllOf(s.log, s.epoch, p), AllOf(s'.log, s.epoch, p);
    assert l' == l.(size := l.size + 1);
    AllHold(l, 0);
    GrownHistory(l);
    ReplayAgree(l, l.ops.Keys, l', l'.ops.Keys, |s.log|);
    ReplayAgree(l, l.ops.Keys, l', l'.ops.Keys, PageAt(s.disk, p).lastLsn);
    assert Replay(l', l'.ops.Keys, |s'.log|) == Replay(l', l'.ops.Keys, |s.log|);
  }

  // Row ids stay unique, and a row is made obsolete only once, because a change goes ahead only on
  // a live row and with a new id.
  lemma HistoryExtends(l: Ledger, rows: seq<Row>, c: Change)
    requires History(l) && l.winners == l.ops.Keys && rows == Replay(l, l.ops.Keys, l.size) && c.IsData() && MayChange(rows, c)
    ensures History(Ledger(l.ops[l.size := c], l.ops.Keys + {l.size}, l.base, l.size + 1))
  {
    hide Has, Get, LiveCount, Replay, Distinct, Known, Obsolete, Holds, MayChange, History;
    AllHold(l, l.size);
    OpsWellFormed(l);
    assert Below(l.ops.Keys, l.size) == l.ops.Keys;
    NewIdFresh(l, rows, c);
    if OldId(c) >= 0 {
      OldIdKnown(l, rows, c);
    }
    forall k | k in l.ops && OldId(l.ops[k]) >= 0 ensures Known(Ledger(l.ops[l.size := c], l.ops.Keys + {l.size}, l.base, l.size + 1), k) {
      HistoryKnown(l, k);
      KnownStays(l, c, k);
    }
    HistoryWith(l, c);
  }

  lemma HistoryKnown(l: Ledger, k: nat)
    requires History(l) && k in l.ops && OldId(l.ops[k]) >= 0
    ensures Known(l, k)
  {
  }

  lemma HistoryWith(l: Ledger, c: Change)
    requires History(l) && l.winners == l.ops.Keys && c.IsData()
    requires NewId(c) >= 0 ==> !Obsolete(c.after) && !Has(l.base, NewId(c)) && forall j | j in l.ops :: NewId(l.ops[j]) != NewId(c)
    requires OldId(c) >= 0 ==> forall j | j in l.ops :: OldId(l.ops[j]) != OldId(c)
    requires var l' := Ledger(l.ops[l.size := c], l.ops.Keys + {l.size}, l.base, l.size + 1);
      forall k | k in l'.ops && OldId(l'.ops[k]) >= 0 :: Known(l', k)
    ensures History(Ledger(l.ops[l.size := c], l.ops.Keys + {l.size}, l.base, l.size + 1))
  {
    hide Has, Get, LiveCount, Distinct, Known, Obsolete;
  }

  lemma KnownStays(l: Ledger, c: Change, k: nat)
    requires WellFormed(l) && k in l.ops && OldId(l.ops[k]) >= 0 && Known(l, k)
    ensures Known(Ledger(l.ops[l.size := c], l.ops.Keys + {l.size}, l.base, l.size + 1), k)
  {
    hide Has, Get, Distinct;
    var l' := Ledger(l.ops[l.size := c], l.ops.Keys + {l.size}, l.base, l.size + 1);
    if !FromBase(l, k) {
      var j :| WrittenBy(l, j, k);
      assert WrittenBy(l', j, k);
    }
  }

  lemma NewIdFresh(l: Ledger, rows: seq<Row>, c: Change)
    requires History(l) && Holds(l, rows, l.ops.Keys, {}, {}) && MayChange(rows, c)
    ensures NewId(c) >= 0 ==> !Obsolete(c.after) && !Has(l.base, NewId(c)) && forall j | j in l.ops :: NewId(l.ops[j]) != NewId(c)
  {
    hide IndexOf, LiveCount;
  }

  lemma OldIdKnown(l: Ledger, rows: seq<Row>, c: Change)
    requires History(l) && Holds(l, rows, l.ops.Keys, {}, {}) && MayChange(rows, c) && OldId(c) >= 0
    ensures forall j | j in l.ops :: OldId(l.ops[j]) != OldId(c)
    ensures var l' := Ledger(l.ops[l.size := c], l.ops.Keys + {l.size}, l.base, l.size + 1); Known(l', l.size)
  {
    hide IndexOf, LiveCount;
    var l' := Ledger(l.ops[l.size := c], l.ops.Keys + {l.size}, l.base, l.size + 1);
    if Has(l.base, OldId(c)) {
      assert FromBase(l', l.size);
    } else {
      assert Has(rows, OldId(c));
      var j :| j in l.ops.Keys + {} && NewId(l.ops[j]) == OldId(c);
      assert WrittenBy(l', j, l.size);
    }
  }

  lemma PageUpChanged(s: Machine, s': Machine, t: TxnId, c: Change)
    requires s.Up? && s.epoch.start <= |s.log| && c.IsData() && ChangeStep(s, s', t, c) && PageUp(s, c.page)
    ensures PageUp(s', c.page)
  {
    hide Has, Get, LiveCount, Distinct, OpsOn, Redo, Known, MayChange, NewRecord, Active;
    var p := c.page;
    var r := NewRecord(s.log, t, Do(c));
    assert r.body == Do(c) by { BodyOf(s.log, t, Do(c)); }
    OpsAppend(s.log, s.epoch.start, r, p);
    OpsInLog(s.log, s.epoch.start, p);
    var l, l' := AllOf(s.log, s.epoch, p), AllOf(s'.log, s.epoch, p);
    assert l' == Ledger(l.ops[l.size := c], l.ops.Keys + {l.size}, l.base, l.size + 1);
    HistoryExtends(l, PageAt(s.mem, p).rows, c);
    ReplayAgree(l, l.ops.Keys, l', l'.ops.Keys, |s.log|);
    ReplayAgree(l, l.ops.Keys, l', l'.ops.Keys, PageAt(s.disk, p).lastLsn);
  }

  lemma BodyOf(log: Log, t: TxnId, body: Body)
    ensures NewRecord(log, t, body).body == body
  {
  }

  // ---- Every step keeps the invariant ----

  lemma PrefixOfAppend(log: Log, r: WalRecord, n: nat)
    requires n <= |log|
    ensures (log + [r])[..n] == log[..n]
  {
  }

  lemma AppendKeepsInv(s: Machine, s': Machine, t: TxnId, body: Body)
    requires s.Up? && Inv(s) && MayAppend(s.log, t, body) && (body.Do? ==> !body.change.IsData())
    requires s' == s.(log := s.log + [NewRecord(s.log, t, body)])
    ensures Inv(s')
  {
    hide LogOk, NoRecoveryRecords, Separated, CaughtUp, PageUp, BaseIsCommitted, MayAppend;
    AppendKeepsLog(s.log, s.epoch.start, t, body);
    AppendKeepsSeparated(s.log, s.epoch.start, t, body);
    PrefixOfAppend(s.log, NewRecord(s.log, t, body), s.epoch.start);
    SettledCaughtUp(s.log, s'.log, s.disk, s.epoch.start);
    SettledBase(s.log, s'.log, s.epoch);
    forall p ensures PageUp(s', p) {
      PageUpKept(s, s', NewRecord(s.log, t, body), p);
    }
  }

  lemma ChangeKeepsInv(s: Machine, s': Machine, t: TxnId, c: Change)
    requires s.Up? && Inv(s) && ChangeStep(s, s', t, c)
    ensures Inv(s')
  {
    hide LogOk, NoRecoveryRecords, Separated, CaughtUp, PageUp, BaseIsCommitted, MayChange, Active, Redo;
    var r := NewRecord(s.log, t, Do(c));
    AppendKeepsLog(s.log, s.epoch.start, t, Do(c));
    AppendKeepsSeparated(s.log, s.epoch.start, t, Do(c));
    PrefixOfAppend(s.log, r, s.epoch.start);
    SettledCaughtUp(s.log, s'.log, s.disk, s.epoch.start);
    SettledBase(s.log, s'.log, s.epoch);
    forall p ensures PageUp(s', p) {
      if p == c.page {
        PageUpChanged(s, s', t, c);
      } else {
        PageUpKept(s, s', r, p);
      }
    }
  }

  lemma QuietStepKeepsInv(s: Machine, s': Machine)
    requires s.Up? && Inv(s)
    requires (exists p :: StampStep(s, s', p)) || FlushStep(s, s') || (exists p :: WriteStep(s, s', p))
    ensures Inv(s')
  {
    hide LogOk, NoRecoveryRecords, Separated, BaseIsCommitted, Has, Get, LiveCount, Distinct, OpsOn, History, Replayed;
    forall q ensures PageUp(s', q) {
      assert PageUp(s, q);
      OpsInLog(s.log, s.epoch.start, q);
      WrittenShows(s, q);
    }
    forall q, i: nat | i < s.epoch.start && Replayed(s.log, i, q) ensures q in s'.disk && i < s'.disk[q].lastLsn {
      assert PageUp(s, q);
    }
  }

  // The current page is what the changes up to its stamp make it.
  lemma WrittenShows(s: Machine, p: PageId)
    requires s.Up? && PageUp(s, p)
    ensures ShowsFirst(s.log, s.epoch, p, PageAt(s.mem, p), PageAt(s.mem, p).lastLsn)
  {
    hide Has, Get, LiveCount, Distinct, OpsOn, History, Redo;
    ReplayRest(AllOf(s.log, s.epoch, p), PageAt(s.mem, p).lastLsn, |s.log|);
  }

  lemma {:induction false} ReplayRest(l: Ledger, m: nat, n: nat)
    requires m <= n && forall k | k in l.ops :: k < m
    ensures Replay(l, l.ops.Keys, n) == Replay(l, l.ops.Keys, m)
  {
    hide Redo;
    if m < n {
      ReplayRest(l, m, n - 1);
    }
  }

  // ---- A crash ----

  lemma PrefixLogOk(log: Log, n: nat)
    requires LogOk(log) && n <= |log|
    ensures LogOk(log[..n])
  {
    var log' := log[..n];
    assert forall i | 0 <= i < n :: log'[i] == log[i];
    forall i | 0 <= i < n && (log'[i].body.Do? || log'[i].body.Commit?) ensures Chained(log', i) {
      assert Chained(log, i);
    }
    PrefixClrsOk(log, n);
  }

  lemma PrefixClrsOk(log: Log, n: nat)
    requires ClrsOk(log) && n <= |log|
    ensures ClrsOk(log[..n])
  {
    var log' := log[..n];
    forall c | 0 <= c < n && log'[c].body.Clr? ensures exists i :: Compensates(log', c, i) {
      assert log[c] == log'[c];
      var i :| Compensates(log, c, i);
      assert Compensates(log', c, i);
    }
  }

  lemma PrefixSeparated(log: Log, start: nat, n: nat)
    requires Separated(log, start) && start <= n <= |log|
    ensures Separated(log[..n], start)
  {
    var log' := log[..n];
    assert forall i | 0 <= i < n :: log'[i] == log[i];
    forall i | 0 <= i < start ensures Committed(log', log'[i].txn) || RolledBack(log', log'[i].txn) {
      assert Committed(log, log[i].txn) || RolledBack(log, log[i].txn);
    }
  }

  lemma SubHistory(l: Ledger, l': Ledger)
    requires History(l) && l'.base == l.base && l'.winners <= l'.ops.Keys
    requires forall k | k in l'.ops :: k in l.ops && l'.ops[k] == l.ops[k] && k < l'.size
    requires forall j, k | j in l.ops && k in l'.ops && j < k :: j in l'.ops
    ensures History(l')
  {
    hide Has, Get, LiveCount, Distinct;
    forall k | k in l'.ops && OldId(l'.ops[k]) >= 0 ensures Known(l', k) {
      assert Known(l, k);
      if !FromBase(l, k) {
        var j :| WrittenBy(l, j, k);
        assert WrittenBy(l', j, k);
      }
    }
  }

  // The changes of a page in the durable part of the log are a history of their own.
  lemma PrefixHistory(log: Log, e: Epoch, p: PageId, n: nat)
    requires History(AllOf(log, e, p)) && n <= |log|
    ensures History(LedgerOf(log[..n], e, p)) && History(AllOf(log[..n], e, p))
  {
    hide History, Committed;
    PrefixOps(log, e.start, p, n);
    OpsInLog(log[..n], e.start, p);
    SubHistory(AllOf(log, e, p), LedgerOf(log[..n], e, p));
    SubHistory(AllOf(log, e, p), AllOf(log[..n], e, p));
  }

  // What is on disk is what the durable log says up to the page's last LSN.
  lemma CrashPage(s: Machine, s': Machine, p: PageId)
    requires s.Up? && UpInv(s) && CrashStep(s, s')
    ensures History(LedgerOf(s'.store.log, s'.epoch, p)) && LosersApart(s'.store.log, s'.epoch, p)
    ensures PageOk(s'.store.log, s'.epoch, s'.store.disk, p)
  {
    hide Has, Get, LiveCount, Distinct, OpsOn, History, Redo, Committed, Separated, LogOk, Holds;
    var log, e, page := s'.store.log, s'.epoch, PageAt(s.disk, p);
    assert PageUp(s, p);
    PrefixHistory(s.log, s.epoch, p, s.durable);
    var l := LedgerOf(log, e, p);
    assert l == LedgerOf(log, s.epoch, p);
    assert LosersApart(log, s.epoch, p);
    PrefixOps(s.log, e.start, p, s.durable);
    ReplayAgree(AllOf(s.log, s.epoch, p), OpsOn(s.log, e.start, p).Keys, l, l.ops.Keys, page.lastLsn);
    assert Closed(l, l.ops.Keys);
    ReplayHolds(l, l.ops.Keys, page.lastLsn);
    assert l.ops.Keys - l.ops.Keys == {};
    NothingUndone(s.log, e, p, s.durable, page.lastLsn);
    assert EffectsOn(log, e, p, page.lastLsn) == Below(l.ops.Keys, page.lastLsn);
    assert ReachedOn(e, p) * {} == {};
  }

  lemma PrefixOps(log: Log, start: nat, p: PageId, n: nat)
    requires n <= |log|
    ensures forall k: nat | k < n :: k in OpsOn(log, start, p) <==> k in OpsOn(log[..n], start, p)
    ensures forall k: nat | k < n && k in OpsOn(log, start, p) :: OpsOn(log, start, p)[k] == OpsOn(log[..n], start, p)[k]
  {
    assert forall i | 0 <= i < n :: log[..n][i] == log[i];
  }

  lemma NothingUndone(log: Log, e: Epoch, p: PageId, n: nat, m: nat)
    requires n <= |log| && NoRecoveryRecords(log, e.start)
    ensures UndoneOn(log[..n], e.start, p, m) == {}
  {
    assert forall i | 0 <= i < n :: log[..n][i] == log[i];
  }

  lemma CrashKeepsInv(s: Machine, s': Machine)
    requires s.Up? && Inv(s) && CrashStep(s, s')
    ensures Inv(s')
  {
    hide LogOk, NoRecoveryRecords, Separated, CaughtUp, PageUp, BaseIsCommitted, History, LosersApart, PageOk, LedgerOf;
    var log, e := s.log[..s.durable], s.epoch;
    assert s.log[..e.start] == log[..e.start];
    PrefixLogOk(s.log, s.durable);
    PrefixSeparated(s.log, e.start, s.durable);
    SettledCaughtUp(s.log, log, s.disk, e.start);
    SettledBase(s.log, log, e);
    forall p ensures History(LedgerOf(log, s'.epoch, p)) && LosersApart(log, s'.epoch, p) && PageOk(log, s'.epoch, s.disk, p) {
      CrashPage(s, s', p);
    }
    forall p | p in e.base ensures p in s.disk {
      BaseOnDisk(s, p);
    }
    CrashTxns(s);
    CrashEpoch(s);
    WithReached(Store(log, s.disk), e, s'.epoch.reached);
  }

  // What else is asked of an epoch does not depend on what has been reached.
  lemma WithReached(store: Store, e: Epoch, reached: map<PageId, set<nat>>)
    requires EpochOk(store, e) && TxnsOk(store, e) && BaseIsCommitted(store.log, e)
    ensures var e' := e.(reached := reached); EpochOk(store, e') && TxnsOk(store, e') && BaseIsCommitted(store.log, e')
  {
    hide CaughtUp, UndoneAbove, Resolved, Total, LiveCount, OpsOn, WinnersOn, Active, RolledBack, Committed;
    assert forall p :: BaseRows(e.(reached := reached), p) == BaseRows(e, p);
    assert forall p :: LeftBefore(e.(reached := reached), p) == LeftBefore(e, p);
  }

  lemma BaseOnDisk(s: Machine, p: PageId)
    requires s.Up? && PageUp(s, p)
    ensures p in s.epoch.base ==> p in s.disk
  {
  }

  lemma CrashEpoch(s: Machine)
    requires s.Up? && s.epoch.start <= s.durable <= |s.log| && Separated(s.log[..s.durable], s.epoch.start)
    requires CaughtUp(Store(s.log[..s.durable], s.disk), s.epoch.start) && forall p | p in s.epoch.base :: p in s.disk
    ensures EpochOk(Store(s.log[..s.durable], s.disk), s.epoch)
  {
    hide CaughtUp;
  }

  lemma CrashTxns(s: Machine)
    requires s.Up? && s.epoch.start <= s.durable <= |s.log| && NoRecoveryRecords(s.log, s.epoch.start)
    requires Separated(s.log[..s.durable], s.epoch.start)
    ensures TxnsOk(Store(s.log[..s.durable], s.disk), s.epoch)
  {
    hide Skippable;
    var store := Store(s.log[..s.durable], s.disk);
    assert forall i | 0 <= i < s.durable :: store.log[i] == s.log[i];
    forall t | Active(store.log, t) ensures UndoneAbove(store, t, LastLsn(store.log, t)) {
      var last := LastLsn(store.log, t);
      assert store.log[last - 1].txn == t;
      assert s.epoch.start <= last - 1;
      assert !Committed(store.log, t) && !RolledBack(store.log, t);
    }
  }

  // ---- Coming back up ----

  lemma {:induction false} ReplayNone(l: Ledger, S: set<nat>, n: nat)
    requires l.ops == map[]
    ensures Replay(l, S, n) == l.base
  {
    if n > 0 {
      ReplayNone(l, S, n - 1);
    }
  }

  lemma RestartPage(s: Machine, s': Machine, p: PageId)
    requires s.Down? && Inv(s) && RestartStep(s, s')
    ensures PageUp(s', p)
  {
    hide LogOk, TxnsOk, HistoriesOk, EpochOk, Has, Get, LiveCount, PageOk, LeftOver, Quiet, UndoneOn;
    var store := s.store;
    assert PageOk(store.log, s.epoch, store.disk, p);
    var l := AllOf(s'.log, s'.epoch, p);
    assert l.ops == map[];
    assert BaseRows(s'.epoch, p) == PageAt(store.disk, p).rows;
    ReplayNone(l, l.ops.Keys, |s'.log|);
    ReplayNone(l, l.ops.Keys, PageAt(s'.disk, p).lastLsn);
    RestartHistory(store.log, s.epoch, store.disk, p);
  }

  lemma RestartHistory(log: Log, e: Epoch, disk: map<PageId, DataPage>, p: PageId)
    requires PageOk(log, e, disk, p)
    ensures Distinct(PageAt(disk, p).rows) && PageAt(disk, p).lastLsn <= |log|
  {
    hide Has, Get, LiveCount, BaseKept, OnlyKnown, Applied, Pending, Counts, Distinct, UndoneOn;
  }

  lemma RestartKeepsInv(s: Machine, s': Machine)
    requires s.Down? && Inv(s) && RestartStep(s, s')
    ensures Inv(s')
  {
    hide LogOk, PageUp, CaughtUp, Active, HistoriesOk, PagesOk, TxnsOk, EpochOk, Committed, RolledBack, OpsOn, WinnersOn, LiveCount, BaseIsCommitted, LeftOver;
    forall p ensures PageUp(s', p) {
      RestartPage(s, s', p);
    }
    forall i | 0 <= i < |s.store.log| ensures Committed(s.store.log, s.store.log[i].txn) || RolledBack(s.store.log, s.store.log[i].txn) {
      NotActive(s.store.log, i);
    }
    RecoveredIsCommitted(s.store, s.epoch);
  }

  lemma NotActive(log: Log, i: nat)
    requires i < |log| && !Active(log, log[i].txn)
    ensures Committed(log, log[i].txn) || RolledBack(log, log[i].txn)
  {
    assert LastLsn(log, log[i].txn) > 0;
  }

  // The committed changes before and after the last recovery add up to all of them.
  lemma {:induction false} TotalSplit(log: Log, start: nat, p: PageId, n: nat, t: seq<DataToken>)
    requires start <= n <= |log|
    ensures Total(OpsOn(log, 0, p), WinnersOn(log, 0, p), n, t) ==
            Total(OpsOn(log, 0, p), WinnersOn(log, 0, p), start, t) + Total(OpsOn(log, start, p), WinnersOn(log, start, p), n, t)
  {
    hide Committed, Delta;
    if n == start {
      TotalBelow(log, start, p, n, t);
    } else {
      TotalSplit(log, start, p, n - 1, t);
    }
  }

  lemma {:induction false} TotalBelow(log: Log, start: nat, p: PageId, n: nat, t: seq<DataToken>)
    requires n <= start
    ensures Total(OpsOn(log, start, p), WinnersOn(log, start, p), n, t) == 0
  {
    hide Committed, Delta;
    if n > 0 {
      TotalBelow(log, start, p, n - 1, t);
    }
  }

  // The rows that recoveries up to now have left over on page p, the current one included.
  ghost function LeftSoFar(log: Log, e: Epoch, p: PageId): seq<Row> {
    LeftBefore(e, p) + LeftOver(log, e, p)
  }

  // A completed recovery leaves on every page exactly what all committed transactions, since the
  // beginning of the log, put there, and what recoveries have left over.
  lemma RecoveredIsCommitted(store: Store, e: Epoch)
    requires Recoverable(store, e) && Quiet(store) && BaseIsCommitted(store.log, e)
    ensures BaseIsCommitted(store.log, NewEpoch(store, e))
    ensures forall p, t :: LiveCount(PageAt(store.disk, p).rows, t)
                           == Total(OpsOn(store.log, 0, p), WinnersOn(store.log, 0, p), |store.log|, t)
                              + LiveCount(LeftSoFar(store.log, e, p), t)
  {
    hide LiveCount, Total, Quiet, LogOk, HistoriesOk, PagesOk, TxnsOk, CaughtUp, OpsOn, WinnersOn, Replay, Left;
    forall p, t ensures LiveCount(PageAt(store.disk, p).rows, t)
                        == Total(OpsOn(store.log, 0, p), WinnersOn(store.log, 0, p), |store.log|, t)
                           + LiveCount(LeftSoFar(store.log, e, p), t)
    {
      FinishedPage(store, e, p, t);
      TotalSplit(store.log, e.start, p, |store.log|, t);
      LiveCountConcat(LeftBefore(e, p), LeftOver(store.log, e, p), t);
    }
    forall p ensures BaseRows(NewEpoch(store, e), p) == PageAt(store.disk, p).rows {
    }
    forall p ensures LeftBefore(NewEpoch(store, e), p) == LeftSoFar(store.log, e, p) {
      NewLeft(store, e, p);
    }
  }

  lemma NewLeft(store: Store, e: Epoch, p: PageId)
    ensures LeftBefore(NewEpoch(store, e), p) == LeftSoFar(store.log, e, p)
  {
    if p !in e.left && p !in e.reached {
      LeftNothing(OpsOn(store.log, e.start, p), |store.log|);
    }
  }

  lemma RecoveryKeepsInv(s: Machine, s': Machine)
    requires s.Down? && Inv(s) && RecoveryStep(s, s')
    ensures Inv(s')
  {
    hide Recoverable, RecStep, BaseIsCommitted, CommittedRows, LeftOver;
    StepKeepsView(s.store, s'.store, s.epoch, 0);
    StepExtends(s.store, s'.store);
    RecoverableSeparated(s.store, s.epoch);
    RecoverableSeparated(s'.store, s.epoch);
    SettledBase(s.store.log, s'.store.log, s.epoch);
  }

  lemma StepExtends(s: Store, s': Store)
    requires RecStep(s, s')
    ensures s.log <= s'.log
    ensures forall n: nat | n <= |s.log| :: s'.log[..n] == s.log[..n]
  {
    hide CaughtUp, Active, UndoneAbove, Replayed;
  }

  lemma RecoverableSeparated(s: Store, e: Epoch)
    requires Recoverable(s, e)
    ensures Separated(s.log, e.start) && e.start <= |s.log|
  {
    hide LogOk, HistoriesOk, PagesOk, TxnsOk, CaughtUp, Committed, RolledBack;
  }

  lemma NextKeepsInv(s: Machine, s': Machine)
    requires Inv(s) && Next(s, s')
    ensures Inv(s')
  {
    hide Inv, Active, MayChange, CrashStep, RecoveryStep, RestartStep, StampStep, WriteStep, FlushStep, ChangeStep, PageUp;
    if t :| BeginStep(s, s', t) {
      AppendKeepsInv(s, s', t, Begin);
    } else if t :| CommitStep(s, s', t) {
      AppendKeepsInv(s, s', t, Commit);
    } else if t, c :| MetaStep(s, s', t, c) {
      AppendKeepsInv(s, s', t, Do(c));
    } else if t, c :| ChangeStep(s, s', t, c) {
      ChangeIsUp(s, s', t, c);
      ChangeKeepsInv(s, s', t, c);
    } else if (exists p :: StampStep(s, s', p)) || FlushStep(s, s') || (exists p :: WriteStep(s, s', p)) {
      QuietIsUp(s, s');
      QuietStepKeepsInv(s, s');
    } else if CrashStep(s, s') {
      CrashIsUp(s, s');
      CrashKeepsInv(s, s');
    } else if RecoveryStep(s, s') {
      RecoveryIsDown(s, s');
      RecoveryKeepsInv(s, s');
    } else {
      RestartIsDown(s, s');
      RestartKeepsInv(s, s');
    }
  }

  lemma ChangeIsUp(s: Machine, s': Machine, t: TxnId, c: Change)
    requires ChangeStep(s, s', t, c)
    ensures s.Up?
  {
  }

  lemma QuietIsUp(s: Machine, s': Machine)
    requires (exists p :: StampStep(s, s', p)) || FlushStep(s, s') || (exists p :: WriteStep(s, s', p))
    ensures s.Up?
  {
  }

  lemma CrashIsUp(s: Machine, s': Machine)
    requires CrashStep(s, s')
    ensures s.Up?
  {
  }

  lemma RecoveryIsDown(s: Machine, s': Machine)
    requires RecoveryStep(s, s')
    ensures s.Down?
  {
  }

  lemma RestartIsDown(s: Machine, s': Machine)
    requires RestartStep(s, s')
    ensures s.Down?
  {
  }

  // ---- Whole runs ----

  ghost predicate Run(states: seq<Machine>) {
    && states != []
    && states[0] == Start
    && forall i :: 0 <= i < |states| - 1 ==> Next(states[i], states[i + 1])
  }

  lemma StartInv()
    ensures Inv(Start)
  {
    forall p ensures PageUp(Start, p) {
      assert OpsOn([], 0, p) == map[];
      ReplayNone(AllOf([], Start.epoch, p), {}, 0);
    }
  }

  lemma {:induction false} RunInv(states: seq<Machine>, i: nat)
    requires Run(states) && i < |states|
    ensures Inv(states[i])
  {
    hide Inv, Next;
    if i == 0 {
      StartInv();
    } else {
      RunInv(states, i - 1);
      NextKeepsInv(states[i - 1], states[i]);
    }
  }

  // The part of the log that survives a crash.
  function DurableLog(s: Machine): Log {
    match s
    case Up(log, durable, _, _, _) => if durable <= |log| then log[..durable] else log
    case Down(store, _) => store.log
  }

  lemma NextKeepsDurable(s: Machine, s': Machine)
    requires Inv(s) && Next(s, s')
    ensures DurableLog(s) <= DurableLog(s')
  {
    hide PageUp, LogOk, NoRecoveryRecords, Separated, CaughtUp, BaseIsCommitted, Active, Recoverable, RecStep, Quiet, MayChange;
    if RecoveryStep(s, s') {
      StepExtends(s.store, s'.store);
    }
  }

  // What has become durable stays in the log forever, so a commit that has is never lost.
  lemma {:induction false} CommitsSurvive(states: seq<Machine>, i: nat, j: nat, t: TxnId)
    requires Run(states) && i <= j < |states| && Committed(DurableLog(states[i]), t)
    ensures Committed(DurableLog(states[j]), t)
  {
    hide Inv, Next, Committed;
    if i < j {
      CommitsSurvive(states, i, j - 1, t);
      RunInv(states, j - 1);
      NextKeepsDurable(states[j - 1], states[j]);
      StillFinished(DurableLog(states[j - 1]), DurableLog(states[j]), t);
    }
  }

  // In every run, with any number of crashes in normal operation and inside recovery: whenever a
  // recovery is complete, each page on disk shows exactly the rows that the committed transactions
  // of the whole durable log put there and did not take away, nothing of the others, and besides what
  // recoveries have left over.
  lemma RecoveredRunIsCommitted(states: seq<Machine>, i: nat, p: PageId, t: seq<DataToken>)
    requires Run(states) && i < |states| && states[i].Down? && Quiet(states[i].store)
    ensures var store := states[i].store;
      LiveCount(PageAt(store.disk, p).rows, t) ==
      Total(OpsOn(store.log, 0, p), WinnersOn(store.log, 0, p), |store.log|, t)
      + LiveCount(LeftSoFar(store.log, states[i].epoch, p), t)
  {
    hide LiveCount, Total, Quiet, Run, Recoverable, BaseIsCommitted, LeftSoFar;
    RunInv(states, i);
    RecoveredIsCommitted(states[i].store, states[i].epoch);
  }

  // ---- When nothing is left over ----

  // What has been left over on page p up to a state.
  ghost function LeftIn(s: Machine, p: PageId): seq<Row> {
    match s
    case Up(_, _, _, _, epoch) => LeftBefore(epoch, p)
    case Down(store, epoch) => LeftSoFar(store.log, epoch, p)
  }

  // The machine stopped between states i - 1 and i, and page p on disk had been reached by an update, without
  // a commit, of a row version of the same transaction.
  ghost predicate LeavesRow(states: seq<Machine>, i: nat, p: PageId)
    requires 0 < i < |states|
  {
    states[i - 1].Up? && states[i].Down? && OwnUpdateReached(states[i].store.log, states[i].epoch, p)
  }

  lemma StepLeaves(s: Machine, s': Machine, p: PageId)
    requires Inv(s) && Inv(s') && Next(s, s') && AllLive(LeftIn(s, p))
    ensures AllLive(LeftIn(s', p))
    ensures LeftIn(s', p) == [] <==>
            LeftIn(s, p) == [] && !(s.Up? && s'.Down? && OwnUpdateReached(s'.store.log, s'.epoch, p))
  {
    hide Recoverable, RecStep, BaseIsCommitted, LeftOver, OwnUpdateReached, UpInv, MayChange, Active, Quiet, LosersApart, ReachedAt;
    if CrashStep(s, s') {
      LeftOverWhen(s'.store, s'.epoch, p);
    } else if RecoveryStep(s, s') {
      StepKeepsView(s.store, s'.store, s.epoch, p);
    } else if RestartStep(s, s') {
      NewLeft(s.store, s.epoch, p);
    }
  }

  lemma {:induction false} RunLeaves(states: seq<Machine>, i: nat, p: PageId)
    requires Run(states) && i < |states|
    ensures AllLive(LeftIn(states[i], p))
    ensures LeftIn(states[i], p) == [] <==> forall c | 0 < c <= i :: !LeavesRow(states, c, p)
  {
    hide Inv, Next, OwnUpdateReached, LeftSoFar, AllLive;
    if i == 0 {
      NothingLeftYet(p);
    } else {
      RunLeaves(states, i - 1, p);
      RunInv(states, i - 1);
      RunInv(states, i);
      StepLeaves(states[i - 1], states[i], p);
      var now := LeavesRow(states, i, p);
      assert (forall c | 0 < c <= i :: !LeavesRow(states, c, p)) <==>
             (forall c | 0 < c <= i - 1 :: !LeavesRow(states, c, p)) && !now;
    }
  }

  lemma NothingLeftYet(p: PageId)
    ensures LeftIn(Start, p) == [] && AllLive(LeftIn(Start, p))
  {
  }

  // In every run, a completed recovery leaves a page with the committed rows alone if and only if no stop
  // so far caught on that page an update by a transaction of its own row version, without its commit.
  lemma RecoveredRunExactly(states: seq<Machine>, i: nat, p: PageId)
    requires Run(states) && i < |states| && states[i].Down? && Quiet(states[i].store)
    ensures var store := states[i].store;
      (forall t :: LiveCount(PageAt(store.disk, p).rows, t) ==
                   Total(OpsOn(store.log, 0, p), WinnersOn(store.log, 0, p), |store.log|, t)) <==>
      forall c | 0 < c <= i :: !LeavesRow(states, c, p)
  {
    hide LiveCount, Total, Quiet, Run, LeavesRow, OpsOn, WinnersOn, LeftSoFar;
    var store, left := states[i].store, LeftIn(states[i], p);
    RunLeaves(states, i, p);
    ShowsNothing(left);
    forall t ensures LiveCount(PageAt(store.disk, p).rows, t) ==
                     Total(OpsOn(store.log, 0, p), WinnersOn(store.log, 0, p), |store.log|, t) + LiveCount(left, t)
    {
      RecoveredRunIsCommitted(states, i, p, t);
    }
    if left == [] {
      forall t ensures LiveCount(PageAt(store.disk, p).rows, t) == Total(OpsOn(store.log, 0, p), WinnersOn(store.log, 0, p), |store.log|, t) {
        assert LiveCount(left, t) == 0;
      }
    } else {
      var t :| LiveCount(left, t) != 0;
      assert LiveCount(PageAt(store.disk, p).rows, t) != Total(OpsOn(store.log, 0, p), WinnersOn(store.log, 0, p), |store.log|, t);
    }
  }
}
