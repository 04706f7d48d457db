/**
 Transactions: a state that admits one BEGIN, then changes, then one COMMIT, and the back pointers
 that chain the records of each transaction in a log they all share.
 */
module Transactions {
  import opened Types
  import opened LogShape
  import opened WalFiles
  import opened WalManager
  import opened Caches
  import opened BufferPools

  // ---- Following back pointers ----

  // The LSNs met from lsn on, each the prev of the one before.
  function Follow(log: Log, lsn: nat): seq<nat> {
    if lsn == 0 || lsn > |log| then []
    else if log[lsn - 1].prev < lsn then [lsn] + Follow(log, log[lsn - 1].prev)
    else [lsn]
  }

  // The LSNs of all records of t among the first n, latest first.
  function OwnDown(log: Log, t: TxnId, n: nat): seq<nat>
    requires n <= |log|
  {
    if n == 0 then []
    else if log[n - 1].txn == t then [n] + OwnDown(log, t, n - 1)
    else OwnDown(log, t, n - 1)
  }

  ghost predicate Forward(log: Log, t: TxnId) {
    forall i | 0 <= i < |log| && log[i].txn == t :: log[i].body.Begin? || log[i].body.Do? || log[i].body.Commit?
  }

  lemma {:induction false} OwnDownIs(log: Log, t: TxnId, n: nat)
    requires n <= |log|
    ensures forall x :: x in OwnDown(log, t, n) <==> 0 < x <= n && log[x - 1].txn == t
    ensures forall i, j | 0 <= i < j < |OwnDown(log, t, n)| :: OwnDown(log, t, n)[i] > OwnDown(log, t, n)[j]
  {
    if n > 0 {
      OwnDownIs(log, t, n - 1);
      var rest := OwnDown(log, t, n - 1);
      forall i | 0 <= i < |rest| ensures rest[i] < n {
        assert rest[i] in rest;
      }
    }
  }

  // The LSN of the last record of t among the first n.
  lemma {:induction false} LastBefore(log: Log, t: TxnId, n: nat, p: nat)
    requires n <= |log| && (p == 0 || (p <= n && log[p - 1].txn == t)) && p <= n
    requires forall i | p <= i < n :: log[i].txn != t
    ensures OwnDown(log, t, n) == OwnDown(log, t, p)
    decreases n
  {
    if n > p {
      LastBefore(log, t, n - 1, p);
    }
  }

  // The prev of a record is the LSN of the record before it in its transaction, 0 for a BEGIN.
  lemma PrevIs(log: Log, t: TxnId, n: nat)
    requires ChainsOk(log) && Forward(log, t) && 0 < n <= |log| && log[n - 1].txn == t
    ensures var p := log[n - 1].prev;
      && p < n && (p > 0 ==> log[p - 1].txn == t) && (forall i | p <= i < n - 1 :: log[i].txn != t)
      && (p == 0 <==> log[n - 1].body.Begin?)
  {
    hide ChainsOk, Forward;
    ForwardAt(log, t, n - 1);
    if log[n - 1].body.Begin? {
      NothingBeforeBegin(log, t, n);
    } else {
      ChainedAt(log, n - 1);
    }
  }

  lemma ForwardAt(log: Log, t: TxnId, i: nat)
    requires Forward(log, t) && i < |log| && log[i].txn == t
    ensures log[i].body.Begin? || log[i].body.Do? || log[i].body.Commit?
  {
  }

  lemma NothingBeforeBegin(log: Log, t: TxnId, n: nat)
    requires ChainsOk(log) && 0 < n <= |log| && log[n - 1].txn == t && log[n - 1].body.Begin?
    ensures log[n - 1].prev == 0 && forall i | 0 <= i < n - 1 :: log[i].txn != t
  {
    hide Chained;
  }

  lemma ChainedAt(log: Log, i: nat)
    requires ChainsOk(log) && i < |log| && (log[i].body.Do? || log[i].body.Commit?)
    ensures Chained(log, i)
  {
    hide Chained;
  }

  lemma {:induction false} FollowFrom(log: Log, t: TxnId, n: nat)
    requires ChainsOk(log) && Forward(log, t) && n <= |log| && (n > 0 ==> log[n - 1].txn == t)
    ensures Follow(log, n) == OwnDown(log, t, n)
  {
    hide ChainsOk, Forward;
    if n > 0 {
      var p := log[n - 1].prev;
      PrevIs(log, t, n);
      LastBefore(log, t, n - 1, p);
      FollowFrom(log, t, p);
    }
  }

  // The BEGIN of a transaction, where the chain of back pointers ends.
  predicate IsBegin(log: Log, lsn: nat) {
    0 < lsn <= |log| && log[lsn - 1].body.Begin? && log[lsn - 1].prev == 0
  }

  lemma {:induction false} EndsAtBegin(log: Log, t: TxnId, n: nat)
    requires ChainsOk(log) && Forward(log, t) && 0 < n <= |log| && log[n - 1].txn == t
    ensures var visited := Follow(log, n);
      visited != [] && IsBegin(log, visited[|visited| - 1])
  {
    hide ChainsOk, Forward;
    PrevIs(log, t, n);
    if !log[n - 1].body.Begin? {
      EndsAtBegin(log, t, log[n - 1].prev);
    }
  }

  // In any interleaving: following prev from the last record of t visits exactly the records of t,
  // latest first, and ends at its BEGIN.
  lemma FollowVisitsOwn(log: Log, t: TxnId)
    requires ChainsOk(log) && Forward(log, t)
    ensures var visited := Follow(log, LastLsn(log, t));
      && (forall x :: x in visited <==> 0 < x <= |log| && log[x - 1].txn == t)
      && (forall i, j | 0 <= i < j < |visited| :: visited[i] > visited[j])
      && (visited != [] ==> IsBegin(log, visited[|visited| - 1]))
  {
    hide ChainsOk, Forward, Follow, OwnDown;
    var n := LastLsn(log, t);
    FollowFrom(log, t, n);
    LastBefore(log, t, |log|, n);
    OwnDownIs(log, t, |log|);
    if n > 0 {
      EndsAtBegin(log, t, n);
    } else {
      FollowNone(log);
    }
  }

  lemma FollowNone(log: Log)
    ensures Follow(log, 0) == []
  {
  }

  // ---- Any number of transactions on one log ----

  datatype Phase = Idle | Active | Finished

  datatype Session = Session(phase: Phase, lastLsn: nat)

  datatype Call =
    | CallBegin(txn: TxnId)
    | CallAppend(txn: TxnId, change: Change)
    | CallCommit(txn: TxnId)

  function NextRecord(log: Log, t: TxnId, s: Session, body: Body): WalRecord {
    WalRecord(|log| + 1, s.lastLsn, t, body)
  }

  predicate Accepts(s: Session, c: Call) {
    if c.CallBegin? then s.phase.Idle? else s.phase.Active?
  }

  function BodyOf(c: Call): Body {
    match c
    case CallBegin(_) => Begin
    case CallAppend(_, change) => Do(change)
    case CallCommit(_) => Commit
  }

  // A refused call throws and changes nothing.
  function Perform(log: Log, s: Session, c: Call): (Log, Session) {
    if !Accepts(s, c) then (log, s)
    else
      (log + [NextRecord(log, c.txn, s, BodyOf(c))],
       Session(if c.CallCommit? then Finished else Phase.Active, |log| + 1))
  }

  // The session knows where its transaction stands in the log.
  ghost predicate InStep(log: Log, t: TxnId, s: Session) {
    && s.lastLsn == LastLsn(log, t) && Forward(log, t)
    && match s.phase
       case Idle => s.lastLsn == 0
       case Active => s.lastLsn > 0 && !log[s.lastLsn - 1].body.Commit?
       case Finished => s.lastLsn > 0 && log[s.lastLsn - 1].body.Commit?
  }

  lemma LastLsnAppend(log: Log, r: WalRecord, t: TxnId)
    ensures LastLsn(log + [r], t) == if r.txn == t then |log| + 1 else LastLsn(log, t)
  {
    assert (log + [r])[..|log|] == log;
  }

  // A call of one transaction leaves the others in step.
  lemma OthersInStep(log: Log, r: WalRecord, t: TxnId, s: Session)
    requires InStep(log, t, s) && r.txn != t
    ensures InStep(log + [r], t, s)
  {
    LastLsnAppend(log, r, t);
  }

  lemma OwnInStep(log: Log, s: Session, c: Call)
    requires InStep(log, c.txn, s)
    ensures InStep(Perform(log, s, c).0, c.txn, Perform(log, s, c).1)
  {
    if Accepts(s, c) {
      LastLsnAppend(log, NextRecord(log, c.txn, s, BodyOf(c)), c.txn);
    }
  }

  lemma AppendChains(log: Log, s: Session, c: Call)
    requires Numbered(log) && ChainsOk(log) && InStep(log, c.txn, s) && Accepts(s, c)
    ensures var log' := Perform(log, s, c).0; Numbered(log') && ChainsOk(log')
  {
    hide Chained, LastLsn, Forward;
    var r := NextRecord(log, c.txn, s, BodyOf(c));
    forall i: nat | i < |log| && (log[i].body.Do? || log[i].body.Commit?) ensures Chained(log + [r], i) {
      ChainedGrows(log, r, i);
    }
    if !c.CallBegin? {
      LastChained(log, s, c);
    }
  }

  lemma LastChained(log: Log, s: Session, c: Call)
    requires InStep(log, c.txn, s) && Accepts(s, c) && !c.CallBegin?
    ensures Chained(log + [NextRecord(log, c.txn, s, BodyOf(c))], |log|)
  {
    assert log[s.lastLsn - 1].body.Begin? || log[s.lastLsn - 1].body.Do?;
  }

  // While a session is open, none of its records ends the transaction.
  lemma OpenHasNoEnd(log: Log, t: TxnId, s: Session, i: nat)
    requires EndingsOk(log) && InStep(log, t, s) && !s.phase.Finished? && i < |log| && log[i].txn == t
    ensures log[i].body.Begin? || log[i].body.Do?
  {
    var n := s.lastLsn;
    assert i < n;
    if i < n - 1 {
      assert log[i].txn == log[n - 1].txn;
    }
  }

  lemma AppendEndings(log: Log, s: Session, c: Call)
    requires EndingsOk(log) && InStep(log, c.txn, s) && Accepts(s, c)
    ensures EndingsOk(Perform(log, s, c).0)
  {
    hide InStep;
    var log' := Perform(log, s, c).0;
    forall i, j | 0 <= i < j < |log'| && log'[i].txn == log'[j].txn
      ensures !log'[i].body.Commit? && !log'[i].body.Rollback? && (log'[i].body.Clr? ==> log'[j].body.Clr? || log'[j].body.Rollback?)
    {
      if j == |log| {
        OpenHasNoEnd(log, c.txn, s, i);
      } else {
        assert log[i].txn == log[j].txn;
      }
    }
  }

  lemma AppendClrs(log: Log, s: Session, c: Call)
    requires LogOk(log) && Accepts(s, c)
    ensures ClrsOk(Perform(log, s, c).0)
  {
    hide ChainsOk, EndingsOk, Numbered;
    var log' := Perform(log, s, c).0;
    forall k: nat | k < |log'| && log'[k].body.Clr? ensures exists i :: Compensates(log', k, i) {
      var i :| Compensates(log, k, i);
      assert Compensates(log', k, i);
    }
  }

  lemma PerformKeepsLog(log: Log, s: Session, c: Call)
    requires LogOk(log) && InStep(log, c.txn, s)
    ensures LogOk(Perform(log, s, c).0)
  {
    hide ChainsOk, EndingsOk, Numbered, ClrsOk, InStep;
    if Accepts(s, c) {
      AppendChains(log, s, c);
      AppendEndings(log, s, c);
      AppendClrs(log, s, c);
    }
  }

  function SessionOf(sessions: map<TxnId, Session>, t: TxnId): Session {
    if t in sessions then sessions[t] else Session(Idle, 0)
  }

  // Calls of any transactions in any order.
  function PerformAll(log: Log, sessions: map<TxnId, Session>, calls: seq<Call>): (Log, map<TxnId, Session>)
    decreases calls
  {
    if calls == [] then (log, sessions)
    else
      var (log', s') := Perform(log, SessionOf(sessions, calls[0].txn), calls[0]);
      PerformAll(log', sessions[calls[0].txn := s'], calls[1..])
  }

  ghost predicate AllInStep(log: Log, sessions: map<TxnId, Session>) {
    forall t | t in sessions :: InStep(log, t, sessions[t])
  }

  // Every interleaving keeps the log in the shape recovery relies on, with every session in step.
  // New transactions have ids the log has not seen.
  lemma {:induction false} InterleavingsOk(log: Log, sessions: map<TxnId, Session>, calls: seq<Call>)
    requires LogOk(log) && AllInStep(log, sessions)
    requires forall c | c in calls && c.txn !in sessions :: forall i | 0 <= i < |log| :: log[i].txn != c.txn
    ensures var (log', sessions') := PerformAll(log, sessions, calls);
      && LogOk(log') && AllInStep(log', sessions') && log <= log'
      && forall t | t in sessions' :: Forward(log', t)
    decreases calls
  {
    hide LogOk, Perform, InStep;
    if calls == [] {
      forall t | t in sessions ensures Forward(log, t) {
        InStepForward(log, t, sessions[t]);
      }
    } else {
      var c := calls[0];
      var s := SessionOf(sessions, c.txn);
      var (log', s') := Perform(log, s, c);
      var sessions' := sessions[c.txn := s'];
      if c.txn !in sessions {
        FreshInStep(log, c.txn);
      }
      PerformKeepsLog(log, s, c);
      forall t | t in sessions' ensures InStep(log', t, sessions'[t]) {
        if t == c.txn {
          OwnInStep(log, s, c);
        } else {
          PerformOthers(log, s, c, t, sessions[t]);
        }
      }
      PerformGrows(log, s, c);
      forall d | d in calls[1..] && d.txn !in sessions' ensures forall i | 0 <= i < |log'| :: log'[i].txn != d.txn {
        assert d in calls;
      }
      InterleavingsOk(log', sessions', calls[1..]);
    }
  }

  lemma InStepForward(log: Log, t: TxnId, s: Session)
    requires InStep(log, t, s)
    ensures Forward(log, t)
  {
  }

  lemma FreshInStep(log: Log, t: TxnId)
    requires forall i | 0 <= i < |log| :: log[i].txn != t
    ensures InStep(log, t, Session(Idle, 0))
  {
    LastLsnOwner(log, t);
  }

  lemma LastLsnOwner(log: Log, t: TxnId)
    ensures LastLsn(log, t) > 0 ==> exists i :: 0 <= i < |log| && log[i].txn == t
  {
    var n := LastLsn(log, t);
    if n > 0 {
      assert log[n - 1].txn == t;
    }
  }

  lemma PerformOthers(log: Log, s: Session, c: Call, t: TxnId, other: Session)
    requires InStep(log, t, other) && c.txn != t
    ensures InStep(Perform(log, s, c).0, t, other)
  {
    hide InStep;
    if Accepts(s, c) {
      OthersInStep(log, NextRecord(log, c.txn, s, BodyOf(c)), t, other);
    }
  }

  lemma PerformGrows(log: Log, s: Session, c: Call)
    ensures var log' := Perform(log, s, c).0;
      log <= log' && forall i | |log| <= i < |log'| :: log'[i].txn == c.txn
  {
  }

  // ---- One transaction ----

  class Transaction {
    const id: TxnId
    const wal: FileWalManager
    const pool: BufferPool
    var phase: Phase
    var lastLsn: nat

    ghost predicate Valid()
      reads this, wal, wal.dir
    {
      wal.Valid() && InStep(wal.Records(), id, Session(phase, lastLsn))
    }

    // The id is a new one.
    constructor (id: TxnId, wal: FileWalManager, pool: BufferPool)
      requires wal.Valid() && forall i | 0 <= i < |wal.Records()| :: wal.Records()[i].txn != id
      ensures Valid() && phase == Idle && this.id == id && this.wal == wal && this.pool == pool && lastLsn == 0
    {
      this.id := id;
      this.wal := wal;
      this.pool := pool;
      phase := Idle;
      lastLsn := 0;
      new;
      FreshInStep(wal.Records(), id);
    }

    // Each call does to the shared log and the session what Perform says; a refusal throws.
    method BeginTxn() returns (ok: bool)
      requires Valid()
      modifies this, wal
      ensures Valid() && ok == old(phase).Idle?
      ensures (wal.Records(), Session(phase, lastLsn)) ==
              Perform(old(wal.Records()), old(Session(phase, lastLsn)), CallBegin(id))
      ensures wal.flushed == old(wal.flushed)
    {
      hide InStep;
      OwnInStep(wal.Records(), Session(phase, lastLsn), CallBegin(id));
      if phase != Idle {
        return false;
      }
      lastLsn := wal.AppendLog(WalRecord(0, lastLsn, id, Begin));
      phase := Phase.Active;
      return true;
    }

    method AppendChange(change: Change) returns (ok: bool)
      requires Valid()
      modifies this, wal
      ensures Valid() && ok == old(phase).Active?
      ensures (wal.Records(), Session(phase, lastLsn)) ==
              Perform(old(wal.Records()), old(Session(phase, lastLsn)), CallAppend(id, change))
      ensures wal.flushed == old(wal.flushed)
    {
      hide InStep;
      OwnInStep(wal.Records(), Session(phase, lastLsn), CallAppend(id, change));
      if phase != Phase.Active {
        return false;
      }
      lastLsn := wal.AppendLog(WalRecord(0, lastLsn, id, Do(change)));
      return true;
    }

    // When commit returns, everything logged so far is in the log files, the transaction is a
    // committed one there, and the pages and index files it wrote are covered by the durable log.
    method CommitTxn() returns (ok: bool)
      requires Valid() && pool.Valid()
      modifies this, wal, wal.dir
      modifies pool.dataPages, pool.dataPages.disk, pool.indexFiles, pool.indexFiles.disk
      ensures Valid() && pool.Valid() && ok == old(phase).Active?
      ensures (wal.Records(), Session(phase, lastLsn)) ==
              Perform(old(wal.Records()), old(Session(phase, lastLsn)), CallCommit(id))
      ensures ok ==> wal.flushed == wal.Records() && FilesHold(wal.dir.files, wal.flushed) && Committed(wal.flushed, id)
      ensures ok ==> forall k | k in pool.dataPages.disk.pages ::
                || (k in old(pool.dataPages.disk.pages) && pool.dataPages.disk.pages[k] == old(pool.dataPages.disk.pages)[k])
                || pool.dataPages.disk.pages[k].lastLsn <= wal.flushedLsn
      ensures ok ==> forall k | k in pool.indexFiles.disk.pages ::
                || (k in old(pool.indexFiles.disk.pages) && pool.indexFiles.disk.pages[k] == old(pool.indexFiles.disk.pages)[k])
                || pool.indexFiles.disk.pages[k].lastLsn <= wal.flushedLsn
      ensures ok ==> pool.PageView() == old(pool.PageView())
      ensures ok ==> pool.dataPages.Snapshot() == Flush(old(pool.dataPages.Snapshot()), PagesUpTo(old(pool.dataPages.entries), lastLsn))
      ensures ok ==> pool.indexFiles.Snapshot() == Flush(old(pool.indexFiles.Snapshot()), FilesUpTo(old(pool.indexFiles.entries), lastLsn))
      ensures ok ==> forall k | k in pool.dataPages.entries && pool.dataPages.entries[k].value.lastLsn <= lastLsn ::
                !pool.dataPages.entries[k].dirty
      ensures ok ==> forall k | k in pool.indexFiles.entries && pool.indexFiles.entries[k].value.lastLsn <= lastLsn ::
                !pool.indexFiles.entries[k].dirty
    {
      hide InStep, FilesHold, Numbered, Sound, View, Flush, PagesUpTo, FilesUpTo;
      OwnInStep(wal.Records(), Session(phase, lastLsn), CallCommit(id));
      if phase != Phase.Active {
        return false;
      }
      lastLsn := wal.AppendLog(WalRecord(0, lastLsn, id, Commit));
      assert wal.Records()[lastLsn - 1].body.Commit? && wal.Records()[lastLsn - 1].txn == id;
      ghost var flushes := wal.WaitForDurable(lastLsn);
      FlushedPages(pool.dataPages.Snapshot(), lastLsn);
      FlushedFiles(pool.indexFiles.Snapshot(), lastLsn);
      pool.FlushDirtyUpTo(lastLsn);
      phase := Finished;
      return true;
    }
  }

  // Whatever happens in memory after a commit, opening the log directory again finds the committed
  // transaction.
  method ReopenAfterCommit(txn: Transaction, junk: nat -> Byte) returns (reopened: FileWalManager)
    requires txn.Valid() && txn.phase == Finished
    requires Storable(txn.wal.flushed) && txn.wal.flushedLsn >= txn.lastLsn
    ensures reopened.Valid() && reopened.flushed == txn.wal.flushed && Committed(reopened.flushed, txn.id)
  {
    FinishedCommitted(txn.wal.flushed, txn.wal.dirty, txn.id, Session(txn.phase, txn.lastLsn));
    NumberedPrefix(txn.wal.flushed, txn.wal.dirty);
    reopened := new FileWalManager.Open(txn.wal.dir, junk, txn.wal.flushed);
  }

  lemma NumberedPrefix(a: Log, b: Log)
    requires Numbered(a + b)
    ensures Numbered(a)
  {
    forall i | 0 <= i < |a| ensures a[i].lsn == i + 1 {
      assert a[i] == (a + b)[i];
    }
  }

  // A finished transaction whose last record is durable counts as committed.
  lemma FinishedCommitted(flushed: Log, dirty: Log, t: TxnId, s: Session)
    requires InStep(flushed + dirty, t, s) && s.phase.Finished? && s.lastLsn <= |flushed|
    ensures Committed(flushed, t)
  {
    assert flushed[s.lastLsn - 1] == (flushed + dirty)[s.lastLsn - 1];
  }
}
