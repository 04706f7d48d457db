/**
 The shape of a write-ahead log: LSNs count from 1, the records of one transaction are chained by
 prev, and compensation records, appended only by recovery, walk a transaction backwards.
 The record with LSN n is log[n - 1].
 */
module LogShape {
  import opened Types

  type Log = seq<WalRecord>

  ghost predicate Committed(log: Log, t: TxnId) {
    exists i :: 0 <= i < |log| && log[i].txn == t && log[i].body.Commit?
  }

  ghost predicate RolledBack(log: Log, t: TxnId) {
    exists i :: 0 <= i < |log| && log[i].txn == t && log[i].body.Rollback?
  }

  // The LSN of the last record of t; 0 when it has none.
  function LastLsn(log: Log, t: TxnId): (n: nat)
    ensures n <= |log|
    ensures n > 0 ==> log[n - 1].txn == t
    ensures forall i :: n <= i < |log| ==> log[i].txn != t
  {
    if log == [] then 0
    else if log[|log| - 1].txn == t then |log|
    else LastLsn(log[..|log| - 1], t)
  }

  // Record i names the record just before it in its own transaction.
  ghost predicate Chained(log: Log, i: nat)
    requires i < |log|
  {
    var prev := log[i].prev;
    && 1 <= prev <= i
    && log[prev - 1].txn == log[i].txn
    && (log[prev - 1].body.Begin? || log[prev - 1].body.Do?)
    && (forall j :: prev <= j < i ==> log[j].txn != log[i].txn)
  }

  // Record c is the compensation of record i.
  ghost predicate Compensates(log: Log, c: nat, i: nat) {
    && i < c < |log|
    && log[i].txn == log[c].txn
    && log[i].body.Do?
    && log[c].body == Clr(log[i].prev, log[i].body.change)
  }

  ghost predicate Compensated(log: Log, i: nat) {
    exists c :: Compensates(log, c, i)
  }

  ghost predicate Numbered(log: Log) {
    forall i :: 0 <= i < |log| ==> log[i].lsn == i + 1
  }

  ghost predicate ChainsOk(log: Log) {
    && (forall i | 0 <= i < |log| && (log[i].body.Do? || log[i].body.Commit?) :: Chained(log, i))
    && (forall i | 0 <= i < |log| && log[i].body.Begin? :: log[i].prev == 0)
    && (forall i, j | 0 <= i < j < |log| && log[i].txn == log[j].txn :: !log[j].body.Begin?)
  }

  // Nothing follows a commit or a rollback of the same transaction; once recovery compensates a
  // transaction, only compensations and the rollback marker follow.
  ghost predicate EndingsOk(log: Log) {
    forall i, j | 0 <= i < j < |log| && log[i].txn == log[j].txn ::
      && !log[i].body.Commit? && !log[i].body.Rollback?
      && (log[i].body.Clr? ==> log[j].body.Clr? || log[j].body.Rollback?)
  }

  // Each compensation belongs to a record, and a transaction is compensated strictly backwards.
  ghost predicate ClrsOk(log: Log) {
    && (forall c | 0 <= c < |log| && log[c].body.Clr? :: exists i :: Compensates(log, c, i))
    && (forall c, d | 0 <= c < d < |log| && log[c].txn == log[d].txn && log[c].body.Clr? && log[d].body.Clr? ::
          log[d].body.undoNext < log[c].body.undoNext)
  }

  ghost predicate LogOk(log: Log) {
    Numbered(log) && ChainsOk(log) && EndingsOk(log) && ClrsOk(log)
  }

  lemma ChainedGrows(log: Log, r: WalRecord, i: nat)
    requires i < |log| && Chained(log, i)
    ensures Chained(log + [r], i)
  {
  }

  // Two records of one transaction never name the same predecessor.
  lemma PrevUnique(log: Log, i: nat, j: nat)
    requires ChainsOk(log) && i < j < |log| && log[i].txn == log[j].txn
    requires log[i].body.Do? && log[j].body.Do?
    ensures log[i].prev < i + 1 <= log[j].prev
  {
    assert Chained(log, i) && Chained(log, j);
  }

  // A record has at most one compensation.
  lemma CompensationUnique(log: Log, c: nat, d: nat, i: nat)
    requires LogOk(log) && Compensates(log, c, i) && Compensates(log, d, i)
    ensures c == d
  {
  }

  lemma CompensatesOne(log: Log, c: nat, i: nat, j: nat)
    requires LogOk(log) && Compensates(log, c, i) && Compensates(log, c, j)
    ensures i == j
  {
    if i < j {
      PrevUnique(log, i, j);
    } else if j < i {
      PrevUnique(log, j, i);
    }
  }

  // A transaction that recovery compensates has not committed.
  lemma CompensatedNotCommitted(log: Log, c: nat)
    requires LogOk(log) && c < |log| && log[c].body.Clr?
    ensures !Committed(log, log[c].txn)
  {
    hide ChainsOk, ClrsOk, Numbered;
    forall i | 0 <= i < |log| && log[i].txn == log[c].txn ensures !log[i].body.Commit? {
      if i < c {
        assert log[i].txn == log[c].txn;
      } else if c < i {
        assert log[c].txn == log[i].txn;
      }
    }
  }
}
