/**
 The calls of transactions are steps of the engine's runs, a commit's flush and page writes included.
 */
module EngineCalls {
  import opened Types
  import opened LogShape
  import opened PageRows
  import opened RecoveryInvariant
  import opened EngineRuns
  import opened TablePages
  import opened StatementRuns
  import opened TokenBytes
  import opened Caches
  import opened BufferPools
  import T = Transactions

  // An open session belongs to a transaction that recovery would have to undo.
  lemma OpenIsActive(log: Log, t: TxnId, s: T.Session)
    requires LogOk(log) && T.InStep(log, t, s) && s.phase.Active?
    ensures Active(log, t)
  {
    hide ChainsOk, ClrsOk, Numbered, T.InStep, T.Forward, LastLsn;
    assert s.lastLsn > 0 && s.lastLsn == LastLsn(log, t) by {
      OpenParts(log, t, s);
    }
    forall i: nat | i < |log| && log[i].txn == t ensures log[i].body.Begin? || log[i].body.Do? {
      T.OpenHasNoEnd(log, t, s, i);
    }
  }

  lemma OpenParts(log: Log, t: TxnId, s: T.Session)
    requires T.InStep(log, t, s)
    ensures s.lastLsn == LastLsn(log, t) && (s.phase.Active? ==> s.lastLsn > 0) && (s.phase.Idle? ==> s.lastLsn == 0)
  {
  }

  // The record a call appends is the one the engine's step appends.
  lemma SameRecord(log: Log, t: TxnId, s: T.Session, body: Body)
    requires T.InStep(log, t, s)
    ensures T.NextRecord(log, t, s, body) == NewRecord(log, t, body)
  {
  }

  // An accepted call of a transaction in step with the log is a step of the engine; a row change goes
  // with its effect on the page in memory.
  lemma CallIsStep(m: Machine, s: T.Session, c: T.Call)
    requires m.Up? && LogOk(m.log) && T.InStep(m.log, c.txn, s) && T.Accepts(s, c)
    requires c.CallAppend? && c.change.IsData() ==> MayChange(PageAt(m.mem, c.change.page).rows, c.change)
    ensures exists m' :: Next(m, m') && m'.Up? && m'.log == T.Perform(m.log, s, c).0 && m'.durable == m.durable && m'.disk == m.disk
  {
    hide LogOk, T.InStep, LastLsn, Active, MayChange;
    OpenParts(m.log, c.txn, s);
    SameRecord(m.log, c.txn, s, T.BodyOf(c));
    var log' := T.Perform(m.log, s, c).0;
    if !c.CallBegin? {
      OpenIsActive(m.log, c.txn, s);
    }
    match c
    case CallBegin(t) =>
      var m' := m.(log := log');
      assert BeginStep(m, m', t);
      assert Next(m, m');
    case CallCommit(t) =>
      var m' := m.(log := log');
      assert CommitStep(m, m', t);
      assert Next(m, m');
    case CallAppend(t, change) =>
      if change.IsData() {
        var m' := m.(log := log', mem := m.mem[change.page := DataPage(Redo(PageAt(m.mem, change.page).rows, change), |m.log| + 1)]);
        assert ChangeStep(m, m', t, change);
        assert Next(m, m');
      } else {
        var m' := m.(log := log');
        assert MetaStep(m, m', t, change);
        assert Next(m, m');
      }
  }

  // ---- Commit ----

  // Pages that are on disk already, or in memory and covered by the durable log, may all be on disk.
  ghost predicate MayWrite(m: Machine, disk: map<PageId, DataPage>)
    requires m.Up?
  {
    && m.disk.Keys <= disk.Keys
    && forall p | p in disk ::
         || (p in m.disk && disk[p] == m.disk[p])
         || (p in m.mem && disk[p] == m.mem[p] && m.mem[p].lastLsn <= m.durable)
  }

  lemma {:induction false} WritesReach(m: Machine, disk: map<PageId, DataPage>, left: set<PageId>)
    requires m.Up? && MayWrite(m, disk)
    requires left == set p | p in disk && !(p in m.disk && m.disk[p] == disk[p])
    ensures Reaches(m, m.(disk := disk))
    decreases |left|
  {
    hide Path, Reaches;
    if left == {} {
      forall p | p in disk ensures p in m.disk && m.disk[p] == disk[p] {
        assert p !in left;
      }
      assert m.disk == disk;
      ReachesItself(m);
    } else {
      var p :| p in left;
      var a := m.(disk := m.disk[p := m.mem[p]]);
      assert WriteStep(m, a, p);
      ReachesNext(m, a);
      assert left - {p} == set q | q in disk && !(q in a.disk && a.disk[q] == disk[q]);
      WritesReach(a, disk, left - {p});
      ReachesOn(m, a, m.(disk := disk));
    }
  }

  // A commit record, a flush of the log, and writes of pages that the log then covers.
  lemma CommitReaches(m: Machine, t: TxnId, disk: map<PageId, DataPage>)
    requires m.Up? && Active(m.log, t) && m.durable <= |m.log|
    requires var log := m.log + [NewRecord(m.log, t, Commit)];
      MayWrite(m.(log := log, durable := |log|), disk)
    ensures var log := m.log + [NewRecord(m.log, t, Commit)];
      Reaches(m, m.(log := log, durable := |log|, disk := disk))
  {
    hide Active, NewRecord, Reaches, MayWrite;
    var log := m.log + [NewRecord(m.log, t, Commit)];
    var a := m.(log := log);
    var b := a.(durable := |log|);
    assert CommitStep(m, a, t);
    ReachesNext(m, a);
    assert FlushStep(a, b);
    ReachesNext(a, b);
    ReachesOn(m, a, b);
    WritesReach(b, disk, set p | p in disk && !(p in b.disk && b.disk[p] == disk[p]));
    ReachesOn(m, b, b.(disk := disk));
  }

  function DataPages(pages: map<PageId, TablePage>, realBytes: real -> seq<Byte>): map<PageId, DataPage> {
    map p | p in pages :: DataPage(RowsOf(pages[p].rows, realBytes), pages[p].lastLsn)
  }

  // The engine as the log and a cache show it: in memory is what reading a page returns.
  function Engine(log: Log, durable: nat, s: State<PageId, TablePage>, epoch: Epoch, realBytes: real -> seq<Byte>): Machine {
    Up(log, durable, DataPages(View(s), realBytes), DataPages(s.disk, realBytes), epoch)
  }

  // A flush of the cached pages that a durable log of n records covers writes pages the engine may write.
  lemma FlushMayWrite(log: Log, s: State<PageId, TablePage>, epoch: Epoch, realBytes: real -> seq<Byte>)
    ensures var flushed := Flush(s, PagesUpTo(s.entries, |log|));
      && View(flushed) == View(s)
      && MayWrite(Engine(log, |log|, s, epoch, realBytes), DataPages(flushed.disk, realBytes))
  {
    hide Flush, PagesUpTo, RowsOf;
    var flushed := Flush(s, PagesUpTo(s.entries, |log|));
    FlushedPages(s, |log|);
    FlushView(s, PagesUpTo(s.entries, |log|));
    var m, disk := Engine(log, |log|, s, epoch, realBytes), DataPages(flushed.disk, realBytes);
    forall p | p in disk
      ensures (p in m.disk && disk[p] == m.disk[p]) || (p in m.mem && disk[p] == m.mem[p] && m.mem[p].lastLsn <= m.durable)
    {
      if !(p in s.disk && flushed.disk[p] == s.disk[p]) {
        assert p in View(s) && View(s)[p] == flushed.disk[p];
      }
    }
  }

  ghost function EngineOf(txn: T.Transaction, epoch: Epoch, realBytes: real -> seq<Byte>): Machine
    reads txn.wal, txn.pool.dataPages, txn.pool.dataPages.policy, txn.pool.dataPages.disk
  {
    Engine(txn.wal.Records(), |txn.wal.flushed|, txn.pool.dataPages.Snapshot(), epoch, realBytes)
  }

  // A transaction's commit takes the engine from one state of a run to another.
  method CommitAsSteps(txn: T.Transaction, ghost epoch: Epoch, ghost realBytes: real -> seq<Byte>) returns (ok: bool)
    requires txn.Valid() && txn.pool.Valid() && LogOk(txn.wal.Records())
    modifies txn, txn.wal, txn.wal.dir
    modifies txn.pool.dataPages, txn.pool.dataPages.disk, txn.pool.indexFiles, txn.pool.indexFiles.disk
    ensures ok == old(txn.phase).Active?
    ensures ok ==> Reaches(old(EngineOf(txn, epoch, realBytes)), EngineOf(txn, epoch, realBytes))
  {
    hide LogOk, T.InStep, LastLsn, Active, Flush, PagesUpTo, FilesUpTo, View, DataPages, MayWrite, Reaches;
    ghost var s := T.Session(txn.phase, txn.lastLsn);
    ghost var log, before, durable := txn.wal.Records(), txn.pool.dataPages.Snapshot(), |txn.wal.flushed|;
    ok := txn.CommitTxn();
    if ok {
      OpenIsActive(log, txn.id, s);
      SameRecord(log, txn.id, s, Commit);
      ghost var log' := log + [NewRecord(log, txn.id, Commit)];
      FlushMayWrite(log', before, epoch, realBytes);
      CommitReaches(Engine(log, durable, before, epoch, realBytes), txn.id,
                    DataPages(Flush(before, PagesUpTo(before.entries, |log'|)).disk, realBytes));
    }
  }
}
