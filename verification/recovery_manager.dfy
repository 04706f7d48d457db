/**
 The recovery manager as it runs on the log manager and the page files. Each method is tied to the
 steps it takes on the durable state; the ghost results are the durable states passed through, in
 order, which are the states a crash can leave behind.
 */
module RecoveryManagers {
  import opened Types
  import opened PageRows
  import opened PageLedger
  import opened LogShape
  import opened WalManager
  import opened RecoveryInvariant
  import opened RecoverySteps
  import opened RecoveryRuns

  // A data page read into memory.
  class LoadedPage {
    const id: PageId
    var rows: seq<Row>
    var lastLsn: nat

    constructor (id: PageId, page: DataPage)
      ensures this.id == id && rows == page.rows && lastLsn == page.lastLsn
    {
      this.id := id;
      rows, lastLsn := page.rows, page.lastLsn;
    }

    method EditFirstRow(rowId: nat, e: Edit)
      modifies this`rows
      ensures rows == EditFirst(old(rows), rowId, e)
    {
      for i := 0 to |rows|
        invariant rows == old(rows)
        invariant forall j :: 0 <= j < i ==> rows[j].id != rowId
      {
        if rows[i].id != rowId {
          continue;
        }
        FirstAt(rows, rowId, i);
        rows := rows[i := Edited(rows[i], e)];
        return;
      }
    }

    method RedoChange(c: Change)
      modifies this`rows
      ensures rows == Redo(old(rows), c)
    {
      match c
      case InsertRow(_, _, after) =>
        rows := rows + [after];
      case UpdateRow(_, _, before, after) =>
        EditFirstRow(before.id, Hide);
        rows := rows + [after];
      case DeleteRow(_, _, before) =>
        EditFirstRow(before.id, Hide);
      case _ =>
    }

    // Undoing a change, and redoing its compensation.
    method UndoChange(c: Change)
      modifies this`rows
      ensures rows == Undo(old(rows), c)
    {
      match c
      case InsertRow(_, _, after) =>
        EditFirstRow(after.id, Hide);
      case UpdateRow(_, _, before, after) =>
        EditFirstRow(after.id, Restore(before.tokens));
      case DeleteRow(_, _, before) =>
        EditFirstRow(before.id, Show);
      case _ =>
    }
  }

  lemma FirstAt(rows: seq<Row>, id: nat, i: nat)
    requires i < |rows| && rows[i].id == id && forall j :: 0 <= j < i ==> rows[j].id != id
    ensures IndexOf(rows, id) == i
  {
    var j := IndexOf(rows, id);
    assert j <= i;
  }

  // The page files.
  class IoManager {
    var pages: map<PageId, DataPage>

    constructor (pages: map<PageId, DataPage>)
      ensures this.pages == pages
    {
      this.pages := pages;
    }

    method ReadDataPage(id: PageId) returns (page: LoadedPage?)
      ensures page == null <==> id !in pages
      ensures page != null ==> fresh(page) && page.id == id && DataPage(page.rows, page.lastLsn) == pages[id]
    {
      if id in pages {
        page := new LoadedPage(id, pages[id]);
      } else {
        page := null;
      }
    }

    method CreatePage(id: PageId) returns (page: LoadedPage)
      ensures fresh(page) && page.id == id && page.rows == [] && page.lastLsn == 0
    {
      page := new LoadedPage(id, DataPage([], 0));
    }

    method WritePage(page: LoadedPage)
      modifies this
      ensures pages == old(pages)[page.id := DataPage(page.rows, page.lastLsn)]
    {
      pages := pages[page.id := DataPage(page.rows, page.lastLsn)];
    }
  }

  // One run of durable states after another.
  lemma PathJoin(a: seq<Store>, s: Store)
    requires RecPath(a) && RecStep(Last(a), s)
    ensures RecPath(a + [s]) && Last(a + [s]) == s
  {
    hide RecStep;
  }

  class RecoveryManager {
    const lastCheckpoint: nat
    const wal: FileWalManager
    const io: IoManager

    constructor (lastCheckpoint: nat, wal: FileWalManager, io: IoManager)
      ensures this.lastCheckpoint == lastCheckpoint && this.wal == wal && this.io == io
    {
      this.lastCheckpoint := lastCheckpoint;
      this.wal := wal;
      this.io := io;
    }

    ghost function Durable(): Store
      reads wal, io
    {
      Store(wal.flushed, io.pages)
    }

    ghost predicate Ready()
      reads wal, wal.dir, io
    {
      wal.Valid() && wal.dirty == []
    }

    method GetCommitLsns(log: Log) returns (lsns: map<TxnId, nat>)
      requires Numbered(log)
      ensures forall t :: t in lsns <==> Committed(log, t)
      ensures forall t | t in lsns :: 0 < lsns[t] <= |log| && log[lsns[t] - 1].txn == t && log[lsns[t] - 1].body.Commit?
    {
      lsns := map[];
      for i := 0 to |log|
        invariant forall t :: t in lsns <==> exists j :: 0 <= j < i && log[j].txn == t && log[j].body.Commit?
        invariant forall t | t in lsns :: 0 < lsns[t] <= |log| && log[lsns[t] - 1].txn == t && log[lsns[t] - 1].body.Commit?
      {
        if log[i].body.Commit? {
          lsns := lsns[log[i].txn := log[i].lsn];
        }
      }
    }

    method GetRollbackLsns(log: Log) returns (lsns: map<TxnId, nat>)
      ensures forall t :: t in lsns <==> RolledBack(log, t)
    {
      lsns := map[];
      for i := 0 to |log|
        invariant forall t :: t in lsns <==> exists j :: 0 <= j < i && log[j].txn == t && log[j].body.Rollback?
      {
        if log[i].body.Rollback? {
          lsns := lsns[log[i].txn := log[i].lsn];
        }
      }
    }

    method GetLastLsns(log: Log) returns (lsns: map<TxnId, nat>)
      requires Numbered(log)
      ensures forall t :: t in lsns <==> LastLsn(log, t) > 0
      ensures forall t | t in lsns :: lsns[t] == LastLsn(log, t)
    {
      lsns := map[];
      for i := 0 to |log|
        invariant forall t :: t in lsns <==> LastLsn(log[..i], t) > 0
        invariant forall t | t in lsns :: lsns[t] == LastLsn(log[..i], t)
      {
        assert log[..i + 1][..i] == log[..i];
        lsns := lsns[log[i].txn := log[i].lsn];
      }
      assert log[..|log|] == log;
    }

    method GetActiveTxns(last: map<TxnId, nat>, commit: map<TxnId, nat>, rollback: map<TxnId, nat>)
      returns (active: map<TxnId, nat>)
      ensures forall t :: t in active <==> t in last && t !in commit && t !in rollback
      ensures forall t | t in active :: active[t] == last[t]
    {
      active := map[];
      var pending := last.Keys;
      while pending != {}
        invariant pending <= last.Keys
        invariant forall t :: t in active <==> t in last && t !in pending && t !in commit && t !in rollback
        invariant forall t | t in active :: active[t] == last[t]
        decreases |pending|
      {
        var t :| t in pending;
        if t !in commit && t !in rollback {
          active := active[t := last[t]];
        }
        pending := pending - {t};
      }
    }

    // Redo of one data record or its compensation, guarded by the LSN of its page.
    method RedoData(i: nat, log: Log, ghost stores: seq<Store>) returns (ghost stores': seq<Store>)
      requires Ready() && log == wal.flushed && Numbered(log)
      requires i < |log| && (log[i].body.Do? || log[i].body.Clr?) && log[i].body.change.IsData()
      requires Replayed(log, i, log[i].body.change.page) && CaughtUp(Durable(), i)
      requires stores != [] && RecPath(stores) && Last(stores) == Durable()
      modifies io
      ensures Ready() && RecPath(stores') && stores <= stores' && Last(stores') == Durable()
      ensures CaughtUp(Durable(), i + 1)
    {
      hide RecPath, Redo, Undo;
      stores' := stores;
      ghost var s := Durable();
      var change := log[i].body.change;
      var page := io.ReadDataPage(change.page);
      if page == null {
        page := io.CreatePage(change.page);
      }
      assert PageAt(io.pages, change.page) == DataPage(page.rows, page.lastLsn);
      if page.lastLsn < log[i].lsn {
        if log[i].body.Do? {
          page.RedoChange(change);
        } else {
          page.UndoChange(change);
        }
        page.lastLsn := log[i].lsn;
        io.WritePage(page);
        assert RedoWrite(s, Durable(), i, change.page);
        PathJoin(stores, Durable());
        stores' := stores + [Durable()];
      }
      NextCaughtUp(s, Durable(), i, change.page);
    }

    // Redo of one record.
    method RedoRecord(i: nat, log: Log, commitLsns: map<TxnId, nat>, ghost stores: seq<Store>)
      returns (ghost stores': seq<Store>)
      requires Ready() && log == wal.flushed && LogOk(log) && i < |log| && CaughtUp(Durable(), i)
      requires forall t :: t in commitLsns <==> Committed(log, t)
      requires forall t | t in commitLsns ::
                 0 < commitLsns[t] <= |log| && log[commitLsns[t] - 1].txn == t && log[commitLsns[t] - 1].body.Commit?
      requires lastCheckpoint <= |log| && CaughtUp(Durable(), lastCheckpoint)
      requires stores != [] && RecPath(stores) && Last(stores) == Durable()
      modifies io
      ensures Ready() && RecPath(stores') && stores <= stores' && Last(stores') == Durable()
      ensures CaughtUp(Durable(), i + 1)
      ensures lastCheckpoint <= |log| && CaughtUp(Durable(), lastCheckpoint)
    {
      hide RecPath, Committed, ChainsOk, ClrsOk;
      stores' := stores;
      var record := log[i];
      if record.body.Clr? {
        if record.lsn <= lastCheckpoint {
          return;
        }
        if record.body.change.IsData() {
          stores' := RedoData(i, log, stores);
        }
        return;
      }
      if record.txn !in commitLsns {
        return;
      }
      if record.lsn <= lastCheckpoint {
        return;
      }
      if record.lsn > commitLsns[record.txn] {
        return;
      }
      if record.body.Do? && record.body.change.IsData() {
        stores' := RedoData(i, log, stores);
      }
    }

    // Appends a record and makes it durable.
    method AppendDurable(record: WalRecord)
      requires Ready()
      modifies wal, wal.dir
      ensures Ready() && wal.flushed == old(wal.flushed) + [record.(lsn := |old(wal.flushed)| + 1)]
    {
      assert wal.flushed + wal.dirty == wal.flushed;
      var _ := wal.AppendLog(record);
      wal.Flush();
    }

    // Undo of the record with LSN cur: compensate it and take its effect out, or step over it.
    // The LSN from which to go on is strictly lower.
    method UndoOne(ghost e: Epoch, t: TxnId, cur: nat, ghost stores: seq<Store>)
      returns (next: nat, ghost stores': seq<Store>)
      requires Ready() && Recoverable(Durable(), e) && CaughtUp(Durable(), |wal.flushed|)
      requires Active(wal.flushed, t) && UndoneAbove(Durable(), t, cur) && cur > 0
      requires stores != [] && RecPath(stores) && Last(stores) == Durable()
      modifies wal, wal.dir, io
      ensures Ready() && CaughtUp(Durable(), |wal.flushed|) && UndoneAbove(Durable(), t, next) && next < cur
      ensures RecPath(stores') && stores <= stores' && Last(stores') == Durable() && Recoverable(Durable(), e)
      ensures SameOpen(old(wal.flushed), wal.flushed, t)
    {
      hide RecPath, EpochOk, HistoriesOk, PagesOk, TxnsOk, LogOk, UndoneAbove, CaughtUp, Undo, Redo, Active, SameOpen;
      SameOpenRefl(wal.flushed, t);
      stores' := stores;
      ghost var s := Durable();
      CurRecord(s, t, cur);
      var found := wal.ReadLog(cur);
      assert wal.flushed + wal.dirty == wal.flushed;
      var record := found.value;
      match record.body {
        // An open transaction has no rollback marker, so the walk never meets one.
        case Rollback => assert false;
        case Clr(undoNext, _) =>
          ClrMove(s, t, cur);
          next := undoNext;
        case Do(change) =>
          PrevRecord(s.log, cur);
          next := record.prev;
          if change.IsData() {
            var page := io.ReadDataPage(change.page);
            if page == null {
              SkipMove(s, t, cur);
              return;
            }
            ClrKeeps(s, e, t, cur);
            var clrLsn := wal.GetNextLsn();
            AppendDurable(WalRecord(0, 0, record.txn, Clr(record.prev, change)));
            ClrSameOpen(s.log, t, cur);
            ghost var appended := Durable();
            assert ClrWrite(s, appended, t, cur);
            PathJoin(stores, appended);
            page.UndoChange(change);
            page.lastLsn := clrLsn;
            io.WritePage(page);
            PageLsnDurable(s, e, change.page);
            UndoWritten(s, appended, Durable(), t, cur);
            StepKeepsView(appended, Durable(), e, 0);
            PathJoin(stores + [appended], Durable());
            stores' := stores + [appended] + [Durable()];
          } else {
            ClrKeeps(s, e, t, cur);
            AppendDurable(WalRecord(0, 0, record.txn, Clr(record.prev, change)));
            ClrSameOpen(s.log, t, cur);
            assert ClrWrite(s, Durable(), t, cur);
            PathJoin(stores, Durable());
            stores' := stores + [Durable()];
          }
        case _ =>
          BeginMove(s, t, cur);
          next := record.prev;
      }
    }

    // Undo of one open transaction: back along its records, then the marker that closes it.
    method UndoTxn(ghost e: Epoch, t: TxnId, lastLsn: nat, ghost stores: seq<Store>) returns (ghost stores': seq<Store>)
      requires Ready() && Recoverable(Durable(), e) && CaughtUp(Durable(), |wal.flushed|)
      requires Active(wal.flushed, t) && lastLsn == LastLsn(wal.flushed, t)
      requires stores != [] && RecPath(stores) && Last(stores) == Durable() && Recoverable(stores[0], e)
      modifies wal, wal.dir, io
      ensures Ready() && CaughtUp(Durable(), |wal.flushed|) && Recoverable(Durable(), e)
      ensures RecPath(stores') && stores <= stores' && Last(stores') == Durable()
      ensures forall t' :: Active(wal.flushed, t') <==> Active(old(wal.flushed), t') && t' != t
      ensures forall t' | t' != t :: LastLsn(wal.flushed, t') == LastLsn(old(wal.flushed), t')
    {
      hide RecPath, EpochOk, HistoriesOk, PagesOk, LogOk, UndoneAbove, CaughtUp, Committed, RolledBack, LastLsn;
      SameOpenRefl(wal.flushed, t);
      stores' := stores;
      var current := lastLsn;
      while current != 0
        invariant Ready() && CaughtUp(Durable(), |wal.flushed|) && Recoverable(Durable(), e)
        invariant UndoneAbove(Durable(), t, current)
        invariant stores != [] && stores <= stores' && RecPath(stores') && Last(stores') == Durable()
        invariant SameOpen(old(wal.flushed), wal.flushed, t)
        decreases current
      {
        current, stores' := UndoOne(e, t, current, stores');
      }
      ghost var s := Durable();
      RollbackKeeps(s, e, t);
      GrownLog(s.log, RollbackFor(s.log, t));
      AppendDurable(WalRecord(0, 0, t, Rollback));
      assert RollbackWrite(s, Durable(), t);
      PathJoin(stores', Durable());
      stores' := stores' + [Durable()];
    }

    method UndoLosers(ghost e: Epoch, active: map<TxnId, nat>, ghost stores: seq<Store>) returns (ghost stores': seq<Store>)
      requires Ready() && Recoverable(Durable(), e) && CaughtUp(Durable(), |wal.flushed|)
      requires forall t :: t in active <==> Active(wal.flushed, t)
      requires forall t | t in active :: active[t] == LastLsn(wal.flushed, t)
      requires stores != [] && RecPath(stores) && Last(stores) == Durable() && Recoverable(stores[0], e)
      modifies wal, wal.dir, io
      ensures Ready() && Quiet(Durable())
      ensures RecPath(stores') && stores <= stores' && Last(stores') == Durable()
      ensures active == map[] ==> Durable() == old(Durable())
    {
      hide RecPath, Recoverable, CaughtUp, Active, LastLsn;
      stores' := stores;
      var pending := active.Keys;
      while pending != {}
        invariant Ready() && CaughtUp(Durable(), |wal.flushed|) && Recoverable(Durable(), e)
        invariant stores != [] && stores <= stores' && RecPath(stores') && Last(stores') == Durable()
        invariant Recoverable(stores[0], e)
        invariant pending <= active.Keys
        invariant forall t :: t in pending <==> Active(wal.flushed, t)
        invariant forall t | t in pending :: active[t] == LastLsn(wal.flushed, t)
        invariant active == map[] ==> Durable() == old(Durable())
        decreases |pending|
      {
        var t :| t in pending;
        stores' := UndoTxn(e, t, active[t], stores');
        pending := pending - {t};
      }
    }

    // The redo pass over the whole log.
    method RedoAll(log: Log, commitLsns: map<TxnId, nat>) returns (ghost stores: seq<Store>)
      requires Ready() && log == wal.flushed && LogOk(log)
      requires forall t :: t in commitLsns <==> Committed(log, t)
      requires forall t | t in commitLsns ::
                 0 < commitLsns[t] <= |log| && log[commitLsns[t] - 1].txn == t && log[commitLsns[t] - 1].body.Commit?
      requires lastCheckpoint <= |log| && CaughtUp(Durable(), lastCheckpoint)
      modifies io
      ensures Ready() && stores != [] && RecPath(stores) && stores[0] == old(Durable()) && Last(stores) == Durable()
      ensures CaughtUp(Durable(), |log|)
      ensures old(Quiet(Durable())) ==> Durable() == old(Durable())
    {
      hide RecPath, LogOk, CaughtUp, Committed, Quiet;
      stores := [Durable()];
      OneState(Durable());
      NothingYet(Durable());
      for i := 0 to |log|
        invariant Ready() && wal.flushed == log && CaughtUp(Durable(), i)
        invariant lastCheckpoint <= |log| && CaughtUp(Durable(), lastCheckpoint)
        invariant stores != [] && RecPath(stores) && stores[0] == old(Durable()) && Last(stores) == Durable()
        invariant old(Quiet(Durable())) ==> Durable() == old(Durable())
      {
        ghost var before := stores;
        stores := RedoRecord(i, log, commitLsns, stores);
        QuietStays(before, stores);
      }
    }

    // Redo all that is committed or compensated, then undo the rest. Every durable state passed
    // through is one that can be recovered from again, and at the end there is nothing left to do.
    method Recover(ghost e: Epoch) returns (ghost stores: seq<Store>)
      requires Ready() && Recoverable(Durable(), e)
      requires lastCheckpoint <= |wal.flushed| && CaughtUp(Durable(), lastCheckpoint)
      modifies wal, wal.dir, io
      ensures Ready() && stores != [] && RecPath(stores) && stores[0] == old(Durable()) && Last(stores) == Durable()
      ensures Recoverable(Durable(), e) && Quiet(Durable())
      ensures MayRestart(stores, e, lastCheckpoint)
      ensures old(Quiet(Durable())) ==> Durable() == old(Durable())
      ensures ShowsView(io.pages, old(wal.flushed), e)
    {
      hide RecPath, Recoverable, CaughtUp, Active, LastLsn, Committed, RolledBack, MayRestart, ShowsView, LogOk, Numbered, Quiet,
           RecStep, CommittedRows, LeftOver;
      var log := wal.ReadAllLogs();
      assert wal.flushed + wal.dirty == wal.flushed;
      LogOfRecoverable(Durable(), e);
      var commitLsns := GetCommitLsns(log);
      var rollbackLsns := GetRollbackLsns(log);
      var lastLsns := GetLastLsns(log);
      stores := RedoAll(log, commitLsns);
      var activeTxns := GetActiveTxns(lastLsns, commitLsns, rollbackLsns);
      ActiveMeans(log);
      PathRecoverable(stores, e, |stores| - 1, 0);
      QuietMeansNoneOpen(old(Durable()), activeTxns);
      stores := UndoLosers(e, activeTxns, stores);
      RecoveredAll(stores, e);
      RestartableAnywhere(stores, e, lastCheckpoint);
    }
  }

  lemma NextCaughtUp(s: Store, s': Store, i: nat, p: PageId)
    requires i < |s.log| && s'.log == s.log && CaughtUp(s, i) && Replayed(s.log, i, p)
    requires if PageAt(s.disk, p).lastLsn <= i then s' == WithPage(s, p, Advanced(s.log, i, PageAt(s.disk, p))) else s' == s
    ensures CaughtUp(s', i + 1)
  {
  }

  lemma CurRecord(s: Store, t: TxnId, cur: nat)
    requires UndoneAbove(s, t, cur) && cur > 0
    ensures cur <= |s.log| && s.log[cur - 1].txn == t && !s.log[cur - 1].body.Rollback? && !s.log[cur - 1].body.Commit?
  {
  }

  // No page on disk is ahead of the durable log.
  lemma PageLsnDurable(s: Store, e: Epoch, p: PageId)
    requires Recoverable(s, e)
    ensures PageAt(s.disk, p).lastLsn <= |s.log|
  {
    hide Holds, LogOk, TxnsOk, EpochOk, HistoriesOk, History;
    assert PageOk(s.log, e, s.disk, p);
  }

  // Writing the page after its compensation is the redo of that compensation.
  lemma UndoWritten(s: Store, s': Store, s'': Store, t: TxnId, cur: nat)
    requires 0 < cur <= |s.log| && s.log[cur - 1].body.Do? && s.log[cur - 1].body.change.IsData()
    requires s' == WithRecord(s, ClrFor(s.log, cur)) && CaughtUp(s', |s.log|)
    requires s.log[cur - 1].body.change.page in s.disk && s.disk[s.log[cur - 1].body.change.page].lastLsn <= |s.log|
    requires UndoneAbove(s', t, s.log[cur - 1].prev)
    requires var p := s.log[cur - 1].body.change.page;
      s'' == WithPage(s', p, DataPage(Undo(s.disk[p].rows, s.log[cur - 1].body.change), |s.log| + 1))
    ensures RecStep(s', s'') && CaughtUp(s'', |s''.log|)
    ensures UndoneAbove(s'', t, s.log[cur - 1].prev)
  {
    hide Resolved, Undo, UndoneAbove;
    var p := s.log[cur - 1].body.change.page;
    assert RedoWrite(s', s'', |s.log|, p);
    NextCaughtUp(s', s'', |s.log|, p);
    SameKeysUndone(s', s'', t, s.log[cur - 1].prev);
  }

  lemma SameKeysUndone(s: Store, s': Store, t: TxnId, cur: nat)
    requires UndoneAbove(s, t, cur) && s'.log == s.log && s'.disk.Keys == s.disk.Keys
    ensures UndoneAbove(s', t, cur)
  {
    hide Compensated, Replayed;
  }

  lemma OneState(s: Store)
    ensures RecPath([s])
  {
  }

  lemma LogOfRecoverable(s: Store, e: Epoch)
    requires Recoverable(s, e)
    ensures LogOk(s.log) && Numbered(s.log)
  {
  }

  lemma NothingYet(s: Store)
    ensures CaughtUp(s, 0)
  {
  }

  lemma ActiveMeans(log: Log)
    ensures forall t :: Active(log, t) <==> LastLsn(log, t) > 0 && !Committed(log, t) && !RolledBack(log, t)
  {
  }

  // A run of recovery steps from a state with nothing left to do does not move.
  lemma QuietStays(before: seq<Store>, after: seq<Store>)
    requires RecPath(after) && before != [] && before <= after
    ensures Quiet(Last(before)) ==> Last(after) == Last(before)
  {
    hide RecStep, Quiet;
    if |before| < |after| {
      if Quiet(Last(before)) {
        QuietIsFinal(after[|before| - 1], after[|before|]);
      }
    }
  }

  // The same transactions are open, and those other than t stand where they stood.
  ghost predicate SameOpen(log: Log, log': Log, t: TxnId) {
    && (forall t' :: Active(log', t') <==> Active(log, t'))
    && (forall t' | t' != t :: LastLsn(log', t') == LastLsn(log, t'))
  }

  lemma SameOpenRefl(log: Log, t: TxnId)
    ensures SameOpen(log, log, t)
    ensures forall a, b | SameOpen(a, b, t) && SameOpen(log, a, t) :: SameOpen(log, b, t)
  {
    hide Active, LastLsn;
  }

  lemma ClrSameOpen(log: Log, t: TxnId, cur: nat)
    requires Active(log, t) && 0 < cur <= |log| && log[cur - 1].body.Do? && log[cur - 1].txn == t
    ensures SameOpen(log, log + [ClrFor(log, cur)], t)
  {
    hide LastLsn, Committed, RolledBack;
    GrownLog(log, ClrFor(log, cur));
  }

  lemma QuietMeansNoneOpen(s: Store, active: map<TxnId, nat>)
    requires forall t :: t in active <==> Active(s.log, t)
    ensures Quiet(s) ==> active == map[]
  {
    hide Active, CaughtUp;
    if active != map[] {
      var t :| t in active;
      assert Active(s.log, t);
    }
  }

  // Every page shows the committed rows and what undoing has left over: the committed rows alone exactly
  // when no transaction without a commit had updated a row version of its own there.
  ghost predicate ShowsView(pages: map<PageId, DataPage>, log: Log, e: Epoch) {
    forall p ::
      && SameShown(PageAt(pages, p).rows, RecoveredView(log, e, p))
      && (ShowsCommitted(pages, log, e, p) <==> !OwnUpdateReached(log, e, p))
  }

  lemma RecoveredAll(stores: seq<Store>, e: Epoch)
    requires RecPath(stores) && Recoverable(stores[0], e) && Quiet(Last(stores))
    ensures Recoverable(Last(stores), e) && ShowsView(Last(stores).disk, stores[0].log, e)
  {
    hide Recoverable, LiveCount, CommittedRows, LeftOver, RecoveredView, ShowsCommitted, OwnUpdateReached, Quiet, RecStep;
    PathRecoverable(stores, e, |stores| - 1, 0);
    forall p
      ensures SameShown(PageAt(Last(stores).disk, p).rows, RecoveredView(stores[0].log, e, p))
      ensures ShowsCommitted(Last(stores).disk, stores[0].log, e, p) <==> !OwnUpdateReached(stores[0].log, e, p)
    {
      forall t ensures LiveCount(PageAt(Last(stores).disk, p).rows, t) == LiveCount(RecoveredView(stores[0].log, e, p), t) {
        RecoveredRows(stores, e, p, t);
      }
      RecoveredExactly(stores, e, p);
    }
  }

  // Each state can be recovered from again, with the same checkpoint.
  ghost predicate MayRestart(stores: seq<Store>, e: Epoch, n: nat) {
    forall i | 0 <= i < |stores| :: Recoverable(stores[i], e) && n <= |stores[i].log| && CaughtUp(stores[i], n)
  }

  // A crash at any point of recovery leaves a state from which recovery can start again.
  lemma RestartableAnywhere(stores: seq<Store>, e: Epoch, n: nat)
    requires RecPath(stores) && Recoverable(stores[0], e) && n <= |stores[0].log| && CaughtUp(stores[0], n)
    ensures MayRestart(stores, e, n)
  {
    hide Recoverable, CommittedRows, LeftOver, RecStep, CaughtUp;
    for i := 0 to |stores|
      invariant forall j | 0 <= j < i :: Recoverable(stores[j], e) && n <= |stores[j].log| && CaughtUp(stores[j], n)
    {
      PathRecoverable(stores, e, i, 0);
      if i > 0 {
        StepKeepsCaughtUp(stores[i - 1], stores[i], n);
      }
    }
  }

  lemma StepKeepsCaughtUp(s: Store, s': Store, n: nat)
    requires RecStep(s, s') && n <= |s.log| && CaughtUp(s, n)
    ensures n <= |s'.log| && CaughtUp(s', n)
  {
    hide UndoneAbove, Active, Compensates;
    if t, cur: nat :| ClrWrite(s, s', t, cur) {
      GrownCaughtUp(s, ClrFor(s.log, cur), n);
    } else if t :| RollbackWrite(s, s', t) {
      GrownCaughtUp(s, RollbackFor(s.log, t), n);
    }
  }

  lemma GrownCaughtUp(s: Store, r: WalRecord, n: nat)
    requires (r.body.Clr? || r.body.Rollback?) && n <= |s.log| && CaughtUp(s, n)
    ensures CaughtUp(WithRecord(s, r), n)
  {
    hide Compensates;
    GrownLog(s.log, r);
    var s' := WithRecord(s, r);
    forall i: nat, p | i < |s.log| ensures Replayed(s'.log, i, p) <==> Replayed(s.log, i, p) {
      assert s'.log[i] == s.log[i];
    }
  }
}
