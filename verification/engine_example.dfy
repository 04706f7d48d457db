/**
 Two whole runs of the engine, from its start through a crash to the end of recovery: a committed insert that
 had not reached its page is there, and one without a commit that had reached it is gone.
 */
module EngineExamples {
  import opened Types
  import opened PageRows
  import opened LogShape
  import opened RecoveryInvariant
  import opened RecoverySteps
  import opened RecoveryRuns
  import opened EngineRuns

  const Fresh := Epoch(0, map[], map[], map[])

  // The records of one insert of transaction t.
  function Opened(t: TxnId): Log {
    [WalRecord(1, 0, t, Begin)]
  }

  function Inserted(t: TxnId, c: Change): Log {
    Opened(t) + [WalRecord(2, 1, t, Do(c))]
  }

  function Closed(t: TxnId, c: Change): Log {
    Inserted(t, c) + [WalRecord(3, 2, t, Commit)]
  }

  // The first two steps of a run.
  lemma InsertSteps(t: TxnId, c: Change)
    requires c.InsertRow? && c.after.flags == 0
    ensures Next(Start, Up(Opened(t), 0, map[], map[], Fresh))
    ensures Next(Up(Opened(t), 0, map[], map[], Fresh),
                 Up(Inserted(t, c), 0, map[c.page := DataPage([c.after], 2)], map[], Fresh))
  {
    var a, b := Up(Opened(t), 0, map[], map[], Fresh), Up(Inserted(t, c), 0, map[c.page := DataPage([c.after], 2)], map[], Fresh);
    assert Start.log + [NewRecord(Start.log, t, Begin)] == Opened(t);
    assert BeginStep(Start, a, t);
    assert !Committed(a.log, t) && !RolledBack(a.log, t);
    assert Redo([], c) == [c.after];
    assert ChangeStep(a, b, t, c);
  }

  ghost predicate OnlyInserts(log: Log) {
    forall i | 0 <= i < |log| && log[i].body.Do? :: log[i].body.change.InsertRow?
  }

  lemma InsertsOnly(t: TxnId, c: Change)
    requires c.InsertRow?
    ensures OnlyInserts(Inserted(t, c)) && OnlyInserts(Closed(t, c)) && |Inserted(t, c)| == 2 && |Closed(t, c)| == 3
  {
  }

  lemma InsertsApart(log: Log, p: PageId)
    requires OnlyInserts(log)
    ensures LosersApart(log, Fresh, p)
  {
  }

  lemma OpenOnly(log: Log, t: TxnId)
    requires log != [] && forall i | 0 <= i < |log| :: log[i].txn == t && !log[i].body.Commit? && !log[i].body.Rollback?
    ensures Active(log, t) && forall u :: u != t ==> !Active(log, u)
  {
  }

  lemma ClosedOnly(log: Log, t: TxnId)
    requires log != [] && (forall i | 0 <= i < |log| :: log[i].txn == t)
    requires log[|log| - 1].body.Commit? || log[|log| - 1].body.Rollback?
    ensures forall u :: !Active(log, u)
  {
    assert Committed(log, t) || RolledBack(log, t) by {
      assert log[|log| - 1].txn == t;
    }
  }

  function Last(states: seq<Machine>): Machine
    requires states != []
  {
    states[|states| - 1]
  }

  ghost predicate RunTo(states: seq<Machine>, s: Machine) {
    Run(states) && Last(states) == s
  }

  lemma RunOn(states: seq<Machine>, s: Machine, s': Machine)
    requires RunTo(states, s) && Next(s, s')
    ensures RunTo(states + [s'], s')
  {
    hide Next;
  }

  // A transaction has inserted a row on a page in memory.
  function AfterInsert(t: TxnId, c: Change): Machine
    requires c.InsertRow?
  {
    Up(Inserted(t, c), 0, map[c.page := DataPage([c.after], 2)], map[], Fresh)
  }

  lemma InsertRun(t: TxnId, c: Change) returns (states: seq<Machine>)
    requires c.InsertRow? && c.after.flags == 0
    ensures RunTo(states, AfterInsert(t, c))
  {
    hide Next, Inserted, Opened;
    InsertSteps(t, c);
    states := [Start, Up(Opened(t), 0, map[], map[], Fresh)];
    assert RunTo(states, Up(Opened(t), 0, map[], map[], Fresh));
    RunOn(states, Up(Opened(t), 0, map[], map[], Fresh), AfterInsert(t, c));
    states := states + [AfterInsert(t, c)];
  }

  // An insert of which only the log had become durable.
  lemma CommittedComesBack(t: TxnId, c: Change) returns (states: seq<Machine>)
    requires c.InsertRow? && c.after.flags == 0
    ensures Run(states)
    ensures Last(states).Down? && Quiet(Last(states).store) && PageAt(Last(states).store.disk, c.page).rows == [c.after]
  {
    hide Next, Run, Quiet, RecStep, Inserted, Opened, Closed, ReachedAt, PageAt, OnlyInserts;
    InsertsOnly(t, c);
    states := InsertRun(t, c);
    var b := AfterInsert(t, c);
    var d := b.(log := Closed(t, c));
    CommitNext(b, d, t, c);
    RunOn(states, b, d);
    var e := d.(durable := 3);
    FlushNext(d, e);
    RunOn(states + [d], d, e);
    states := states + [d] + [e];
    var f := CrashNext(e);
    RunOn(states, e, f);
    var g := RedoNext(t, c, f);
    RunOn(states + [f], f, g);
    states := states + [f] + [g];
  }

  lemma FlushNext(s: Machine, s': Machine)
    requires s.Up? && s' == s.(durable := |s.log|) && s.durable <= |s.log|
    ensures Next(s, s')
  {
    assert FlushStep(s, s');
  }

  lemma RecoveryNext(s: Machine, s': Machine)
    requires s.Down? && s'.Down? && s'.epoch == s.epoch && RecStep(s.store, s'.store)
    ensures Next(s, s')
  {
    hide RecStep;
    assert RecoveryStep(s, s');
  }

  lemma CommitNext(b: Machine, d: Machine, t: TxnId, c: Change)
    requires b.Up? && b.log == Inserted(t, c) && d == b.(log := Closed(t, c))
    ensures Next(b, d)
  {
    OpenOnly(b.log, t);
    assert Closed(t, c) == b.log + [NewRecord(b.log, t, Commit)];
    assert CommitStep(b, d, t);
  }

  lemma CrashNext(s: Machine) returns (s': Machine)
    requires s.Up? && s.durable == |s.log| && s.epoch == Fresh && OnlyInserts(s.log)
    ensures Next(s, s') && s' == Down(Store(s.log, s.disk), Fresh.(reached := ReachedAt(s.log, 0, s.disk)))
  {
    hide LosersApart;
    assert s.log[..s.durable] == s.log;
    forall p ensures LosersApart(s.log, Fresh, p) {
      InsertsApart(s.log, p);
    }
    s' := Down(Store(s.log, s.disk), Fresh.(reached := ReachedAt(s.log, 0, s.disk)));
    assert CrashStep(s, s');
  }

  lemma RedoNext(t: TxnId, c: Change, s: Machine) returns (s': Machine)
    requires c.InsertRow? && s.Down? && s.store == Store(Closed(t, c), map[])
    ensures Next(s, s') && s'.Down? && Quiet(s'.store) && PageAt(s'.store.disk, c.page).rows == [c.after]
  {
    var log := Closed(t, c);
    s' := Down(Store(log, map[c.page := DataPage([c.after], 2)]), s.epoch);
    assert log[2].txn == t && log[2].body.Commit?;
    assert Committed(log, t);
    assert Replayed(log, 1, c.page);
    assert Redo([], c) == [c.after];
    assert RedoWrite(s.store, s'.store, 1, c.page);
    ClosedOnly(log, t);
    RecoveryNext(s, s');
  }

  // An insert without a commit that had become durable on its page as well.
  lemma UncommittedIsHidden(t: TxnId, c: Change) returns (states: seq<Machine>)
    requires c.InsertRow? && c.after.flags == 0
    ensures Run(states)
    ensures Last(states).Down? && Quiet(Last(states).store)
    ensures PageAt(Last(states).store.disk, c.page).rows == [c.after.(flags := 1)]
  {
    hide Next, Run, Quiet, RecStep, Inserted, Opened, Closed, ReachedAt, PageAt, OnlyInserts;
    InsertsOnly(t, c);
    states := InsertRun(t, c);
    var b := AfterInsert(t, c);
    var d := b.(durable := 2);
    FlushNext(b, d);
    RunOn(states, b, d);
    var e := d.(disk := d.mem);
    WriteNext(d, e, t, c);
    RunOn(states + [d], d, e);
    states := states + [d] + [e];
    var f := CrashNext(e);
    RunOn(states, e, f);
    var g := ClrNext(t, c, f);
    RunOn(states + [f], f, g);
    states := states + [f] + [g];
    var h := UndoneNext(t, c, g);
    RunOn(states, g, h);
    var k := RollbackNext(t, c, h);
    RunOn(states + [h], h, k);
    states := states + [h] + [k];
  }

  lemma WriteNext(d: Machine, e: Machine, t: TxnId, c: Change)
    requires c.InsertRow? && d.Up? && d.mem == AfterInsert(t, c).mem && d.disk == map[] && d.durable == 2 && e == d.(disk := d.mem)
    ensures Next(d, e)
  {
    assert d.disk[c.page := d.mem[c.page]] == d.mem;
    assert WriteStep(d, e, c.page);
  }

  // The log with the compensation of the insert.
  function WithClr(t: TxnId, c: Change): Log {
    Inserted(t, c) + [WalRecord(3, 0, t, Clr(1, c))]
  }

  lemma ClrNext(t: TxnId, c: Change, s: Machine) returns (s': Machine)
    requires c.InsertRow? && s.Down? && s.store == Store(Inserted(t, c), map[c.page := DataPage([c.after], 2)])
    ensures Next(s, s') && s' == s.(store := Store(WithClr(t, c), map[c.page := DataPage([c.after], 2)]))
  {
    s' := s.(store := Store(WithClr(t, c), map[c.page := DataPage([c.after], 2)]));
    OpenOnly(s.store.log, t);
    assert ClrWrite(s.store, s'.store, t, 2);
    RecoveryNext(s, s');
  }

  lemma UndoneNext(t: TxnId, c: Change, s: Machine) returns (s': Machine)
    requires c.InsertRow? && c.after.flags == 0 && s.Down? && s.store == Store(WithClr(t, c), map[c.page := DataPage([c.after], 2)])
    ensures Next(s, s') && s' == s.(store := Store(WithClr(t, c), map[c.page := DataPage([c.after.(flags := 1)], 3)]))
  {
    var page := DataPage([c.after.(flags := 1)], 3);
    s' := s.(store := Store(WithClr(t, c), map[c.page := page]));
    assert Undo([c.after], c) == [c.after.(flags := 1)];
    assert Replayed(s.store.log, 2, c.page);
    assert RedoWrite(s.store, s'.store, 2, c.page);
    RecoveryNext(s, s');
  }

  lemma RollbackNext(t: TxnId, c: Change, s: Machine) returns (s': Machine)
    requires c.InsertRow? && s.Down? && s.store == Store(WithClr(t, c), map[c.page := DataPage([c.after.(flags := 1)], 3)])
    ensures Next(s, s') && s'.Down? && Quiet(s'.store) && PageAt(s'.store.disk, c.page).rows == [c.after.(flags := 1)]
  {
    var log := s.store.log;
    var log' := log + [WalRecord(4, 0, t, Rollback)];
    s' := s.(store := Store(log', s.store.disk));
    OpenOnly(log, t);
    assert Compensates(log, 2, 1);
    assert RollbackWrite(s.store, s'.store, t);
    ClosedOnly(log', t);
    RecoveryNext(s, s');
  }
}
