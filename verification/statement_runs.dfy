/**
 The row statements of a table as steps of the engine's runs: which change each one logs, that the page it
 leaves is what redoing that change gives, and when the engine may make it.
 */
module StatementRuns {
  import opened Types
  import opened Values
  import opened TokenBytes
  import opened PageRows
  import opened LogShape
  import opened RecoveryInvariant
  import opened EngineRuns
  import opened TablePages
  import S = TableStatements
  import T = TableStores
  import R = TableRows
  import I = TableIndexes

  // ---- Rows as the log has them ----

  function HiddenAt(rows: seq<TableRow>, k: nat): (r: seq<TableRow>)
    requires k < |rows|
    ensures |r| == |rows|
  {
    rows[k := rows[k].(obsolete := true)]
  }

  ghost predicate OwnIds(rows: seq<TableRow>) {
    forall i, j | 0 <= i < j < |rows| :: rows[i].id != rows[j].id
  }

  ghost predicate FreeId(rows: seq<TableRow>, id: nat) {
    forall i | 0 <= i < |rows| :: rows[i].id != id
  }

  lemma HasIs(rows: seq<TableRow>, id: nat, realBytes: real -> seq<Byte>)
    ensures Has(RowsOf(rows, realBytes), id) <==> !FreeId(rows, id)
  {
    var rs := RowsOf(rows, realBytes);
    var i := IndexOf(rs, id);
    forall j | 0 <= j < |rows| ensures rs[j].id == rows[j].id {
    }
  }

  lemma HideIs(rows: seq<TableRow>, k: nat, realBytes: real -> seq<Byte>)
    requires OwnIds(rows) && k < |rows|
    ensures var rs := RowsOf(rows, realBytes);
      && EditFirst(rs, rows[k].id, Hide) == RowsOf(HiddenAt(rows, k), realBytes)
      && Has(rs, rows[k].id) && Get(rs, rows[k].id) == RowOf(rows[k], realBytes)
  {
    var rs := RowsOf(rows, realBytes);
    forall j | 0 <= j < |rows| ensures rs[j] == RowOf(rows[j], realBytes) && rs[j].id == rows[j].id {
    }
    assert IndexOf(rs, rows[k].id) == k;
    assert EditFirst(rs, rows[k].id, Hide) == RowsOf(HiddenAt(rows, k), realBytes);
  }

  // Inserting a row is redoing its change, and may be done exactly when its id is free on the page.
  lemma InsertIsChange(rows: seq<TableRow>, x: TableRow, table: Uuid, p: PageId, realBytes: real -> seq<Byte>)
    ensures var c := InsertRow(table, p, RowOf(x, realBytes));
      && Redo(RowsOf(rows, realBytes), c) == RowsOf(rows + [x], realBytes)
      && (MayChange(RowsOf(rows, realBytes), c) <==> !x.obsolete && FreeId(rows, x.id))
  {
    HasIs(rows, x.id, realBytes);
  }

  // Replacing a row likewise. The before image already carries the obsolete flag.
  lemma UpdateIsChange(rows: seq<TableRow>, k: nat, x: TableRow, table: Uuid, p: PageId, realBytes: real -> seq<Byte>)
    requires OwnIds(rows) && k < |rows|
    ensures var c := UpdateRow(table, p, RowOf(rows[k].(obsolete := true), realBytes), RowOf(x, realBytes));
      && Redo(RowsOf(rows, realBytes), c) == RowsOf(HiddenAt(rows, k) + [x], realBytes)
      && (MayChange(RowsOf(rows, realBytes), c) <==> !rows[k].obsolete && !x.obsolete && FreeId(rows, x.id))
  {
    HasIs(rows, x.id, realBytes);
    HideIs(rows, k, realBytes);
    assert RowsOf(HiddenAt(rows, k), realBytes) + [RowOf(x, realBytes)] == RowsOf(HiddenAt(rows, k) + [x], realBytes);
  }

  lemma DeleteIsChange(rows: seq<TableRow>, k: nat, table: Uuid, p: PageId, realBytes: real -> seq<Byte>)
    requires OwnIds(rows) && k < |rows|
    ensures var c := DeleteRow(table, p, RowOf(rows[k].(obsolete := true), realBytes));
      && Redo(RowsOf(rows, realBytes), c) == RowsOf(HiddenAt(rows, k), realBytes)
      && (MayChange(RowsOf(rows, realBytes), c) <==> !rows[k].obsolete)
  {
    HideIs(rows, k, realBytes);
  }

  // ---- Runs of steps ----

  ghost predicate Path(states: seq<Machine>) {
    states != [] && forall i :: 0 <= i < |states| - 1 ==> Next(states[i], states[i + 1])
  }

  ghost predicate Reaches(m: Machine, m': Machine) {
    exists states :: Path(states) && states[0] == m && states[|states| - 1] == m'
  }

  lemma ReachesItself(m: Machine)
    ensures Reaches(m, m)
  {
    assert Path([m]);
  }

  lemma ReachesNext(m: Machine, m': Machine)
    requires Next(m, m')
    ensures Reaches(m, m')
  {
    hide Next;
    assert Path([m, m']);
  }

  lemma ReachesOn(a: Machine, b: Machine, c: Machine)
    requires Reaches(a, b) && Reaches(b, c)
    ensures Reaches(a, c)
  {
    hide Next;
    var x :| Path(x) && x[0] == a && x[|x| - 1] == b;
    var y :| Path(y) && y[0] == b && y[|y| - 1] == c;
    var z := x + y[1..];
    forall i | 0 <= i < |z| - 1 ensures Next(z[i], z[i + 1]) {
      assert z[i] == if i < |x| then x[i] else y[i - |x| + 1];
      assert z[i + 1] == if i + 1 < |x| then x[i + 1] else y[i + 1 - |x| + 1];
      if i == |x| - 1 {
        assert Next(y[0], y[1]);
      }
    }
    assert Path(z) && z[|z| - 1] == c;
  }

  // What a run's last state reaches is reached by a run, so what holds of all runs holds there.
  lemma RunReaches(states: seq<Machine>, m: Machine)
    requires Run(states) && Reaches(states[|states| - 1], m)
    ensures exists longer :: Run(longer) && longer[|longer| - 1] == m
    ensures Inv(m)
  {
    hide Next, Inv;
    var x :| Path(x) && x[0] == states[|states| - 1] && x[|x| - 1] == m;
    var longer := states + x[1..];
    forall i | 0 <= i < |longer| - 1 ensures Next(longer[i], longer[i + 1]) {
      assert longer[i] == if i < |states| then states[i] else x[i - |states| + 1];
      assert longer[i + 1] == if i + 1 < |states| then states[i + 1] else x[i + 1 - |states| + 1];
      if i == |states| - 1 {
        assert Next(x[0], x[1]);
      }
    }
    assert Run(longer) && longer[|longer| - 1] == m;
    RunInv(longer, |longer| - 1);
  }

  // ---- One row and its table record ----

  lemma StillActive(log: Log, t: TxnId, c: Change)
    requires Active(log, t)
    ensures Active(log + [NewRecord(log, t, Do(c))], t)
  {
    var log' := log + [NewRecord(log, t, Do(c))];
    forall i | 0 <= i < |log'| && log'[i].txn == t ensures !log'[i].body.Commit? && !log'[i].body.Rollback? {
      if i < |log| {
        assert log[i].txn == t;
      }
    }
    assert LastLsn(log', t) == |log'|;
  }

  function TwoRecords(log: Log, t: TxnId, c: Change, table: Change): Log {
    var log' := log + [NewRecord(log, t, Do(c))];
    log' + [NewRecord(log', t, Do(table))]
  }

  // The record of a row change, its effect, and the record of the table's counters.
  lemma RowThenTable(m: Machine, t: TxnId, c: Change, table: Change)
    requires m.Up? && Active(m.log, t) && c.IsData() && !table.IsData() && MayChange(PageAt(m.mem, c.page).rows, c)
    ensures Active(TwoRecords(m.log, t, c, table), t)
    ensures Reaches(m, m.(log := TwoRecords(m.log, t, c, table),
                          mem := m.mem[c.page := DataPage(Redo(PageAt(m.mem, c.page).rows, c), |m.log| + 1)]))
  {
    hide Active, MayChange, Redo, NewRecord, Path;
    var log' := m.log + [NewRecord(m.log, t, Do(c))];
    var a := m.(log := log', mem := m.mem[c.page := DataPage(Redo(PageAt(m.mem, c.page).rows, c), |m.log| + 1)]);
    var b := a.(log := TwoRecords(m.log, t, c, table));
    StillActive(m.log, t, c);
    StillActive(log', t, table);
    assert ChangeStep(m, a, t, c);
    ReachesNext(m, a);
    assert MetaStep(a, b, t, table);
    ReachesNext(a, b);
    ReachesOn(m, a, b);
  }

  // ---- Statements ----

  // log' goes on with the changes cs of t, each followed by a record of t about the table.
  ghost predicate Logs(log: Log, log': Log, t: TxnId, cs: seq<Change>) {
    && |log'| == |log| + 2 * |cs| && log <= log'
    && (forall i | 0 <= i < |cs| ::
          && log'[|log| + 2 * i].body == Do(cs[i]) && log'[|log| + 2 * i].txn == t
          && log'[|log| + 2 * i + 1].body.Do? && log'[|log| + 2 * i + 1].txn == t
          && !log'[|log| + 2 * i + 1].body.change.IsData())
  }

  lemma LogsOne(log: Log, log': Log, t: TxnId, cs: seq<Change>, c: Change, table: Change)
    requires Logs(log, log', t, cs) && !table.IsData()
    ensures Logs(log, TwoRecords(log', t, c, table), t, cs + [c])
  {
    var log2 := TwoRecords(log', t, c, table);
    assert log' <= log2;
    forall i | 0 <= i < |cs| + 1
      ensures log2[|log| + 2 * i].body == Do((cs + [c])[i]) && log2[|log| + 2 * i].txn == t
      ensures log2[|log| + 2 * i + 1].body.Do? && log2[|log| + 2 * i + 1].txn == t
      ensures !log2[|log| + 2 * i + 1].body.change.IsData()
    {
      if i < |cs| {
        assert log2[|log| + 2 * i] == log'[|log| + 2 * i] && log2[|log| + 2 * i + 1] == log'[|log| + 2 * i + 1];
      }
    }
  }

  // What a statement on page p changes of the engine: the log, by the changes cs, and that page in memory.
  ghost predicate Worked(m: Machine, m': Machine, t: TxnId, p: PageId, rows: seq<Row>, cs: seq<Change>) {
    && m.Up? && m'.Up? && Reaches(m, m') && Active(m'.log, t) && Logs(m.log, m'.log, t, cs)
    && m'.durable == m.durable && m'.disk == m.disk && m'.epoch == m.epoch
    && PageAt(m'.mem, p).rows == rows && forall q | q != p :: PageAt(m'.mem, q) == PageAt(m.mem, q)
  }

  lemma WorkedMore(m: Machine, m': Machine, t: TxnId, p: PageId, rows: seq<Row>, cs: seq<Change>, c: Change, table: Change)
    returns (m2: Machine)
    requires Worked(m, m', t, p, rows, cs) && c.On(p) && !table.IsData() && MayChange(rows, c)
    ensures Worked(m, m2, t, p, Redo(rows, c), cs + [c]) && p in m2.mem && m2.mem[p].lastLsn == |m2.log| - 1
  {
    hide Active, MayChange, Redo, Reaches, Logs;
    m2 := m'.(log := TwoRecords(m'.log, t, c, table), mem := m'.mem[p := DataPage(Redo(rows, c), |m'.log| + 1)]);
    RowThenTable(m', t, c, table);
    ReachesOn(m, m', m2);
    LogsOne(m.log, m'.log, t, cs, c, table);
  }

  lemma NothingWorked(m: Machine, t: TxnId, p: PageId)
    requires m.Up? && Active(m.log, t)
    ensures Worked(m, m, t, p, PageAt(m.mem, p).rows, [])
  {
    hide Active;
    ReachesItself(m);
  }

  // INSERT: the row goes to its page, which is stamped with the LSN of the table's record.
  lemma InsertRuns(m: Machine, t: TxnId, table: Uuid, p: PageId, rows: seq<TableRow>, x: TableRow, counters: Change,
                   realBytes: real -> seq<Byte>) returns (m': Machine)
    requires m.Up? && Active(m.log, t) && PageAt(m.mem, p).rows == RowsOf(rows, realBytes) && !counters.IsData()
    requires !x.obsolete && FreeId(rows, x.id)
    ensures Worked(m, m', t, p, RowsOf(rows + [x], realBytes), [InsertRow(table, p, RowOf(x, realBytes))])
    ensures p in m'.mem && m'.mem[p].lastLsn == |m'.log|
  {
    hide Active, MayChange, Redo, Reaches, Logs, RowOf, RowsOf;
    var c := InsertRow(table, p, RowOf(x, realBytes));
    InsertIsChange(rows, x, table, p, realBytes);
    NothingWorked(m, t, p);
    var a := WorkedMore(m, m, t, p, RowsOf(rows, realBytes), [], c, counters);
    m' := a.(mem := a.mem[p := a.mem[p].(lastLsn := |a.log|)]);
    assert StampStep(a, m', p);
    ReachesNext(a, m');
    ReachesOn(m, a, m');
    assert [] + [c] == [c];
  }

  // The changes an UPDATE logs for the first k rows of a page.
  function UpdateChanges(table: Uuid, p: PageId, rows: seq<TableRow>, k: nat, ids: set<nat>, assignments: seq<S.Assignment>,
                         lastRid: nat, realBytes: real -> seq<Byte>): seq<Change>
    requires k <= |rows|
  {
    if k == 0 then []
    else
      var before := UpdateChanges(table, p, rows, k - 1, ids, assignments, lastRid, realBytes);
      var row := rows[k - 1];
      if S.Hit(row, ids) then
        before + [UpdateRow(table, p, RowOf(row.(obsolete := true), realBytes),
                            RowOf(S.Updated(row, lastRid + S.Hits(rows[..k - 1], ids) + 1, assignments), realBytes))]
      else before
  }

  lemma {:induction false} UpdatedIds(rows: seq<TableRow>, k: nat, ids: set<nat>, assignments: seq<S.Assignment>, lastRid: nat)
    requires OwnIds(rows) && k <= |rows| && forall i | 0 <= i < |rows| :: rows[i].id <= lastRid
    ensures var now := T.UpdatedSoFar(rows, k, ids, assignments, lastRid);
      OwnIds(now) && forall i | 0 <= i < |now| :: now[i].id <= lastRid + S.Hits(rows[..k], ids)
  {
    hide T.UpdatedSoFar, S.Assigned, S.Hits;
    if k == 0 {
      T.UpdatedSoFarStart(rows, ids, assignments, lastRid);
    } else {
      UpdatedIds(rows, k - 1, ids, assignments, lastRid);
      T.UpdatedSoFarStep(rows, k - 1, ids, assignments, lastRid);
    }
  }

  // UPDATE, up to the k-th row of a page: each row hit is one change the engine may make, because the new
  // id is above all others.
  lemma {:induction false} UpdateRuns(m: Machine, t: TxnId, table: Uuid, p: PageId, rows: seq<TableRow>, k: nat, ids: set<nat>,
                                      assignments: seq<S.Assignment>, lastRid: nat, counters: nat -> Change,
                                      realBytes: real -> seq<Byte>) returns (m': Machine)
    requires m.Up? && Active(m.log, t) && PageAt(m.mem, p).rows == RowsOf(rows, realBytes)
    requires OwnIds(rows) && k <= |rows| && (forall i | 0 <= i < |rows| :: rows[i].id <= lastRid)
    requires forall i :: !counters(i).IsData()
    ensures Worked(m, m', t, p, RowsOf(T.UpdatedSoFar(rows, k, ids, assignments, lastRid), realBytes),
                   UpdateChanges(table, p, rows, k, ids, assignments, lastRid, realBytes))
    ensures m' == m || (p in m'.mem && m'.mem[p].lastLsn == |m'.log| - 1)
    decreases k
  {
    hide Active, MayChange, Redo, Worked, RowOf, RowsOf, OwnIds, T.UpdatedSoFar, S.Updated, S.Hits;
    if k == 0 {
      T.UpdatedSoFarStart(rows, ids, assignments, lastRid);
      NothingWorked(m, t, p);
      m' := m;
    } else {
      m' := UpdateRuns(m, t, table, p, rows, k - 1, ids, assignments, lastRid, counters, realBytes);
      T.UpdatedSoFarStep(rows, k - 1, ids, assignments, lastRid);
      if S.Hit(rows[k - 1], ids) {
        var now := T.UpdatedSoFar(rows, k - 1, ids, assignments, lastRid);
        var x := S.Updated(rows[k - 1], lastRid + S.Hits(rows[..k - 1], ids) + 1, assignments);
        UpdatedIds(rows, k - 1, ids, assignments, lastRid);
        UpdatedRow(rows[k - 1], lastRid + S.Hits(rows[..k - 1], ids) + 1, assignments);
        UpdateIsChange(now, k - 1, x, table, p, realBytes);
        var c := UpdateRow(table, p, RowOf(now[k - 1].(obsolete := true), realBytes), RowOf(x, realBytes));
        m' := WorkedMore(m, m', t, p, RowsOf(now, realBytes),
                         UpdateChanges(table, p, rows, k - 1, ids, assignments, lastRid, realBytes), c, counters(k));
      }
    }
  }

  lemma UpdatedRow(row: TableRow, id: nat, assignments: seq<S.Assignment>)
    ensures S.Updated(row, id, assignments).id == id && !S.Updated(row, id, assignments).obsolete
  {
  }

  // The changes a DELETE logs for the first k rows of a page.
  function DeleteChanges(table: Uuid, p: PageId, rows: seq<TableRow>, k: nat, ids: set<nat>, realBytes: real -> seq<Byte>): seq<Change>
    requires k <= |rows|
  {
    if k == 0 then []
    else
      var before := DeleteChanges(table, p, rows, k - 1, ids, realBytes);
      if S.Hit(rows[k - 1], ids) then before + [DeleteRow(table, p, RowOf(rows[k - 1].(obsolete := true), realBytes))]
      else before
  }

  lemma {:induction false} MarkedIds(rows: seq<TableRow>, k: nat, ids: set<nat>)
    requires OwnIds(rows) && k <= |rows|
    ensures OwnIds(T.MarkedSoFar(rows, k, ids))
  {
    forall i | 0 <= i < |rows| ensures T.MarkedSoFar(rows, k, ids)[i].id == rows[i].id {
    }
  }

  // DELETE, up to the k-th row of a page.
  lemma {:induction false} DeleteRuns(m: Machine, t: TxnId, table: Uuid, p: PageId, rows: seq<TableRow>, k: nat, ids: set<nat>,
                                      counters: nat -> Change, realBytes: real -> seq<Byte>) returns (m': Machine)
    requires m.Up? && Active(m.log, t) && PageAt(m.mem, p).rows == RowsOf(rows, realBytes)
    requires OwnIds(rows) && k <= |rows| && forall i :: !counters(i).IsData()
    ensures Worked(m, m', t, p, RowsOf(T.MarkedSoFar(rows, k, ids), realBytes), DeleteChanges(table, p, rows, k, ids, realBytes))
    ensures m' == m || (p in m'.mem && m'.mem[p].lastLsn == |m'.log| - 1)
    decreases k
  {
    hide Active, MayChange, Redo, Worked, RowOf, RowsOf, OwnIds, T.MarkedSoFar, S.Marked;
    if k == 0 {
      T.MarkedSoFarEnds(rows, ids);
      NothingWorked(m, t, p);
      m' := m;
    } else {
      m' := DeleteRuns(m, t, table, p, rows, k - 1, ids, counters, realBytes);
      T.MarkedSoFarStep(rows, k - 1, ids);
      if S.Hit(rows[k - 1], ids) {
        var now := T.MarkedSoFar(rows, k - 1, ids);
        MarkedIds(rows, k - 1, ids);
        DeleteIsChange(now, k - 1, table, p, realBytes);
        var c := DeleteRow(table, p, RowOf(now[k - 1].(obsolete := true), realBytes));
        m' := WorkedMore(m, m', t, p, RowsOf(now, realBytes), DeleteChanges(table, p, rows, k - 1, ids, realBytes), c, counters(k));
      }
    }
  }

  // ---- Whole statements, page by page ----

  lemma LogsOn(a: Log, b: Log, c: Log, t: TxnId, cs: seq<Change>, ds: seq<Change>)
    requires Logs(a, b, t, cs) && Logs(b, c, t, ds)
    ensures Logs(a, c, t, cs + ds)
  {
    forall i | 0 <= i < |cs + ds|
      ensures c[|a| + 2 * i].body == Do((cs + ds)[i]) && c[|a| + 2 * i].txn == t
      ensures c[|a| + 2 * i + 1].body.Do? && c[|a| + 2 * i + 1].txn == t && !c[|a| + 2 * i + 1].body.change.IsData()
    {
      if i < |cs| {
        assert c[|a| + 2 * i] == b[|a| + 2 * i] && c[|a| + 2 * i + 1] == b[|a| + 2 * i + 1];
      } else {
        assert |a| + 2 * i == |b| + 2 * (i - |cs|);
      }
    }
  }

  // The engine has the table's pages in memory.
  ghost predicate Mirrors(m: Machine, pages: map<PageId, TablePage>, realBytes: real -> seq<Byte>) {
    m.Up? && forall p | p in pages :: PageAt(m.mem, p).rows == RowsOf(pages[p].rows, realBytes)
  }

  // From m the engine reaches m' by steps that log the changes cs of t.
  ghost predicate Moved(m: Machine, m': Machine, t: TxnId, cs: seq<Change>) {
    && m.Up? && m'.Up? && Reaches(m, m') && Active(m'.log, t) && Logs(m.log, m'.log, t, cs)
    && m'.durable == m.durable && m'.disk == m.disk && m'.epoch == m.epoch
  }

  lemma MovedOn(m: Machine, a: Machine, b: Machine, t: TxnId, cs: seq<Change>, p: PageId, rows: seq<Row>, ds: seq<Change>)
    requires Moved(m, a, t, cs) && Worked(a, b, t, p, rows, ds)
    ensures Moved(m, b, t, cs + ds)
  {
    hide Reaches, Active, Logs;
    ReachesOn(m, a, b);
    LogsOn(m.log, a.log, b.log, t, cs, ds);
  }

  // The first n pages of the list have become those in pages', the others are still those in pages.
  ghost predicate Halfway(m: Machine, pages: map<PageId, TablePage>, pages': map<PageId, TablePage>, list: seq<PageId>, n: nat,
                          realBytes: real -> seq<Byte>)
    requires n <= |list| && forall p | p in list :: p in pages && p in pages'
  {
    && m.Up?
    && (forall j | 0 <= j < n :: PageAt(m.mem, list[j]).rows == RowsOf(pages'[list[j]].rows, realBytes))
    && (forall j | n <= j < |list| :: PageAt(m.mem, list[j]).rows == RowsOf(pages[list[j]].rows, realBytes))
  }

  lemma HalfwayOn(a: Machine, b: Machine, t: TxnId, ds: seq<Change>, pages: map<PageId, TablePage>, pages': map<PageId, TablePage>,
                  list: seq<PageId>, n: nat, realBytes: real -> seq<Byte>)
    requires (forall p | p in list :: p in pages && p in pages') && R.NoRepeats(list) && n < |list|
    requires Halfway(a, pages, pages', list, n, realBytes)
    requires Worked(a, b, t, list[n], RowsOf(pages'[list[n]].rows, realBytes), ds)
    ensures Halfway(b, pages, pages', list, n + 1, realBytes)
  {
    hide Reaches, Active, Logs, RowsOf;
    forall j | 0 <= j < |list| && j != n ensures PageAt(b.mem, list[j]) == PageAt(a.mem, list[j]) {
    }
  }

  function DeletesOn(table: Uuid, pages: map<PageId, TablePage>, list: seq<PageId>, n: nat, ids: set<nat>,
                     realBytes: real -> seq<Byte>): seq<Change>
    requires n <= |list| && forall p | p in list :: p in pages
  {
    if n == 0 then []
    else
      var rows := pages[list[n - 1]].rows;
      DeletesOn(table, pages, list, n - 1, ids, realBytes) + DeleteChanges(table, list[n - 1], rows, |rows|, ids, realBytes)
  }

  lemma {:induction false} DeletesRun(m: Machine, t: TxnId, table: Uuid, pages: map<PageId, TablePage>, pages': map<PageId, TablePage>,
                                      list: seq<PageId>, n: nat, ids: set<nat>, counters: nat -> Change, realBytes: real -> seq<Byte>)
    returns (m': Machine)
    requires (forall p | p in list :: p in pages && p in pages') && R.NoRepeats(list) && n <= |list|
    requires forall p | p in list :: OwnIds(pages[p].rows) && pages'[p].rows == S.Marked(pages[p].rows, ids)
    requires m.Up? && Active(m.log, t) && Mirrors(m, pages, realBytes) && forall i :: !counters(i).IsData()
    ensures Moved(m, m', t, DeletesOn(table, pages, list, n, ids, realBytes)) && Halfway(m', pages, pages', list, n, realBytes)
    decreases n
  {
    hide Reaches, Active, Logs, RowsOf, OwnIds, S.Marked, T.MarkedSoFar, Moved, Worked, R.NoRepeats;
    if n == 0 {
      NothingMoved(m, t);
      m' := m;
    } else {
      var a := DeletesRun(m, t, table, pages, pages', list, n - 1, ids, counters, realBytes);
      var p := list[n - 1];
      var rows := pages[p].rows;
      MovedIs(m, a, t, DeletesOn(table, pages, list, n - 1, ids, realBytes));
      T.MarkedSoFarEnds(rows, ids);
      m' := DeleteRuns(a, t, table, p, rows, |rows|, ids, counters, realBytes);
      var ds := DeleteChanges(table, p, rows, |rows|, ids, realBytes);
      MovedOn(m, a, m', t, DeletesOn(table, pages, list, n - 1, ids, realBytes), p, RowsOf(pages'[p].rows, realBytes), ds);
      HalfwayOn(a, m', t, ds, pages, pages', list, n - 1, realBytes);
    }
  }

  lemma NothingMoved(m: Machine, t: TxnId)
    requires m.Up? && Active(m.log, t)
    ensures Moved(m, m, t, [])
  {
    hide Active;
    ReachesItself(m);
  }

  lemma MovedIs(m: Machine, m': Machine, t: TxnId, cs: seq<Change>)
    requires Moved(m, m', t, cs)
    ensures m'.Up? && Active(m'.log, t)
  {
  }

  function UpdatesOn(table: Uuid, pages: map<PageId, TablePage>, list: seq<PageId>, n: nat, ids: set<nat>,
                     assignments: seq<S.Assignment>, rid: seq<nat>, realBytes: real -> seq<Byte>): seq<Change>
    requires n <= |list| == |rid| && forall p | p in list :: p in pages
  {
    if n == 0 then []
    else
      var rows := pages[list[n - 1]].rows;
      UpdatesOn(table, pages, list, n - 1, ids, assignments, rid, realBytes)
      + UpdateChanges(table, list[n - 1], rows, |rows|, ids, assignments, rid[n - 1], realBytes)
  }

  lemma {:induction false} UpdatesRun(m: Machine, t: TxnId, table: Uuid, pages: map<PageId, TablePage>, pages': map<PageId, TablePage>,
                                      list: seq<PageId>, n: nat, ids: set<nat>, assignments: seq<S.Assignment>, rid: seq<nat>,
                                      counters: nat -> Change, realBytes: real -> seq<Byte>)
    returns (m': Machine)
    requires T.PagesReplaced(pages, pages', list, ids, assignments, rid) && R.NoRepeats(list) && n <= |list|
    requires forall p | p in list :: p in pages && p in pages' && OwnIds(pages[p].rows)
    requires m.Up? && Active(m.log, t) && Mirrors(m, pages, realBytes) && forall i :: !counters(i).IsData()
    ensures Moved(m, m', t, UpdatesOn(table, pages, list, n, ids, assignments, rid, realBytes))
    ensures Halfway(m', pages, pages', list, n, realBytes)
    decreases n
  {
    hide Reaches, Active, Logs, RowsOf, OwnIds, T.ReplacedOn, T.UpdatedSoFar, Moved, Worked, R.NoRepeats;
    if n == 0 {
      NothingMoved(m, t);
      m' := m;
    } else {
      var a := UpdatesRun(m, t, table, pages, pages', list, n - 1, ids, assignments, rid, counters, realBytes);
      var p := list[n - 1];
      var rows := pages[p].rows;
      MovedIs(m, a, t, UpdatesOn(table, pages, list, n - 1, ids, assignments, rid, realBytes));
      ReplacedEnd(rows, pages'[p].rows, ids, assignments, rid[n - 1]);
      m' := UpdateRuns(a, t, table, p, rows, |rows|, ids, assignments, rid[n - 1], counters, realBytes);
      var ds := UpdateChanges(table, p, rows, |rows|, ids, assignments, rid[n - 1], realBytes);
      MovedOn(m, a, m', t, UpdatesOn(table, pages, list, n - 1, ids, assignments, rid, realBytes), p, RowsOf(pages'[p].rows, realBytes), ds);
      HalfwayOn(a, m', t, ds, pages, pages', list, n - 1, realBytes);
    }
  }

  lemma ReplacedEnd(rows: seq<TableRow>, rows': seq<TableRow>, ids: set<nat>, assignments: seq<S.Assignment>, rid: nat)
    requires T.ReplacedOn(rows, rows', ids, assignments, rid)
    ensures rows' == T.UpdatedSoFar(rows, |rows|, ids, assignments, rid) && forall i | 0 <= i < |rows| :: rows[i].id <= rid
  {
    T.UpdatedSoFarEnd(rows, ids, assignments, rid);
  }

  lemma OwnIdsOf(pages: map<PageId, TablePage>, list: seq<PageId>)
    requires (forall p | p in list :: p in pages) && I.IdsApart(R.AllRows(pages, list))
    ensures forall p | p in list :: OwnIds(pages[p].rows)
  {
    hide R.AllRows;
    forall p | p in list ensures OwnIds(pages[p].rows) {
      var j := R.IndexIn(list, p);
      R.RowsAround(pages, list, j);
      var a, rows := R.AllRows(pages, list[..j]), pages[p].rows;
      var ls := R.AllRows(pages, list);
      forall i | 0 <= i < |rows| ensures ls[|a| + i] == (p, rows[i]) {
        assert (a + R.OnPage(p, rows))[|a| + i] == R.OnPage(p, rows)[i];
      }
    }
  }

  // ---- The statements of the table, and the engine alongside ----

  // An INSERT that goes through is a run of steps, unless its id is taken on the page.
  method InsertAsSteps(store: T.TableStore, cols: Option<seq<Option<nat>>>, values: seq<Value>, rowSize: nat, newId: PageId,
                       ghost m: Machine, ghost t: TxnId, ghost table: Uuid, ghost counters: Change, ghost realBytes: real -> seq<Byte>)
    returns (ok: bool, page: PageId, ghost m': Machine)
    requires store.Valid() && newId !in store.pages
    requires m.Up? && Active(m.log, t) && Mirrors(m, store.pages, realBytes) && PageAt(m.mem, newId).rows == [] && !counters.IsData()
    modifies store
    ensures ok && (page in old(store.pages) ==> FreeId(old(store.pages)[page].rows, old(store.lastRid))) ==>
              && Mirrors(m', store.pages, realBytes)
              && var row := TableRow(old(store.lastRid), false, S.Arranged(store.width, cols, values));
                 Moved(m, m', t, [InsertRow(table, page, RowOf(row, realBytes))])
  {
    hide Reaches, Active, Logs, RowsOf, RowOf, S.Arranged, Worked, Moved;
    ghost var was, id := store.pages, store.lastRid;
    ok, page := store.InsertRow(cols, values, rowSize, newId);
    m' := m;
    if ok && (page in was ==> FreeId(was[page].rows, id)) {
      ghost var row := TableRow(id, false, S.Arranged(store.width, cols, values));
      ghost var before := if page in was then was[page].rows else [];
      NewPageRows(m, was, page, newId, realBytes);
      m' := InsertRuns(m, t, table, page, before, row, counters, realBytes);
      InsertMirrors(m, m', t, was, store.pages, page, row, [InsertRow(table, page, RowOf(row, realBytes))], realBytes);
    }
  }

  lemma NewPageRows(m: Machine, pages: map<PageId, TablePage>, page: PageId, newId: PageId, realBytes: real -> seq<Byte>)
    requires m.Up? && Mirrors(m, pages, realBytes) && PageAt(m.mem, newId).rows == [] && (page in pages || page == newId)
    ensures PageAt(m.mem, page).rows == RowsOf(if page in pages then pages[page].rows else [], realBytes)
  {
  }

  lemma InsertMirrors(m: Machine, m': Machine, t: TxnId, was: map<PageId, TablePage>, now: map<PageId, TablePage>, page: PageId,
                      row: TableRow, cs: seq<Change>, realBytes: real -> seq<Byte>)
    requires Mirrors(m, was, realBytes) && T.RowPut(was, now, page, row)
    requires Worked(m, m', t, page, RowsOf((if page in was then was[page].rows else []) + [row], realBytes), cs)
    ensures Mirrors(m', now, realBytes) && Moved(m, m', t, cs)
  {
    hide Reaches, Active, Logs, RowsOf;
  }

  // A DELETE is a run of steps.
  method DeleteAsSteps(store: T.TableStore, rows: seq<TableRow>,
                       ghost m: Machine, ghost t: TxnId, ghost table: Uuid, ghost counters: nat -> Change, ghost realBytes: real -> seq<Byte>)
    returns (ghost m': Machine)
    requires store.Valid() && store.DistinctIds()
    requires m.Up? && Active(m.log, t) && Mirrors(m, store.pages, realBytes) && forall i :: !counters(i).IsData()
    modifies store`pages, store`liveRows
    ensures Mirrors(m', store.pages, realBytes)
    ensures Moved(m, m', t, DeletesOn(table, old(store.pages), store.pageIds, |store.pageIds|, S.RowIds(rows), realBytes))
  {
    hide Reaches, Active, Logs, RowsOf, OwnIds, S.Marked, Moved, S.RowIds, T.PagesOk, R.AllRows, T.RowsOk, I.IdsApart;
    ghost var was := store.pages;
    T.PagesParts(store.pages, store.pageIds, store.chain);
    OwnIdsOf(store.pages, store.pageIds);
    store.DeleteRows(rows);
    m' := DeletesRun(m, t, table, was, store.pages, store.pageIds, |store.pageIds|, S.RowIds(rows), counters, realBytes);
    HalfwayDone(m', was, store.pages, store.pageIds, store.chain, realBytes);
  }

  lemma HalfwayDone(m: Machine, pages: map<PageId, TablePage>, pages': map<PageId, TablePage>, list: seq<PageId>, chain: seq<PageId>,
                    realBytes: real -> seq<Byte>)
    requires T.PagesOk(pages', list, chain) && forall p | p in list :: p in pages && p in pages'
    requires Halfway(m, pages, pages', list, |list|, realBytes)
    ensures Mirrors(m, pages', realBytes)
  {
    hide T.PagesOk, RowsOf;
    T.PagesParts(pages', list, chain);
    forall p | p in pages' ensures PageAt(m.mem, p).rows == RowsOf(pages'[p].rows, realBytes) {
      var j := R.IndexIn(list, p);
    }
  }

  // An UPDATE that goes through is a run of steps.
  method UpdateAsSteps(store: T.TableStore, rows: seq<TableRow>, assignments: seq<S.Assignment>,
                       ghost m: Machine, ghost t: TxnId, ghost table: Uuid, ghost counters: nat -> Change, ghost realBytes: real -> seq<Byte>)
    returns (ok: bool, ghost m': Machine)
    requires store.Valid() && store.DistinctIds()
    requires m.Up? && Active(m.log, t) && Mirrors(m, store.pages, realBytes) && forall i :: !counters(i).IsData()
    modifies store
    ensures ok ==> Mirrors(m', store.pages, realBytes) && exists rid: seq<nat> ::
              && T.PagesReplaced(old(store.pages), store.pages, store.pageIds, S.RowIds(rows), assignments, rid)
              && Moved(m, m', t, UpdatesOn(table, old(store.pages), store.pageIds, |store.pageIds|, S.RowIds(rows), assignments, rid, realBytes))
  {
    hide Reaches, Active, Logs, RowsOf, OwnIds, Moved, S.RowIds, T.PagesOk, R.AllRows, T.RowsOk, I.IdsApart, T.ReplacedOn;
    ghost var was := store.pages;
    T.PagesParts(store.pages, store.pageIds, store.chain);
    OwnIdsOf(store.pages, store.pageIds);
    ok := store.UpdateRows(rows, assignments);
    m' := m;
    if ok {
      ghost var rid :| T.PagesReplaced(was, store.pages, store.pageIds, S.RowIds(rows), assignments, rid);
      T.PagesParts(store.pages, store.pageIds, store.chain);
      m' := UpdatesRun(m, t, table, was, store.pages, store.pageIds, |store.pageIds|, S.RowIds(rows), assignments, rid, counters, realBytes);
      HalfwayDone(m', was, store.pages, store.pageIds, store.chain, realBytes);
    }
  }
}
