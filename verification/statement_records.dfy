/**
 The records the row statements log, in the files: each change is of rows of the table, so the log that goes on
 with them is read back as it was written.
 */
module StatementRecords {
  import opened Types
  import opened Values
  import opened TablePages
  import opened TokenBytes
  import opened TypedCodec
  import opened LogShape
  import S = TableStatements
  import R = StatementRuns
  import F = WalFiles
  import W = WalCodec

  type RealBytes = real -> seq<Byte>

  // Every change is of rows of the table.
  ghost predicate AllRows(cs: seq<Change>, table: Uuid, realBytes: RealBytes) {
    forall i | 0 <= i < |cs| :: cs[i].IsData() && cs[i].tableId == table && ChangesRows(cs[i], realBytes)
  }

  ghost predicate FitAll(rows: seq<TableRow>, realBytes: RealBytes) {
    forall i | 0 <= i < |rows| :: FitsTableRow(rows[i], realBytes)
  }

  // ---- INSERT ----

  lemma NullFits(realBytes: RealBytes)
    ensures Fits(Null, realBytes)
  {
  }

  lemma {:induction false} GivenFits(cs: seq<Option<nat>>, values: seq<Value>, n: nat, j: nat, realBytes: RealBytes)
    requires n <= |cs| && FitsValues(values, realBytes)
    ensures Fits(S.LastGiven(cs, values, n, j), realBytes)
  {
    hide Fits;
    NullFits(realBytes);
    if n > 0 {
      GivenFits(cs, values, n - 1, j, realBytes);
    }
  }

  lemma InsertTyped(table: Uuid, page: PageId, id: nat, width: nat, cols: Option<seq<Option<nat>>>, values: seq<Value>,
                    realBytes: RealBytes)
    requires id < 0x1_0000_0000_0000_0000 && width < 0x1_0000_0000_0000_0000 && FitsValues(values, realBytes)
    ensures AllRows([InsertRow(table, page, RowOf(TableRow(id, false, S.Arranged(width, cols, values)), realBytes))], table, realBytes)
  {
    hide RowOf, Fits, S.LastGiven;
    var vs := S.Arranged(width, cols, values);
    forall j | 0 <= j < |vs| ensures Fits(vs[j], realBytes) {
      NullFits(realBytes);
      if cols.Some? {
        GivenFits(cols.value, values, |cols.value|, j, realBytes);
      }
    }
    assert FitsTableRow(TableRow(id, false, vs), realBytes);
  }

  // ---- DELETE ----

  lemma HiddenFits(row: TableRow, realBytes: RealBytes)
    requires FitsTableRow(row, realBytes)
    ensures IsRow(RowOf(row.(obsolete := true), realBytes), realBytes)
  {
    hide RowOf, FitsValues;
    assert FitsTableRow(row.(obsolete := true), realBytes);
  }

  lemma {:induction false} DeleteTyped(table: Uuid, p: PageId, rows: seq<TableRow>, k: nat, ids: set<nat>, realBytes: RealBytes)
    requires k <= |rows| && FitAll(rows, realBytes)
    ensures AllRows(R.DeleteChanges(table, p, rows, k, ids, realBytes), table, realBytes)
  {
    hide IsRow, RowOf, FitsTableRow;
    if k > 0 {
      DeleteTyped(table, p, rows, k - 1, ids, realBytes);
      HiddenFits(rows[k - 1], realBytes);
    }
  }

  lemma {:induction false} DeletesTyped(table: Uuid, pages: map<PageId, TablePage>, list: seq<PageId>, n: nat, ids: set<nat>,
                                        realBytes: RealBytes)
    requires n <= |list| && forall p | p in list :: p in pages && FitAll(pages[p].rows, realBytes)
    ensures AllRows(R.DeletesOn(table, pages, list, n, ids, realBytes), table, realBytes)
  {
    hide ChangesRows, FitAll, R.DeleteChanges;
    if n > 0 {
      var p := list[n - 1];
      DeletesTyped(table, pages, list, n - 1, ids, realBytes);
      DeleteTyped(table, p, pages[p].rows, |pages[p].rows|, ids, realBytes);
    }
  }

  // ---- UPDATE ----

  ghost predicate LiteralsFit(assignments: seq<S.Assignment>, realBytes: RealBytes) {
    forall i | 0 <= i < |assignments| :: assignments[i].SetLiteral? ==> Fits(assignments[i].value, realBytes)
  }

  lemma {:induction false} AssignedFits(tokens: seq<Value>, original: seq<Value>, assignments: seq<S.Assignment>, realBytes: RealBytes)
    requires FitsValues(tokens, realBytes) && FitsValues(original, realBytes) && LiteralsFit(assignments, realBytes)
    ensures FitsValues(S.Assigned(tokens, original, assignments), realBytes)
    decreases assignments
  {
    hide Fits;
    NullFits(realBytes);
    if assignments != [] {
      var a := assignments[0];
      var v := match a
        case SetLiteral(_, value) => value
        case SetColumn(_, source) => if source < |original| then original[source] else Null;
      AssignedFits(if a.column < |tokens| then tokens[a.column := v] else tokens, original, assignments[1..], realBytes);
    }
  }

  lemma UpdatedFits(row: TableRow, id: nat, assignments: seq<S.Assignment>, realBytes: RealBytes)
    requires FitsTableRow(row, realBytes) && LiteralsFit(assignments, realBytes) && id < 0x1_0000_0000_0000_0000
    ensures IsRow(RowOf(S.Updated(row, id, assignments), realBytes), realBytes)
  {
    hide FitsValues, RowOf, S.Assigned, LiteralsFit;
    AssignedFits(row.tokens, row.tokens, assignments, realBytes);
    assert FitsTableRow(S.Updated(row, id, assignments), realBytes);
  }

  lemma {:induction false} HitsBound(rows: seq<TableRow>, ids: set<nat>)
    ensures S.Hits(rows, ids) <= |rows|
  {
    if rows != [] {
      HitsBound(rows[..|rows| - 1], ids);
    }
  }

  lemma {:induction false} UpdateTyped(table: Uuid, p: PageId, rows: seq<TableRow>, k: nat, ids: set<nat>,
                                       assignments: seq<S.Assignment>, lastRid: nat, realBytes: RealBytes)
    requires k <= |rows| && FitAll(rows, realBytes) && LiteralsFit(assignments, realBytes)
    requires lastRid + |rows| < 0x1_0000_0000_0000_0000
    ensures AllRows(R.UpdateChanges(table, p, rows, k, ids, assignments, lastRid, realBytes), table, realBytes)
  {
    hide IsRow, RowOf, FitsTableRow, S.Updated, LiteralsFit;
    if k > 0 {
      UpdateTyped(table, p, rows, k - 1, ids, assignments, lastRid, realBytes);
      HitsBound(rows[..k - 1], ids);
      HiddenFits(rows[k - 1], realBytes);
      UpdatedFits(rows[k - 1], lastRid + S.Hits(rows[..k - 1], ids) + 1, assignments, realBytes);
    }
  }

  lemma {:induction false} UpdatesTyped(table: Uuid, pages: map<PageId, TablePage>, list: seq<PageId>, n: nat, ids: set<nat>,
                                        assignments: seq<S.Assignment>, rid: seq<nat>, realBytes: RealBytes)
    requires n <= |list| == |rid| && LiteralsFit(assignments, realBytes)
    requires forall p | p in list :: p in pages && FitAll(pages[p].rows, realBytes)
    requires forall i | 0 <= i < |list| :: rid[i] + |pages[list[i]].rows| < 0x1_0000_0000_0000_0000
    ensures AllRows(R.UpdatesOn(table, pages, list, n, ids, assignments, rid, realBytes), table, realBytes)
  {
    hide ChangesRows, FitAll, R.UpdateChanges, LiteralsFit;
    if n > 0 {
      var p := list[n - 1];
      UpdatesTyped(table, pages, list, n - 1, ids, assignments, rid, realBytes);
      UpdateTyped(table, p, pages[p].rows, |pages[p].rows|, ids, assignments, rid[n - 1], realBytes);
    }
  }

  // ---- The log ----

  // The header's numbers and ids, the page ids and the sizes fit their fields.
  ghost predicate FitsFields(r: WalRecord) {
    FitsHeader(r) && |W.PutRecord(r, [])| < 0x1_0000_0000_0000_0000
    && (r.body.Do? ==> if r.body.change.IsData() then FitsPlace(r.body.change) else W.FitsChange(r.body.change))
  }

  ghost predicate AllTyped(log: Log, realBytes: RealBytes) {
    forall i | 0 <= i < |log| :: Typed(log[i], realBytes) && |W.PutRecord(log[i], [])| < 0x1_0000_0000_0000_0000
  }

  // A log that a statement's changes have been appended to is stored as it is: flushing it and reopening the
  // files gives it back.
  lemma LoggedSurvives(log: Log, log': Log, t: TxnId, cs: seq<Change>, table: Uuid, realBytes: RealBytes)
    requires AllTyped(log, realBytes) && R.Logs(log, log', t, cs) && AllRows(cs, table, realBytes)
    requires forall i | |log| <= i < |log'| :: FitsFields(log'[i])
    ensures AllTyped(log', realBytes) && F.Storable(log')
  {
    hide ChangesRows, FitsHeader, W.FitsChange, FitsPlace, W.PutRecord, F.Storable;
    forall i | 0 <= i < |log'| ensures Typed(log'[i], realBytes) && |W.PutRecord(log'[i], [])| < 0x1_0000_0000_0000_0000 {
      if i < |log| {
        assert log'[i] == log[i];
      } else {
        var j := (i - |log|) / 2;
        assert i == |log| + 2 * j || i == |log| + 2 * j + 1;
      }
    }
    LogSurvives(log', realBytes);
  }
}
