/**
 What statements make of rows: the values an insert arranges by column, the versions an update writes, and
 the rows that given rows stand for.
 */
module TableStatements {
  import opened Types
  import opened Values
  import opened TablePages

  datatype Assignment = SetLiteral(column: nat, value: Value) | SetColumn(column: nat, source: nat)

  // Columns are copied from the row as it was before the update.
  function Assigned(tokens: seq<Value>, original: seq<Value>, assignments: seq<Assignment>): seq<Value>
    decreases assignments
  {
    if assignments == [] then tokens
    else
      var a := assignments[0];
      var v := match a
        case SetLiteral(_, value) => value
        case SetColumn(_, source) => if source < |original| then original[source] else Null;
      Assigned(if a.column < |tokens| then tokens[a.column := v] else tokens, original, assignments[1..])
  }

  function Updated(row: TableRow, id: nat, assignments: seq<Assignment>): TableRow {
    TableRow(id, false, Assigned(row.tokens, row.tokens, assignments))
  }

  predicate Hit(row: TableRow, ids: set<nat>) {
    row.id in ids && !row.obsolete
  }

  // The rows of a page with those hit marked obsolete.
  function Marked(rows: seq<TableRow>, ids: set<nat>): seq<TableRow> {
    seq(|rows|, i requires 0 <= i < |rows| => if Hit(rows[i], ids) then rows[i].(obsolete := true) else rows[i])
  }

  function Hits(rows: seq<TableRow>, ids: set<nat>): nat {
    if rows == [] then 0 else Hits(rows[..|rows| - 1], ids) + if Hit(rows[|rows| - 1], ids) then 1 else 0
  }

  // The new versions of the rows hit, numbered after lastRid.
  function NewVersions(rows: seq<TableRow>, ids: set<nat>, assignments: seq<Assignment>, lastRid: nat): seq<TableRow> {
    if rows == [] then []
    else
      var n := |rows| - 1;
      var before := NewVersions(rows[..n], ids, assignments, lastRid);
      if Hit(rows[n], ids) then before + [Updated(rows[n], lastRid + Hits(rows[..n], ids) + 1, assignments)] else before
  }

  // The value given for column j: by position, or by the last of the named columns that is column j;
  // NULL when there is none.
  function GivenFor(cols: Option<seq<Option<nat>>>, values: seq<Value>, j: nat): Value {
    match cols
    case None => if j < |values| then values[j] else Null
    case Some(cs) => LastGiven(cs, values, |cs|, j)
  }

  function LastGiven(cs: seq<Option<nat>>, values: seq<Value>, n: nat, j: nat): Value
    requires n <= |cs|
  {
    if n == 0 then Null
    else if cs[n - 1] == Some(j) && n - 1 < |values| then values[n - 1]
    else LastGiven(cs, values, n - 1, j)
  }

  function Arranged(width: nat, cols: Option<seq<Option<nat>>>, values: seq<Value>): seq<Value> {
    seq(width, j requires 0 <= j < width => GivenFor(cols, values, j))
  }

  function RowIds(rows: seq<TableRow>): set<nat> {
    set r | r in rows :: r.id
  }

  // ---- What an update writes ----

  // The width stays. A column that no assignment names keeps its token; any other takes the value of the last
  // assignment that names it, a literal or a column of the row as it was.
  ghost predicate IsAssigned(tokens: seq<Value>, tokens': seq<Value>, assignments: seq<Assignment>) {
    && |tokens'| == |tokens|
    && (forall j | 0 <= j < |tokens| && Unassigned(assignments, j) :: tokens'[j] == tokens[j])
    && (forall i | 0 <= i < |assignments| && LastFor(assignments, i) && assignments[i].column < |tokens| ::
          match assignments[i]
          case SetLiteral(column, value) => tokens'[column] == value
          case SetColumn(column, source) => source < |tokens| ==> tokens'[column] == tokens[source])
  }

  ghost predicate Unassigned(assignments: seq<Assignment>, j: nat) {
    forall i | 0 <= i < |assignments| :: assignments[i].column != j
  }

  // No later assignment names the column.
  ghost predicate LastFor(assignments: seq<Assignment>, i: nat)
    requires i < |assignments|
  {
    forall k | i < k < |assignments| :: assignments[k].column != assignments[i].column
  }

  lemma {:induction false} AssignedFrom(tokens: seq<Value>, original: seq<Value>, assignments: seq<Assignment>)
    ensures var r := Assigned(tokens, original, assignments);
      && |r| == |tokens|
      && (forall j | 0 <= j < |tokens| && Unassigned(assignments, j) :: r[j] == tokens[j])
      && (forall i | 0 <= i < |assignments| && LastFor(assignments, i) && assignments[i].column < |tokens| ::
            match assignments[i]
            case SetLiteral(column, value) => r[column] == value
            case SetColumn(column, source) => source < |original| ==> r[column] == original[source])
    decreases assignments
  {
    if assignments != [] {
      var a, rest := assignments[0], assignments[1..];
      var v := match a
        case SetLiteral(_, value) => value
        case SetColumn(_, source) => if source < |original| then original[source] else Null;
      var next := if a.column < |tokens| then tokens[a.column := v] else tokens;
      AssignedFrom(next, original, rest);
      forall j: nat | Unassigned(assignments, j) ensures Unassigned(rest, j) && a.column != j {
        assert assignments[0].column != j;
        forall i | 0 <= i < |rest| ensures rest[i].column != j {
          assert assignments[i + 1].column != j;
        }
      }
      forall i | 0 < i < |assignments| && LastFor(assignments, i) ensures LastFor(rest, i - 1) && rest[i - 1] == assignments[i] {
        forall k | i - 1 < k < |rest| ensures rest[k].column != rest[i - 1].column {
          assert assignments[k + 1].column != assignments[i].column;
        }
      }
      if LastFor(assignments, 0) {
        assert Unassigned(rest, a.column) by {
          forall i | 0 <= i < |rest| ensures rest[i].column != a.column {
            assert assignments[i + 1].column != assignments[0].column;
          }
        }
      }
    }
  }

  lemma UpdatedIs(row: TableRow, id: nat, assignments: seq<Assignment>)
    ensures var r := Updated(row, id, assignments); r.id == id && !r.obsolete && IsAssigned(row.tokens, r.tokens, assignments)
  {
    AssignedFrom(row.tokens, row.tokens, assignments);
  }

  // Two columns change places, and the later of two assignments to a column counts.
  lemma UpdatedOn(a: Value, b: Value, v: Value, w: Value)
    ensures Updated(TableRow(0, false, [a, b]), 1, [SetLiteral(0, v)]) == TableRow(1, false, [v, b])
    ensures Updated(TableRow(0, false, [a, b]), 1, [SetColumn(0, 1), SetColumn(1, 0)]) == TableRow(1, false, [b, a])
    ensures Updated(TableRow(0, false, [a, b]), 1, [SetLiteral(1, v), SetLiteral(1, w)]) == TableRow(1, false, [a, w])
  {
    UpdatedIs(TableRow(0, false, [a, b]), 1, [SetLiteral(0, v)]);
    UpdatedIs(TableRow(0, false, [a, b]), 1, [SetColumn(0, 1), SetColumn(1, 0)]);
    UpdatedIs(TableRow(0, false, [a, b]), 1, [SetLiteral(1, v), SetLiteral(1, w)]);
    assert LastFor([SetLiteral(0, v)], 0);
    assert LastFor([SetColumn(0, 1), SetColumn(1, 0)], 0) && LastFor([SetColumn(0, 1), SetColumn(1, 0)], 1);
    assert LastFor([SetLiteral(1, v), SetLiteral(1, w)], 1);
  }

  // ---- Which rows are hit ----

  // A given row has the id.
  ghost predicate Named(rows: seq<TableRow>, id: nat) {
    exists r :: r in rows && r.id == id
  }

  lemma RowIdsAre(rows: seq<TableRow>)
    ensures forall id :: id in RowIds(rows) <==> Named(rows, id)
  {
  }

  // The rows of a page after an update of those with an id in ids: the live ones among them, hit in their order,
  // are marked obsolete, and the new version of each follows behind, numbered on from lastRid.
  ghost predicate Replaced(rows: seq<TableRow>, rows': seq<TableRow>, ids: set<nat>, assignments: seq<Assignment>, lastRid: nat,
                           hit: seq<nat>) {
    && AreHit(rows, ids, hit)
    && |rows'| == |rows| + |hit|
    && (forall i | 0 <= i < |rows| :: rows'[i] == if i in hit then rows[i].(obsolete := true) else rows[i])
    && (forall h | 0 <= h < |hit| :: VersionOf(rows[hit[h]], rows'[|rows| + h], lastRid + h + 1, assignments))
  }

  // Their positions, in order.
  ghost predicate AreHit(rows: seq<TableRow>, ids: set<nat>, hit: seq<nat>) {
    && (forall h | 0 <= h < |hit| :: hit[h] < |rows|)
    && (forall g, h | 0 <= g < h < |hit| :: hit[g] < hit[h])
    && (forall i: nat | i < |rows| :: i in hit <==> rows[i].id in ids && !rows[i].obsolete)
  }

  ghost predicate VersionOf(row: TableRow, row': TableRow, id: nat, assignments: seq<Assignment>) {
    row'.id == id && !row'.obsolete && IsAssigned(row.tokens, row'.tokens, assignments)
  }

  function HitAt(rows: seq<TableRow>, ids: set<nat>): seq<nat> {
    if rows == [] then []
    else
      var n := |rows| - 1;
      var before := HitAt(rows[..n], ids);
      if Hit(rows[n], ids) then before + [n] else before
  }

  lemma {:induction false} HitAtIs(rows: seq<TableRow>, ids: set<nat>)
    ensures AreHit(rows, ids, HitAt(rows, ids)) && |HitAt(rows, ids)| == Hits(rows, ids)
  {
    hide AreHit;
    if rows != [] {
      HitAtIs(rows[..|rows| - 1], ids);
      HitStep(rows, ids, HitAt(rows[..|rows| - 1], ids));
    } else {
      NothingHit(ids);
    }
  }

  lemma NothingHit(ids: set<nat>)
    ensures AreHit([], ids, [])
  {
  }

  lemma HitStep(rows: seq<TableRow>, ids: set<nat>, before: seq<nat>)
    requires rows != [] && AreHit(rows[..|rows| - 1], ids, before)
    ensures var n := |rows| - 1; AreHit(rows, ids, if Hit(rows[n], ids) then before + [n] else before)
  {
    var n := |rows| - 1;
    HitsBelow(rows[..n], ids, before);
    var hit := if Hit(rows[n], ids) then before + [n] else before;
    forall i: nat | i < |rows| ensures i in hit <==> rows[i].id in ids && !rows[i].obsolete {
      assert i in hit <==> i in before || (i == n && Hit(rows[n], ids));
      if i < n {
        assert rows[..n][i] == rows[i];
      }
    }
  }

  lemma HitsBelow(rows: seq<TableRow>, ids: set<nat>, hit: seq<nat>)
    requires AreHit(rows, ids, hit)
    ensures forall i | i in hit :: i < |rows|
  {
    forall i | i in hit ensures i < |rows| {
      var h :| 0 <= h < |hit| && hit[h] == i;
    }
  }

  lemma {:induction false} VersionsAre(rows: seq<TableRow>, ids: set<nat>, assignments: seq<Assignment>, lastRid: nat)
    ensures var news, hit := NewVersions(rows, ids, assignments, lastRid), HitAt(rows, ids);
      && |news| == |hit| && AreHit(rows, ids, hit)
      && (forall h | 0 <= h < |hit| :: VersionOf(rows[hit[h]], news[h], lastRid + h + 1, assignments))
  {
    hide IsAssigned, Updated;
    HitAtIs(rows, ids);
    if rows != [] {
      var n := |rows| - 1;
      VersionsAre(rows[..n], ids, assignments, lastRid);
      HitAtIs(rows[..n], ids);
      UpdatedIs(rows[n], lastRid + Hits(rows[..n], ids) + 1, assignments);
    }
  }

  lemma ReplacedPage(rows: seq<TableRow>, ids: set<nat>, assignments: seq<Assignment>, lastRid: nat)
    ensures Replaced(rows, Marked(rows, ids) + NewVersions(rows, ids, assignments, lastRid), ids, assignments, lastRid, HitAt(rows, ids))
  {
    hide VersionOf;
    VersionsAre(rows, ids, assignments, lastRid);
  }

  // ---- What an insert arranges ----

  // One token per column. By position: the value given there, NULL when none is. By name: the last value given
  // for the column, NULL when none is.
  ghost predicate IsArranged(tokens: seq<Value>, width: nat, cols: Option<seq<Option<nat>>>, values: seq<Value>) {
    && |tokens| == width
    && match cols
       case None => forall j | 0 <= j < width :: tokens[j] == if j < |values| then values[j] else Null
       case Some(cs) =>
         && (forall j | 0 <= j < width && NotNamed(cs, values, |cs|, j) :: tokens[j] == Null)
         && (forall i, j | 0 <= i < |cs| && i < |values| && 0 <= j < width && cs[i] == Some(j) && LastNamed(cs, values, |cs|, i) ::
               tokens[j] == values[i])
  }

  // None of the first n named columns after the i-th is the same, and given a value.
  ghost predicate LastNamed(cs: seq<Option<nat>>, values: seq<Value>, n: nat, i: nat)
    requires i < n <= |cs|
  {
    forall k | i < k < n && k < |values| :: cs[k] != cs[i]
  }

  ghost predicate NotNamed(cs: seq<Option<nat>>, values: seq<Value>, n: nat, j: nat)
    requires n <= |cs|
  {
    forall i | 0 <= i < n && i < |values| :: cs[i] != Some(j)
  }

  lemma ArrangedIs(width: nat, cols: Option<seq<Option<nat>>>, values: seq<Value>)
    ensures IsArranged(Arranged(width, cols, values), width, cols, values)
  {
    if cols.Some? {
      forall j | 0 <= j < width
        ensures NotNamed(cols.value, values, |cols.value|, j) ==> Arranged(width, cols, values)[j] == Null
        ensures forall i | 0 <= i < |cols.value| && i < |values| && cols.value[i] == Some(j) && LastNamed(cols.value, values, |cols.value|, i) ::
                  Arranged(width, cols, values)[j] == values[i]
      {
        LastGivenIs(cols.value, values, |cols.value|, j);
      }
    }
  }

  lemma {:induction false} LastGivenIs(cs: seq<Option<nat>>, values: seq<Value>, n: nat, j: nat)
    requires n <= |cs|
    ensures NotNamed(cs, values, n, j) ==> LastGiven(cs, values, n, j) == Null
    ensures forall i | 0 <= i < n && i < |values| && cs[i] == Some(j) && LastNamed(cs, values, n, i) ::
              LastGiven(cs, values, n, j) == values[i]
  {
    hide NotNamed, LastNamed;
    if n > 0 {
      LastGivenIs(cs, values, n - 1, j);
      if NotNamed(cs, values, n, j) {
        NotNamedStep(cs, values, n, j);
      }
      forall i | 0 <= i < n && i < |values| && cs[i] == Some(j) && LastNamed(cs, values, n, i)
        ensures LastGiven(cs, values, n, j) == values[i]
      {
        LastNamedStep(cs, values, n, i);
      }
    }
  }

  lemma NotNamedStep(cs: seq<Option<nat>>, values: seq<Value>, n: nat, j: nat)
    requires 0 < n <= |cs| && NotNamed(cs, values, n, j)
    ensures NotNamed(cs, values, n - 1, j) && !(cs[n - 1] == Some(j) && n - 1 < |values|)
  {
  }

  lemma LastNamedStep(cs: seq<Option<nat>>, values: seq<Value>, n: nat, i: nat)
    requires i < n <= |cs| && LastNamed(cs, values, n, i)
    ensures i < n - 1 ==> LastNamed(cs, values, n - 1, i) && !(cs[n - 1] == cs[i] && n - 1 < |values|)
  {
  }
}
