/**
 The rows of one data page, edited the way redo and undo edit them: an edit always goes to the
 first row with the wanted id.
 */
module PageRows {
  import opened Types

  predicate Obsolete(r: Row) {
    r.flags % 2 == 1
  }

  datatype Edit = Hide | Show | Restore(tokens: seq<DataToken>)

  function Edited(r: Row, e: Edit): Row {
    match e
    case Hide => r.(flags := r.flags - r.flags % 2 + 1)
    case Show => r.(flags := r.flags - r.flags % 2)
    case Restore(tokens) => r.(flags := r.flags - r.flags % 2, tokens := tokens)
  }

  function IndexOf(rows: seq<Row>, id: nat): (i: nat)
    ensures i <= |rows|
    ensures i < |rows| ==> rows[i].id == id
    ensures forall j :: 0 <= j < i ==> rows[j].id != id
  {
    if rows == [] then 0 else if rows[0].id == id then 0 else IndexOf(rows[1..], id) + 1
  }

  function EditFirst(rows: seq<Row>, id: nat, e: Edit): seq<Row> {
    var i := IndexOf(rows, id);
    if i < |rows| then rows[i := Edited(rows[i], e)] else rows
  }

  // The effect of a change on the rows of its page.
  function Redo(rows: seq<Row>, c: Change): seq<Row> {
    match c
    case InsertRow(_, _, after) => rows + [after]
    case UpdateRow(_, _, before, after) => EditFirst(rows, before.id, Hide) + [after]
    case DeleteRow(_, _, before) => EditFirst(rows, before.id, Hide)
    case _ => rows
  }

  // The effect of undoing a change; redoing its compensation record does the same.
  function Undo(rows: seq<Row>, c: Change): seq<Row> {
    match c
    case InsertRow(_, _, after) => EditFirst(rows, after.id, Hide)
    case UpdateRow(_, _, before, after) => EditFirst(rows, after.id, Restore(before.tokens))
    case DeleteRow(_, _, before) => EditFirst(rows, before.id, Show)
    case _ => rows
  }

  predicate Distinct(rows: seq<Row>) {
    forall i, j :: 0 <= i < j < |rows| ==> rows[i].id != rows[j].id
  }

  // How often a row contributes the token tuple t to a scan of the page.
  function Shows(r: Row, t: seq<DataToken>): nat {
    if !Obsolete(r) && r.tokens == t then 1 else 0
  }

  // How many live rows carry exactly the tokens t.
  function LiveCount(rows: seq<Row>, t: seq<DataToken>): nat {
    if rows == [] then 0 else LiveCount(rows[..|rows| - 1], t) + Shows(rows[|rows| - 1], t)
  }

  // It counts the rows without the obsolete flag that have these tokens.
  lemma {:induction false} LiveCountIs(rows: seq<Row>, t: seq<DataToken>)
    ensures LiveCount(rows, t) == |set i: nat | i < |rows| && rows[i].flags % 2 == 0 && rows[i].tokens == t|
  {
    if rows != [] {
      var n := |rows| - 1;
      LiveCountIs(rows[..n], t);
      OneMore(rows, t);
    }
  }

  lemma OneMore(rows: seq<Row>, t: seq<DataToken>)
    requires rows != []
    ensures var n := |rows| - 1;
      |set i: nat | i < |rows| && rows[i].flags % 2 == 0 && rows[i].tokens == t|
      == |set i: nat | i < |rows[..n]| && rows[..n][i].flags % 2 == 0 && rows[..n][i].tokens == t| + Shows(rows[n], t)
  {
    var n := |rows| - 1;
    var before := set i: nat | i < |rows[..n]| && rows[..n][i].flags % 2 == 0 && rows[..n][i].tokens == t;
    var all := set i: nat | i < |rows| && rows[i].flags % 2 == 0 && rows[i].tokens == t;
    assert all == if rows[n].flags % 2 == 0 && rows[n].tokens == t then before + {n} else before;
  }

  predicate Has(rows: seq<Row>, id: nat) {
    IndexOf(rows, id) < |rows|
  }

  function Get(rows: seq<Row>, id: nat): Row
    requires Has(rows, id)
  {
    rows[IndexOf(rows, id)]
  }

  lemma {:induction false} LiveCountUpdate(rows: seq<Row>, i: nat, r: Row, t: seq<DataToken>)
    requires i < |rows|
    ensures LiveCount(rows[i := r], t) + Shows(rows[i], t) == LiveCount(rows, t) + Shows(r, t)
  {
    var n := |rows| - 1;
    if i == n {
      assert rows[i := r][..n] == rows[..n];
    } else {
      assert rows[i := r][..n] == rows[..n][i := r];
      LiveCountUpdate(rows[..n], i, r, t);
    }
  }

  // What an edit does, row by row and count by count.
  lemma EditPresent(rows: seq<Row>, id: nat, e: Edit)
    requires Distinct(rows) && Has(rows, id)
    ensures var rows' := EditFirst(rows, id, e);
      && Distinct(rows')
      && (forall k :: Has(rows', k) <==> Has(rows, k))
      && (forall k | Has(rows, k) :: Get(rows', k) == if k == id then Edited(Get(rows, id), e) else Get(rows, k))
      && (forall t :: LiveCount(rows', t) + Shows(Get(rows, id), t)
                      == LiveCount(rows, t) + Shows(Edited(Get(rows, id), e), t))
  {
    var i := IndexOf(rows, id);
    var rows' := rows[i := Edited(rows[i], e)];
    forall j | 0 <= j < |rows| ensures rows'[j].id == rows[j].id {}
    forall k ensures IndexOf(rows', k) == IndexOf(rows, k) {
      SameIds(rows, rows', k);
    }
    forall t ensures LiveCount(rows', t) + Shows(rows[i], t) == LiveCount(rows, t) + Shows(rows'[i], t) {
      LiveCountUpdate(rows, i, rows'[i], t);
    }
  }

  lemma {:induction false} SameIds(a: seq<Row>, b: seq<Row>, k: nat)
    requires |a| == |b| && forall j :: 0 <= j < |a| ==> a[j].id == b[j].id
    ensures IndexOf(a, k) == IndexOf(b, k)
  {
    if a != [] && a[0].id != k {
      SameIds(a[1..], b[1..], k);
    }
  }

  lemma AppendNew(rows: seq<Row>, r: Row)
    requires Distinct(rows) && !Has(rows, r.id)
    ensures var rows' := rows + [r];
      && Distinct(rows')
      && (forall k :: Has(rows', k) <==> Has(rows, k) || k == r.id)
      && (forall k | Has(rows', k) :: Get(rows', k) == if k == r.id then r else Get(rows, k))
      && (forall t :: LiveCount(rows', t) == LiveCount(rows, t) + Shows(r, t))
  {
    var rows' := rows + [r];
    assert rows'[..|rows|] == rows;
    forall k ensures IndexOf(rows', k) == if k == r.id then |rows| else if Has(rows, k) then IndexOf(rows, k) else |rows'| {
      AppendIndex(rows, r, k);
    }
  }

  lemma {:induction false} AppendIndex(rows: seq<Row>, r: Row, k: nat)
    requires !Has(rows, r.id)
    ensures IndexOf(rows + [r], k) == if k == r.id then |rows| else if Has(rows, k) then IndexOf(rows, k) else |rows| + 1
  {
    if rows != [] && rows[0].id != k {
      assert (rows + [r])[1..] == rows[1..] + [r];
      AppendIndex(rows[1..], r, k);
    }
  }
}
