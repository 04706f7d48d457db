/**
 Conditions on a row: how a filter evaluates them, how an index scan compares, and exactly when the
 two agree.
 */
module Conditions {
  import opened Types
  import opened Values
  import opened TablePages

  datatype Operator = Undef | Or | And | Not | Eq | Neq | Gr | Gre | Lt | Lte | Is | Assign

  // Column names are resolved to positions. TaggedColumn is a name in a node that semantic analysis has
  // tagged as a column, which only some readers take for one; Nested stands for a subexpression.
  datatype Operand = Column(index: nat) | TaggedColumn(index: nat) | Literal(value: Value) | Nested

  datatype Condition = Condition(op: Operator, left: Operand, right: Operand)

  // ---- The evaluator of filters ----

  // The types the evaluator knows how to order.
  predicate Ordinary(v: Value) {
    v.Integer? || v.Real? || v.String? || v.Char?
  }

  function EvalEq(l: Value, r: Value): bool {
    if l.Null? || r.Null? then TypeCode(l) == TypeCode(r)
    else if TypeCode(l) != TypeCode(r) then false
    else match l
      case Integer(i) => i == r.i
      case Real(x) => x == r.r
      case String(s) => s == r.s
      case Bool(b) => b == r.b
      case Char(c) => c == r.c
      case _ => false
  }

  function EvalGr(l: Value, r: Value): bool {
    if TypeCode(l) != TypeCode(r) then false
    else match l
      case Integer(i) => i > r.i
      case Real(x) => x > r.r
      case String(s) => BytesLess(r.s, s)
      case Char(c) => c > r.c
      case _ => false
  }

  function EvalGre(l: Value, r: Value): bool {
    if TypeCode(l) != TypeCode(r) then false
    else match l
      case Integer(i) => i >= r.i
      case Real(x) => x >= r.r
      case String(s) => !BytesLess(s, r.s)
      case Char(c) => c >= r.c
      case _ => false
  }

  // As written: less-than is true when the left side is the greater one.
  function EvalLt(l: Value, r: Value): bool {
    EvalGr(l, r)
  }

  function EvalLte(l: Value, r: Value): bool {
    EvalGre(l, r)
  }

  function EvalOp(op: Operator, l: Value, r: Value): bool {
    match op
    case Eq => EvalEq(l, r)
    case Neq => !EvalEq(l, r)
    case Lt => EvalLt(l, r)
    case Lte => EvalLte(l, r)
    case Gr => EvalGr(l, r)
    case Gre => EvalGre(l, r)
    case Is => EvalEq(l, r)
    case _ => false
  }

  // The evaluator looks at the name, not at the tag of its node.
  predicate Names(o: Operand) {
    o.Column? || o.TaggedColumn?
  }

  // None stands for an exception: a nested operand, a literal before a column, a column not there.
  function Evaluate(row: TableRow, c: Condition): Option<bool> {
    if Names(c.left) && c.right.Literal? then
      if c.left.index < |row.tokens| then Some(EvalOp(c.op, row.tokens[c.left.index], c.right.value)) else None
    else if Names(c.left) && Names(c.right) then
      if c.left.index < |row.tokens| && c.right.index < |row.tokens|
      then Some(EvalOp(c.op, row.tokens[c.left.index], row.tokens[c.right.index])) else None
    else if c.left.Literal? && c.right.Literal? then Some(EvalOp(c.op, c.left.value, c.right.value))
    else None
  }

  // ---- The comparison of index scans ----

  function OperandValue(row: TableRow, o: Operand): Option<Value> {
    match o
    case Column(i) => if i < |row.tokens| then Some(row.tokens[i]) else None
    case Literal(v) => Some(v)
    case _ => None
  }

  function IndexOp(op: Operator, l: Value, r: Value): Option<bool> {
    match op
    case Eq => Some(Equal(l, r))
    case Neq => Some(!Equal(l, r))
    case Lt => Some(Less(l, r))
    case Lte => Some(Less(l, r) || Equal(l, r))
    case Gr => Some(Less(r, l))
    case Gre => Some(!Less(l, r))
    case _ => None
  }

  function Matches(row: TableRow, c: Condition): Option<bool> {
    var l, r := OperandValue(row, c.left), OperandValue(row, c.right);
    if l.Some? && r.Some? then IndexOp(c.op, l.value, r.value) else None
  }

  // The key of an equality between the index's column, in a tagged node, and a literal.
  function TaggedKey(c: Condition, column: nat): Option<Value> {
    if !c.op.Eq? then None
    else if c.left == TaggedColumn(column) && c.right.Literal? then Some(c.right.value)
    else if c.right == TaggedColumn(column) && c.left.Literal? then Some(c.left.value)
    else None
  }

  // ---- When the two agree ----

  // What a caller can check of an operator and two values.
  predicate Agreeable(op: Operator, l: Value, r: Value) {
    match op
    case Eq => !(l.Undefined? && l == r)
    case Neq => !(l.Undefined? && l == r)
    case Gr => if TypeCode(l) == TypeCode(r) then Ordinary(l) || !Less(r, l) else TypeCode(l) < TypeCode(r)
    case Gre => if TypeCode(l) == TypeCode(r) then Ordinary(l) || Less(l, r) else TypeCode(l) < TypeCode(r)
    case Lt => if TypeCode(l) == TypeCode(r) then (if Ordinary(l) then l == r else !Less(l, r)) else TypeCode(l) > TypeCode(r)
    case Lte => if TypeCode(l) == TypeCode(r) then (if Ordinary(l) then l == r else Less(r, l)) else TypeCode(l) > TypeCode(r)
    case _ => false
  }

  // The filter and the index scan judge two values alike exactly in these cases: always for equality
  // and for the greater-than family on ordinary values of one type, but for the less-than family
  // only on equal values.
  lemma AgreeExactly(op: Operator, l: Value, r: Value)
    ensures IndexOp(op, l, r) == Some(EvalOp(op, l, r)) <==> Agreeable(op, l, r)
  {
    LessTotal(l, r);
    LessTotal(r, l);
    LessTotal(l, l);
    if TypeCode(l) == TypeCode(r) && l.String? {
      BytesTotal(l.s, r.s);
    }
  }

  // ---- What the operators mean ----

  // l is greater than r: as numbers, as characters' codes, or as strings in dictionary order.
  ghost predicate Exceeds(l: Value, r: Value) {
    match l
    case Integer(i) => r.Integer? && i > r.i
    case Real(x) => r.Real? && x > r.r
    case Char(c) => r.Char? && c > r.c
    case String(s) => r.String? && Precedes(r.s, s)
    case _ => false
  }

  // The filter and the index scan on two numbers.
  lemma IntegersCompare(i: int, j: int)
    ensures EvalOp(Eq, Integer(i), Integer(j)) == (i == j) && IndexOp(Eq, Integer(i), Integer(j)) == Some(i == j)
    ensures EvalOp(Neq, Integer(i), Integer(j)) == (i != j) && IndexOp(Neq, Integer(i), Integer(j)) == Some(i != j)
    ensures EvalOp(Gr, Integer(i), Integer(j)) == (i > j) && IndexOp(Gr, Integer(i), Integer(j)) == Some(i > j)
    ensures EvalOp(Gre, Integer(i), Integer(j)) == (i >= j) && IndexOp(Gre, Integer(i), Integer(j)) == Some(i >= j)
    ensures EvalOp(Lt, Integer(i), Integer(j)) == (i > j) && IndexOp(Lt, Integer(i), Integer(j)) == Some(i < j)
    ensures EvalOp(Lte, Integer(i), Integer(j)) == (i >= j) && IndexOp(Lte, Integer(i), Integer(j)) == Some(i <= j)
    ensures EvalOp(Is, Integer(i), Integer(j)) == (i == j) && IndexOp(Is, Integer(i), Integer(j)) == None
  {
  }

  lemma RealsCompare(x: real, y: real)
    ensures EvalOp(Eq, Real(x), Real(y)) == (x == y) && IndexOp(Eq, Real(x), Real(y)) == Some(x == y)
    ensures EvalOp(Neq, Real(x), Real(y)) == (x != y) && IndexOp(Neq, Real(x), Real(y)) == Some(x != y)
    ensures EvalOp(Gr, Real(x), Real(y)) == (x > y) && IndexOp(Gr, Real(x), Real(y)) == Some(x > y)
    ensures EvalOp(Gre, Real(x), Real(y)) == (x >= y) && IndexOp(Gre, Real(x), Real(y)) == Some(x >= y)
    ensures EvalOp(Lt, Real(x), Real(y)) == (x > y) && IndexOp(Lt, Real(x), Real(y)) == Some(x < y)
    ensures EvalOp(Lte, Real(x), Real(y)) == (x >= y) && IndexOp(Lte, Real(x), Real(y)) == Some(x <= y)
  {
  }

  lemma CharsCompare(c: int, d: int)
    ensures EvalOp(Eq, Char(c), Char(d)) == (c == d) && IndexOp(Eq, Char(c), Char(d)) == Some(c == d)
    ensures EvalOp(Neq, Char(c), Char(d)) == (c != d) && IndexOp(Neq, Char(c), Char(d)) == Some(c != d)
    ensures EvalOp(Gr, Char(c), Char(d)) == (c > d) && IndexOp(Gr, Char(c), Char(d)) == Some(c > d)
    ensures EvalOp(Gre, Char(c), Char(d)) == (c >= d) && IndexOp(Gre, Char(c), Char(d)) == Some(c >= d)
    ensures EvalOp(Lt, Char(c), Char(d)) == (c > d) && IndexOp(Lt, Char(c), Char(d)) == Some(c < d)
    ensures EvalOp(Lte, Char(c), Char(d)) == (c >= d) && IndexOp(Lte, Char(c), Char(d)) == Some(c <= d)
  {
  }

  // On strings, by where they first differ.
  lemma StringsCompare(s: seq<Byte>, t: seq<Byte>)
    ensures EvalOp(Eq, String(s), String(t)) == (s == t) && IndexOp(Eq, String(s), String(t)) == Some(s == t)
    ensures EvalOp(Gr, String(s), String(t)) <==>
            exists n: nat :: && n <= |t| && n <= |s| && t[..n] == s[..n]
                             && (n == |t| < |s| || (n < |t| && n < |s| && t[n] < s[n]))
    ensures EvalOp(Gr, String(s), String(t)) == Precedes(t, s) && IndexOp(Gr, String(s), String(t)) == Some(Precedes(t, s))
    ensures EvalOp(Gre, String(s), String(t)) == (Precedes(t, s) || s == t)
    ensures IndexOp(Gre, String(s), String(t)) == Some(Precedes(t, s) || s == t)
    ensures EvalOp(Lt, String(s), String(t)) == Precedes(t, s) && IndexOp(Lt, String(s), String(t)) == Some(Precedes(s, t))
    ensures EvalOp(Lte, String(s), String(t)) == (Precedes(t, s) || s == t)
    ensures IndexOp(Lte, String(s), String(t)) == Some(Precedes(s, t) || s == t)
  {
    BytesLessIs(s, t);
    BytesLessIs(t, s);
    BytesTotal(s, t);
  }

  // Hence for any two ordinary values of one type; "c" is greater than "b", and "a" is not.
  lemma OperatorsMean(l: Value, r: Value)
    requires Ordinary(r) && TypeCode(l) == TypeCode(r)
    ensures EvalOp(Eq, l, r) == (l == r) && IndexOp(Eq, l, r) == Some(l == r)
    ensures EvalOp(Gr, l, r) == Exceeds(l, r) && IndexOp(Gr, l, r) == Some(Exceeds(l, r))
    ensures EvalOp(Gre, l, r) == (Exceeds(l, r) || l == r) && IndexOp(Gre, l, r) == Some(Exceeds(l, r) || l == r)
    ensures EvalOp(Gr, String([99]), String([98])) && !EvalOp(Gr, String([97]), String([98]))
  {
    if l.String? {
      StringsCompare(l.s, r.s);
    }
    BytesLessOn([]);
  }

  // IS with NULL holds of NULL alone; with any other value it is equality.
  lemma IsMeans(l: Value, r: Value)
    ensures EvalOp(Is, l, Null) <==> l == Null
    ensures Ordinary(r) ==> (EvalOp(Is, l, r) <==> l == r)
    ensures IndexOp(Is, l, r) == None
  {
  }

  // Which side a condition takes its values from.
  lemma SidesCompare(a: Value, b: Value, op: Operator, v: Value)
    ensures var row := TableRow(0, false, [a, b]);
      && Evaluate(row, Condition(op, Column(0), Column(1))) == Some(EvalOp(op, a, b))
      && Evaluate(row, Condition(op, Column(1), Column(0))) == Some(EvalOp(op, b, a))
      && Evaluate(row, Condition(op, Column(1), Literal(v))) == Some(EvalOp(op, b, v))
      && Evaluate(row, Condition(op, Literal(v), Column(1))) == None
      && Evaluate(row, Condition(op, Column(2), Literal(v))) == None
      && Matches(row, Condition(op, Column(1), Literal(v))) == IndexOp(op, b, v)
      && Matches(row, Condition(op, Literal(v), Column(1))) == IndexOp(op, v, b)
  {
  }

  // The conditions and values for which the equivalence of plans is claimed.
  predicate Supported(op: Operator, l: Value, r: Value) {
    (op.Eq? || op.Gr? || op.Gre?) && Ordinary(r) && TypeCode(l) == TypeCode(r)
  }

  lemma SupportedAgree(op: Operator, l: Value, r: Value)
    requires Supported(op, l, r)
    ensures IndexOp(op, l, r) == Some(EvalOp(op, l, r))
  {
    AgreeExactly(op, l, r);
  }

  // A NULL passes no supported condition.
  lemma NullFails(op: Operator, r: Value)
    requires (op.Eq? || op.Gr? || op.Gre?) && Ordinary(r)
    ensures !EvalOp(op, Null, r)
  {
  }

  // On less-than the two disagree for any two different integers.
  lemma LessThanDisagrees()
    ensures IndexOp(Lt, Integer(1), Integer(2)) == Some(true) && EvalOp(Lt, Integer(1), Integer(2)) == false
  {
  }
}
