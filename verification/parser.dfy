/**
 The expression parser: precedence climbing over a token cursor that never moves past the last token.
 */
module ExpressionParser {
  import opened Types

  datatype SqlOperator = EQ | NEQ | GR | GRE | LT | LTE | IS | AND | OR | NOT | PLUS | MINUS | MUL | DIV | ASSIGN

  // The tokens expressions are made of; Other stands for any further keyword or symbol.
  datatype Token =
    | Op(op: SqlOperator)
    | IsWord
    | NotWord
    | NullWord
    | Lit(text: string)
    | Ident(text: string)
    | LParen
    | RParen
    | Other

  // A leaf keeps its token; NullWord becomes the NULL literal. NOT has no left operand.
  datatype Expr =
    | Leaf(token: Token)
    | Binary(op: SqlOperator, left: Expr, right: Expr)
    | Negation(right: Expr)

  datatype Outcome =
    | Parsed(expr: Expr, next: nat)
    | Error
    // The calls would never return: an opening parenthesis or NOT stands last, and the cursor stays on it.
    | Endless

  predicate IsLeaf(t: Token) {
    t.NullWord? || t.Lit? || t.Ident?
  }

  // to_ast_operator, and the keyword IS.
  function OperatorOf(t: Token): Option<SqlOperator> {
    match t
    case Op(o) => if o.PLUS? || o.MINUS? || o.MUL? || o.DIV? then None else Some(o)
    case IsWord => Some(IS)
    case _ => None
  }

  function Priority(o: SqlOperator): nat {
    match o
    case OR => 1
    case AND => 2
    case NOT => 3
    case _ => 4
  }

  // advance: the cursor stays on the last token.
  function Next(tokens: seq<Token>, cur: nat): nat {
    if cur + 1 < |tokens| then cur + 1 else cur
  }

  // parse_primary. A closing parenthesis is required but not consumed.
  function ParsePrimary(tokens: seq<Token>, cur: nat): (r: Outcome)
    requires cur < |tokens|
    ensures r.Parsed? ==> cur <= r.next < |tokens| && (r.next == cur ==> cur + 1 == |tokens| && IsLeaf(tokens[cur]))
    decreases |tokens| - cur, 1
  {
    match tokens[cur]
    case LParen =>
      if cur + 1 == |tokens| then Endless
      else
        var inner := ParseTree(tokens, cur + 1, 0);
        if inner.Parsed? then
          if inner.expr.Leaf? || !tokens[inner.next].RParen? then Error else inner
        else inner
    case Op(NOT) =>
      if cur + 1 == |tokens| then Endless
      else
        var inner := ParsePrimary(tokens, cur + 1);
        if inner.Parsed? then Parsed(Negation(inner.expr), inner.next) else inner
    case _ => if IsLeaf(tokens[cur]) then Parsed(Leaf(tokens[cur]), Next(tokens, cur)) else Error
  }

  // The loop of parse_binary_tree, with the tree built so far.
  function Climb(tokens: seq<Token>, cur: nat, left: Expr, minPriority: nat): (r: Outcome)
    requires cur < |tokens|
    ensures r.Parsed? ==> cur <= r.next < |tokens|
    decreases |tokens| - cur, 2
  {
    var o := OperatorOf(tokens[cur]);
    if o == None || Priority(o.value) < minPriority then Parsed(left, cur)
    else if cur + 1 == |tokens| then
      // The operator stands last, so it is also what the right operand would start with.
      if tokens[cur] == Op(NOT) then Endless else Error
    else
      var isNot := o.value.IS? && tokens[cur + 1].NotWord?;
      if isNot && cur + 2 == |tokens| then Error
      else
        var start := if isNot then cur + 2 else cur + 1;
        var right := ParseTree(tokens, start, Priority(o.value) + 1);
        if right.Parsed? then
          Climb(tokens, right.next, Binary(if isNot then NEQ else o.value, left, right.expr), minPriority)
        else right
  }

  // parse_binary_tree.
  function ParseTree(tokens: seq<Token>, cur: nat, minPriority: nat): (r: Outcome)
    requires cur < |tokens|
    ensures r.Parsed? ==> cur <= r.next < |tokens|
    decreases |tokens| - cur, 3
  {
    var first := ParsePrimary(tokens, cur);
    if first.Parsed? then Climb(tokens, first.next, first.expr, minPriority) else first
  }

  // ---- Where parsing does not end ----

  predicate Opens(t: Token) {
    t.LParen? || t == Op(NOT)
  }

  // The parse of an operand stops here: no operator, or one of lower priority.
  predicate Stops(t: Token, minPriority: nat) {
    OperatorOf(t) == None || Priority(OperatorOf(t).value) < minPriority
  }

  // One pass over the tokens that decides whether parsing ends: an operand is expected at the cursor, and
  // operators below the lowest priority asked for so far do not count. True when the last token is an
  // opening one that is reached as an operand, or a NOT that is reached as an operator.
  predicate ScanOperand(tokens: seq<Token>, cur: nat, low: nat)
    requires cur < |tokens|
    decreases |tokens| - cur, 0
  {
    if Opens(tokens[cur]) then
      cur + 1 == |tokens| || ScanOperand(tokens, cur + 1, if tokens[cur].LParen? then 0 else low)
    else
      IsLeaf(tokens[cur]) && cur + 1 < |tokens| && ScanOperator(tokens, cur + 1, low)
  }

  // The same scan where an operator may follow. IS NOT counts as one operator.
  predicate ScanOperator(tokens: seq<Token>, cur: nat, low: nat)
    requires cur < |tokens|
    decreases |tokens| - cur, 1
  {
    if Stops(tokens[cur], low) then false
    else if cur + 1 == |tokens| then tokens[cur] == Op(NOT)
    else if OperatorOf(tokens[cur]) == Some(IS) && tokens[cur + 1].NotWord? then
      cur + 2 < |tokens| && ScanOperand(tokens, cur + 2, low)
    else ScanOperand(tokens, cur + 1, low)
  }

  // What the scan says of an outcome: where parsing succeeded, it goes on from there.
  predicate ScanAfter(tokens: seq<Token>, r: Outcome, low: nat)
    requires r.Parsed? ==> r.next < |tokens|
  {
    match r
    case Endless => true
    case Error => false
    case Parsed(_, next) => ScanOperator(tokens, next, low)
  }

  lemma {:induction false} ScanPrimary(tokens: seq<Token>, cur: nat, low: nat)
    requires cur < |tokens|
    ensures ScanOperand(tokens, cur, low) == ScanAfter(tokens, ParsePrimary(tokens, cur), low)
    decreases |tokens| - cur, 1
  {
    hide ParseTree, ScanOperator;
    if cur + 1 == |tokens| {
      LastOperand(tokens, cur, low);
    } else if tokens[cur].LParen? {
      ScanTree(tokens, cur + 1, 0, 0);
      ScanInner(tokens, cur, low);
    } else if tokens[cur] == Op(NOT) {
      ScanPrimary(tokens, cur + 1, low);
    }
  }

  lemma LastOperand(tokens: seq<Token>, cur: nat, low: nat)
    requires cur + 1 == |tokens|
    ensures ScanOperand(tokens, cur, low) == ScanAfter(tokens, ParsePrimary(tokens, cur), low) == Opens(tokens[cur])
  {
  }

  // An operand in parentheses leaves the cursor on the closing one, where every loop stops.
  lemma ScanInner(tokens: seq<Token>, cur: nat, low: nat)
    requires cur + 1 < |tokens| && tokens[cur].LParen?
    ensures var inner := ParseTree(tokens, cur + 1, 0);
      ScanAfter(tokens, ParsePrimary(tokens, cur), low) == ScanAfter(tokens, inner, 0)
  {
    hide ParseTree;
    var inner := ParseTree(tokens, cur + 1, 0);
    if inner.Parsed? {
      TreeStops(tokens, cur + 1, 0);
    }
  }

  lemma {:induction false} ScanClimb(tokens: seq<Token>, cur: nat, left: Expr, minPriority: nat, low: nat)
    requires cur < |tokens| && low <= minPriority
    ensures ScanOperator(tokens, cur, low) == ScanAfter(tokens, Climb(tokens, cur, left, minPriority), low)
    decreases |tokens| - cur, 2
  {
    hide ParseTree, ScanOperand;
    if !Stops(tokens[cur], minPriority) && cur + 1 < |tokens| {
      var o := OperatorOf(tokens[cur]).value;
      var isNot := o.IS? && tokens[cur + 1].NotWord?;
      if !(isNot && cur + 2 == |tokens|) {
        var start := if isNot then cur + 2 else cur + 1;
        var right := ParseTree(tokens, start, Priority(o) + 1);
        ScanTree(tokens, start, Priority(o) + 1, low);
        if right.Parsed? {
          ScanClimb(tokens, right.next, Binary(if isNot then NEQ else o, left, right.expr), minPriority, low);
        }
      }
    }
  }

  lemma {:induction false} ScanTree(tokens: seq<Token>, cur: nat, minPriority: nat, low: nat)
    requires cur < |tokens| && low <= minPriority
    ensures ScanOperand(tokens, cur, low) == ScanAfter(tokens, ParseTree(tokens, cur, minPriority), low)
    decreases |tokens| - cur, 3
  {
    hide ParsePrimary, Climb, ScanOperand, ScanOperator;
    ScanPrimary(tokens, cur, low);
    var first := ParsePrimary(tokens, cur);
    if first.Parsed? {
      ScanClimb(tokens, first.next, first.expr, minPriority, low);
    }
  }

  // Parsing an expression fails to end exactly when the scan says so.
  lemma EndlessExactly(tokens: seq<Token>, cur: nat, minPriority: nat)
    requires cur < |tokens|
    ensures ParseTree(tokens, cur, minPriority) == Endless <==> ScanOperand(tokens, cur, minPriority)
  {
    hide ParseTree, ScanOperand;
    ScanTree(tokens, cur, minPriority, minPriority);
    if ParseTree(tokens, cur, minPriority).Parsed? {
      TreeStops(tokens, cur, minPriority);
    }
  }

  // In particular the last token is then an opening parenthesis or a NOT.
  lemma {:induction false} EndlessOpens(tokens: seq<Token>, cur: nat, minPriority: nat)
    requires cur < |tokens| && ParseTree(tokens, cur, minPriority) == Endless
    ensures Opens(tokens[|tokens| - 1])
  {
    EndlessExactly(tokens, cur, minPriority);
    ScanOpens(tokens, cur, minPriority, true);
  }

  lemma {:induction false} ScanOpens(tokens: seq<Token>, cur: nat, low: nat, operand: bool)
    requires cur < |tokens| && (if operand then ScanOperand(tokens, cur, low) else ScanOperator(tokens, cur, low))
    ensures Opens(tokens[|tokens| - 1])
    decreases |tokens| - cur
  {
    if cur + 1 < |tokens| {
      if operand {
        if Opens(tokens[cur]) {
          ScanOpens(tokens, cur + 1, if tokens[cur].LParen? then 0 else low, true);
        } else {
          ScanOpens(tokens, cur + 1, low, false);
        }
      } else {
        var isNot := OperatorOf(tokens[cur]) == Some(IS) && tokens[cur + 1].NotWord?;
        ScanOpens(tokens, if isNot then cur + 2 else cur + 1, low, true);
      }
    }
  }

  // When only the last token opens and IS NOT does not occur, the tokens before it have to alternate
  // between leaves and operators, an opening parenthesis taking the place of a leaf.
  lemma {:induction false} EndlessAlternates(tokens: seq<Token>, cur: nat)
    requires cur < |tokens|
    requires forall i | cur <= i < |tokens| - 1 :: !Opens(tokens[i]) && !tokens[i].NotWord?
    ensures ParseTree(tokens, cur, 0) == Endless <==> Alternates(tokens, cur)
  {
    EndlessExactly(tokens, cur, 0);
    ScanAlternates(tokens, cur, cur);
  }

  ghost predicate Alternates(tokens: seq<Token>, cur: nat)
    requires cur < |tokens|
  {
    var last := |tokens| - 1;
    && (forall i | cur <= i < last :: if (i - cur) % 2 == 0 then IsLeaf(tokens[i]) else OperatorOf(tokens[i]).Some?)
    && (if (last - cur) % 2 == 0 then Opens(tokens[last]) else tokens[last] == Op(NOT))
  }

  // The scan from any later position, whose parity says what is expected there.
  lemma {:induction false} ScanAlternates(tokens: seq<Token>, cur: nat, at: nat)
    requires cur <= at < |tokens|
    requires forall i | cur <= i < |tokens| - 1 :: !Opens(tokens[i]) && !tokens[i].NotWord?
    requires forall i | cur <= i < at :: if (i - cur) % 2 == 0 then IsLeaf(tokens[i]) else OperatorOf(tokens[i]).Some?
    ensures (if (at - cur) % 2 == 0 then ScanOperand(tokens, at, 0) else ScanOperator(tokens, at, 0)) <==> Alternates(tokens, cur)
    decreases |tokens| - at
  {
    var expected := if (at - cur) % 2 == 0 then IsLeaf(tokens[at]) else OperatorOf(tokens[at]).Some?;
    if at + 1 < |tokens| && expected {
      ScanAlternates(tokens, cur, at + 1);
      if at + 2 == |tokens| && tokens[at + 1].NotWord? {
        assert !ScanOperand(tokens, at + 1, 0);
      }
    }
  }

  // An opening parenthesis, or a NOT, where an operand or an operator is expected; and two inputs that
  // end with an opening parenthesis and are parsed or refused all the same.
  lemma EndlessWitnesses(a: string, b: string)
    ensures ParseTree([LParen], 0, 0) == Endless && ParseTree([Ident(a), Op(NOT)], 0, 0) == Endless
    ensures ParseTree([Ident(a), Op(EQ), LParen], 0, 0) == Endless
    ensures ParseTree([Ident(a), LParen], 0, 0) == Parsed(Leaf(Ident(a)), 1)
    ensures ParseTree([Ident(a), Op(EQ), Ident(b), LParen], 0, 0) == Parsed(Binary(EQ, Leaf(Ident(a)), Leaf(Ident(b))), 3)
  {
    EndlessExactly([LParen], 0, 0);
    EndlessExactly([Ident(a), Op(NOT)], 0, 0);
    EndlessExactly([Ident(a), Op(EQ), LParen], 0, 0);
    assert ScanOperator([Ident(a), Op(EQ), LParen], 1, 0);
    var x, y := Leaf(Ident(a)), Leaf(Ident(b));
    ParsePrint([], x, [LParen], 0);
    assert [] + Print(x) + [LParen] == [Ident(a), LParen];
    var e := Binary(EQ, x, y);
    PrintBinary(e);
    ParsePrint([], e, [LParen], 0);
    assert [] + Print(e) + [LParen] == [Ident(a), Op(EQ), Ident(b), LParen];
  }

  // ---- Why parsing does not end ----

  // The calls as the code makes them, with nothing stipulated: they are followed to a depth of n, and None
  // says that this was not enough.
  function PrimaryWithin(tokens: seq<Token>, cur: nat, n: nat): (r: Option<Outcome>)
    requires cur < |tokens|
    ensures r.Some? && r.value.Parsed? ==> r.value.next < |tokens|
    decreases n
  {
    if n == 0 then None
    else
      match tokens[cur]
      case LParen =>
        var inner := TreeWithin(tokens, Next(tokens, cur), 0, n - 1);
        if inner.Some? && inner.value.Parsed? && (inner.value.expr.Leaf? || !tokens[inner.value.next].RParen?)
        then Some(Error) else inner
      case Op(NOT) =>
        var inner := PrimaryWithin(tokens, Next(tokens, cur), n - 1);
        if inner.Some? && inner.value.Parsed? then Some(Parsed(Negation(inner.value.expr), inner.value.next)) else inner
      case _ => Some(if IsLeaf(tokens[cur]) then Parsed(Leaf(tokens[cur]), Next(tokens, cur)) else Error)
  }

  function ClimbWithin(tokens: seq<Token>, cur: nat, left: Expr, minPriority: nat, n: nat): (r: Option<Outcome>)
    requires cur < |tokens|
    ensures r.Some? && r.value.Parsed? ==> r.value.next < |tokens|
    decreases n
  {
    if n == 0 then None
    else if Stops(tokens[cur], minPriority) then Some(Parsed(left, cur))
    else
      var o := OperatorOf(tokens[cur]).value;
      var at := Next(tokens, cur);
      var isNot := o.IS? && tokens[at].NotWord?;
      var right := TreeWithin(tokens, if isNot then Next(tokens, at) else at, Priority(o) + 1, n - 1);
      if right.Some? && right.value.Parsed? then
        ClimbWithin(tokens, right.value.next, Binary(if isNot then NEQ else o, left, right.value.expr), minPriority, n - 1)
      else right
  }

  function TreeWithin(tokens: seq<Token>, cur: nat, minPriority: nat, n: nat): (r: Option<Outcome>)
    requires cur < |tokens|
    ensures r.Some? && r.value.Parsed? ==> r.value.next < |tokens|
    decreases n
  {
    if n == 0 then None
    else
      var first := PrimaryWithin(tokens, cur, n - 1);
      if first.Some? && first.value.Parsed? then ClimbWithin(tokens, first.value.next, first.value.expr, minPriority, n - 1)
      else first
  }

  // On the last token, what opens an operand calls for an operand at the same cursor, to any depth.
  lemma {:induction false} SameCallAgain(tokens: seq<Token>, cur: nat, n: nat)
    requires cur + 1 == |tokens| && Opens(tokens[cur])
    ensures Next(tokens, cur) == cur && PrimaryWithin(tokens, cur, n) == None
    decreases n
  {
    if n > 0 && tokens[cur] == Op(NOT) {
      SameCallAgain(tokens, cur, n - 1);
    } else if n > 1 {
      SameCallAgain(tokens, cur, n - 2);
    }
  }

  // An outcome reached within some depth is the one above, and one that ends.
  ghost predicate Agrees(within: Option<Outcome>, r: Outcome) {
    within.Some? ==> within.value == r && r != Endless
  }

  lemma {:induction false} PrimaryAgrees(tokens: seq<Token>, cur: nat, n: nat)
    requires cur < |tokens|
    ensures Agrees(PrimaryWithin(tokens, cur, n), ParsePrimary(tokens, cur))
    decreases n
  {
    hide ParseTree, TreeWithin;
    if n > 0 {
      if cur + 1 == |tokens| && Opens(tokens[cur]) {
        SameCallAgain(tokens, cur, n);
      } else if tokens[cur].LParen? {
        TreeAgrees(tokens, cur + 1, 0, n - 1);
      } else if tokens[cur] == Op(NOT) {
        PrimaryAgrees(tokens, cur + 1, n - 1);
      }
    }
  }

  lemma {:induction false} ClimbAgrees(tokens: seq<Token>, cur: nat, left: Expr, minPriority: nat, n: nat)
    requires cur < |tokens|
    ensures Agrees(ClimbWithin(tokens, cur, left, minPriority, n), Climb(tokens, cur, left, minPriority))
    decreases n
  {
    hide ParseTree, TreeWithin;
    if n > 0 && !Stops(tokens[cur], minPriority) {
      var o := OperatorOf(tokens[cur]).value;
      var at := Next(tokens, cur);
      var isNot := o.IS? && tokens[at].NotWord?;
      var start := if isNot then Next(tokens, at) else at;
      TreeAgrees(tokens, start, Priority(o) + 1, n - 1);
      if at == cur {
        OperatorOperand(tokens, cur, Priority(o) + 1);
      } else {
        ClimbUnfold(tokens, cur, left, minPriority);
        var right := ParseTree(tokens, start, Priority(o) + 1);
        if right.Parsed? {
          ClimbAgrees(tokens, right.next, Binary(if isNot then NEQ else o, left, right.expr), minPriority, n - 1);
        }
      }
    }
  }

  lemma {:induction false} TreeAgrees(tokens: seq<Token>, cur: nat, minPriority: nat, n: nat)
    requires cur < |tokens|
    ensures Agrees(TreeWithin(tokens, cur, minPriority, n), ParseTree(tokens, cur, minPriority))
    decreases n
  {
    hide PrimaryWithin, ClimbWithin, ParsePrimary, Climb;
    if n > 0 {
      PrimaryAgrees(tokens, cur, n - 1);
      var first := ParsePrimary(tokens, cur);
      if first.Parsed? {
        ClimbAgrees(tokens, first.next, first.expr, minPriority, n - 1);
      }
    }
  }

  // A depth that is enough for whatever ends.
  lemma {:induction false} PrimaryReached(tokens: seq<Token>, cur: nat, n: nat)
    requires cur < |tokens| && ParsePrimary(tokens, cur) != Endless && n >= 4 * (|tokens| - cur)
    ensures PrimaryWithin(tokens, cur, n) == Some(ParsePrimary(tokens, cur))
    decreases |tokens| - cur, 1
  {
    hide ParseTree, TreeWithin;
    if cur + 1 < |tokens| {
      if tokens[cur].LParen? {
        TreeReached(tokens, cur + 1, 0, n - 1);
      } else if tokens[cur] == Op(NOT) {
        PrimaryReached(tokens, cur + 1, n - 1);
      }
    }
  }

  lemma {:induction false} ClimbReached(tokens: seq<Token>, cur: nat, left: Expr, minPriority: nat, n: nat)
    requires cur < |tokens| && Climb(tokens, cur, left, minPriority) != Endless && n >= 4 * (|tokens| - cur)
    ensures ClimbWithin(tokens, cur, left, minPriority, n) == Some(Climb(tokens, cur, left, minPriority))
    decreases |tokens| - cur, 2
  {
    hide ParseTree, TreeWithin;
    if !Stops(tokens[cur], minPriority) {
      var o := OperatorOf(tokens[cur]).value;
      var at := Next(tokens, cur);
      var isNot := o.IS? && tokens[at].NotWord?;
      var start := if isNot then Next(tokens, at) else at;
      if at == cur {
        LastOperator(tokens, cur, Priority(o) + 1, n - 1);
      } else {
        ClimbUnfold(tokens, cur, left, minPriority);
        TreeReached(tokens, start, Priority(o) + 1, n - 1);
        var right := ParseTree(tokens, start, Priority(o) + 1);
        if right.Parsed? {
          ClimbReached(tokens, right.next, Binary(if isNot then NEQ else o, left, right.expr), minPriority, n - 1);
        }
      }
    }
  }

  lemma LastOperator(tokens: seq<Token>, cur: nat, minPriority: nat, n: nat)
    requires cur + 1 == |tokens| && OperatorOf(tokens[cur]).Some? && tokens[cur] != Op(NOT) && n >= 3
    ensures TreeWithin(tokens, cur, minPriority, n) == Some(Error)
  {
  }

  lemma {:induction false} TreeReached(tokens: seq<Token>, cur: nat, minPriority: nat, n: nat)
    requires cur < |tokens| && ParseTree(tokens, cur, minPriority) != Endless && n > 4 * (|tokens| - cur)
    ensures TreeWithin(tokens, cur, minPriority, n) == Some(ParseTree(tokens, cur, minPriority))
    decreases |tokens| - cur, 3
  {
    hide PrimaryWithin, ClimbWithin, ParsePrimary, Climb;
    PrimaryReached(tokens, cur, n - 1);
    var first := ParsePrimary(tokens, cur);
    if first.Parsed? {
      ClimbReached(tokens, first.next, first.expr, minPriority, n - 1);
    }
  }

  // The calls return, with what ParseTree says, at every depth above a bound linear in the tokens left; or
  // they return at no depth at all, and that is so exactly when the scan says so.
  lemma EndlessIsEndless(tokens: seq<Token>, cur: nat, minPriority: nat, n: nat)
    requires cur < |tokens|
    ensures ScanOperand(tokens, cur, minPriority) ==> TreeWithin(tokens, cur, minPriority, n) == None
    ensures !ScanOperand(tokens, cur, minPriority) && n > 4 * (|tokens| - cur) ==>
              TreeWithin(tokens, cur, minPriority, n) == Some(ParseTree(tokens, cur, minPriority))
    ensures TreeWithin(tokens, cur, minPriority, n).Some? ==>
              TreeWithin(tokens, cur, minPriority, n).value == ParseTree(tokens, cur, minPriority) != Endless
  {
    EndlessExactly(tokens, cur, minPriority);
    TreeAgrees(tokens, cur, minPriority, n);
    if !ScanOperand(tokens, cur, minPriority) && n > 4 * (|tokens| - cur) {
      TreeReached(tokens, cur, minPriority, n);
    }
  }

  // ---- The tokens consumed ----

  ghost predicate Plain(tokens: seq<Token>) {
    forall i | 0 <= i < |tokens| :: !tokens[i].LParen?
  }

  // How an operator of a tree may have been written.
  predicate Spelling(o: SqlOperator, ts: seq<Token>) {
    || ts == [Op(o)]
    || (o == IS && ts == [IsWord])
    || (o == NEQ && (ts == [IsWord, NotWord] || ts == [Op(IS), NotWord]))
  }

  // The tokens of a tree from left to right.
  ghost predicate InOrder(e: Expr, ts: seq<Token>) {
    match e
    case Leaf(token) => ts == [token] && IsLeaf(token)
    case Binary(o, left, right) =>
      exists i, j :: 0 <= i <= j <= |ts| && InOrder(left, ts[..i]) && Spelling(o, ts[i..j]) && InOrder(right, ts[j..])
    case Negation(right) => ts != [] && ts[0] == Op(NOT) && InOrder(right, ts[1..])
  }

  // The cursor after the tokens up to end: there, or stuck on the last one, which is then a leaf.
  ghost predicate Stands(tokens: seq<Token>, cur: nat, end: nat) {
    && cur < |tokens| && end <= |tokens|
    && (if end < |tokens| then cur == end else cur == |tokens| - 1 && IsLeaf(tokens[cur]))
  }

  lemma InOrderJoin(o: SqlOperator, left: Expr, right: Expr, a: seq<Token>, b: seq<Token>, c: seq<Token>)
    requires InOrder(left, a) && Spelling(o, b) && InOrder(right, c)
    ensures InOrder(Binary(o, left, right), a + b + c)
  {
    var ts, i, j := a + b + c, |a|, |a| + |b|;
    assert ts[..i] == a && ts[i..j] == b && ts[j..] == c;
  }

  // From any cursor, the tree's tokens in order are exactly the tokens consumed.
  lemma {:induction false} TreeConsumes(tokens: seq<Token>, cur: nat, minPriority: nat) returns (end: nat)
    requires cur < |tokens| && Plain(tokens) && ParseTree(tokens, cur, minPriority).Parsed?
    ensures var r := ParseTree(tokens, cur, minPriority);
      cur < end <= |tokens| && Stands(tokens, r.next, end) && InOrder(r.expr, tokens[cur..end])
    decreases |tokens| - cur, 3
  {
    end := PrimaryConsumes(tokens, cur);
    var first := ParsePrimary(tokens, cur);
    end := ClimbConsumes(tokens, first.next, first.expr, minPriority, cur, end);
  }

  lemma {:induction false} PrimaryConsumes(tokens: seq<Token>, cur: nat) returns (end: nat)
    requires cur < |tokens| && Plain(tokens) && ParsePrimary(tokens, cur).Parsed?
    ensures var r := ParsePrimary(tokens, cur);
      cur < end <= |tokens| && Stands(tokens, r.next, end) && InOrder(r.expr, tokens[cur..end])
    decreases |tokens| - cur, 1
  {
    hide ParseTree;
    if tokens[cur] == Op(NOT) {
      end := PrimaryConsumes(tokens, cur + 1);
      assert tokens[cur..end] == [tokens[cur]] + tokens[cur + 1..end];
      assert tokens[cur..end][1..] == tokens[cur + 1..end];
    } else {
      end := cur + 1;
      assert tokens[cur..end] == [tokens[cur]];
    }
  }

  // One turn of the loop, when parsing succeeds.
  lemma ClimbTurn(tokens: seq<Token>, cur: nat, left: Expr, minPriority: nat) returns (op: SqlOperator, start: nat, right: Outcome)
    requires cur < |tokens| && !Stops(tokens[cur], minPriority) && Climb(tokens, cur, left, minPriority).Parsed?
    ensures cur < start < |tokens| && right.Parsed? && start <= right.next < |tokens|
    ensures right == ParseTree(tokens, start, Priority(OperatorOf(tokens[cur]).value) + 1)
    ensures Climb(tokens, cur, left, minPriority) == Climb(tokens, right.next, Binary(op, left, right.expr), minPriority)
    ensures if start == cur + 2 then op == NEQ && OperatorOf(tokens[cur]) == Some(IS) && tokens[cur + 1] == NotWord
            else start == cur + 1 && op == OperatorOf(tokens[cur]).value
    ensures Priority(op) == Priority(OperatorOf(tokens[cur]).value)
  {
    hide ParseTree;
    var o := OperatorOf(tokens[cur]).value;
    var isNot := o.IS? && tokens[cur + 1].NotWord?;
    start := if isNot then cur + 2 else cur + 1;
    op := if isNot then NEQ else o;
    right := ParseTree(tokens, start, Priority(o) + 1);
  }

  lemma {:induction false} ClimbConsumes(tokens: seq<Token>, cur: nat, left: Expr, minPriority: nat, from: nat, upTo: nat)
    returns (end: nat)
    requires Plain(tokens) && Stands(tokens, cur, upTo) && from < upTo && InOrder(left, tokens[from..upTo])
    requires Climb(tokens, cur, left, minPriority).Parsed?
    ensures var r := Climb(tokens, cur, left, minPriority);
      from < end <= |tokens| && Stands(tokens, r.next, end) && InOrder(r.expr, tokens[from..end])
    decreases |tokens| - cur, 2
  {
    hide InOrder, ParseTree, Plain;
    end := upTo;
    if !Stops(tokens[cur], minPriority) {
      var op, start, right := ClimbTurn(tokens, cur, left, minPriority);
      var p := Priority(OperatorOf(tokens[cur]).value);
      var after := TreeConsumes(tokens, start, p + 1);
      JoinedTokens(tokens, from, cur, start, after, op, left, right.expr);
      end := ClimbConsumes(tokens, right.next, Binary(op, left, right.expr), minPriority, from, after);
    }
  }

  lemma JoinedTokens(tokens: seq<Token>, from: nat, cur: nat, start: nat, after: nat, op: SqlOperator, left: Expr, right: Expr)
    requires from <= cur < start <= after <= |tokens| && OperatorOf(tokens[cur]).Some?
    requires if start == cur + 2 then op == NEQ && OperatorOf(tokens[cur]) == Some(IS) && tokens[cur + 1] == NotWord
             else start == cur + 1 && op == OperatorOf(tokens[cur]).value
    requires InOrder(left, tokens[from..cur]) && InOrder(right, tokens[start..after])
    ensures InOrder(Binary(op, left, right), tokens[from..after])
  {
    hide InOrder, Spelling;
    SpellingAt(tokens, cur, start, op);
    InOrderJoin(op, left, right, tokens[from..cur], tokens[cur..start], tokens[start..after]);
    assert tokens[from..cur] + tokens[cur..start] + tokens[start..after] == tokens[from..after];
  }

  lemma SpellingAt(tokens: seq<Token>, cur: nat, start: nat, op: SqlOperator)
    requires cur < start <= |tokens| && OperatorOf(tokens[cur]).Some?
    requires if start == cur + 2 then op == NEQ && OperatorOf(tokens[cur]) == Some(IS) && tokens[cur + 1] == NotWord
             else start == cur + 1 && op == OperatorOf(tokens[cur]).value
    ensures Spelling(op, tokens[cur..start])
  {
    if start == cur + 2 {
      assert tokens[cur..start] == [tokens[cur], tokens[cur + 1]];
    } else {
      assert tokens[cur..start] == [tokens[cur]];
    }
  }

  // ---- The shape of parsed trees ----

  // Operators bind by priority and to the left: a right operand binds tighter than its parent. A negated
  // operand has no operator of its own.
  predicate Canonical(e: Expr, minPriority: nat) {
    match e
    case Leaf(token) => IsLeaf(token)
    case Binary(o, left, right) =>
      && OperatorOf(Op(o)) == Some(o)
      && Priority(o) >= minPriority && Canonical(left, Priority(o)) && Canonical(right, Priority(o) + 1)
    case Negation(right) => !right.Binary? && Canonical(right, 5)
  }

  // The priority above which an operator may not follow a tree as part of it.
  function Binding(e: Expr): nat {
    if e.Binary? then Priority(e.op) + 1 else 5
  }

  lemma {:induction false} CanonicalWeaken(e: Expr, a: nat, b: nat)
    requires Canonical(e, a) && b <= a
    ensures Canonical(e, b)
  {
  }

  lemma {:induction false} ClimbStops(tokens: seq<Token>, cur: nat, left: Expr, minPriority: nat)
    requires cur < |tokens| && Climb(tokens, cur, left, minPriority).Parsed?
    ensures Stops(tokens[Climb(tokens, cur, left, minPriority).next], minPriority)
    decreases |tokens| - cur
  {
    hide ParseTree;
    if !Stops(tokens[cur], minPriority) {
      var op, start, right := ClimbTurn(tokens, cur, left, minPriority);
      ClimbStops(tokens, right.next, Binary(op, left, right.expr), minPriority);
    }
  }

  lemma TreeStops(tokens: seq<Token>, cur: nat, minPriority: nat)
    requires cur < |tokens| && ParseTree(tokens, cur, minPriority).Parsed?
    ensures Stops(tokens[ParseTree(tokens, cur, minPriority).next], minPriority)
  {
    hide ParsePrimary, Climb;
    var first := ParsePrimary(tokens, cur);
    ClimbStops(tokens, first.next, first.expr, minPriority);
  }

  // Every parsed tree is canonical.
  lemma {:induction false} TreeCanonical(tokens: seq<Token>, cur: nat, minPriority: nat)
    requires cur < |tokens| && Plain(tokens) && ParseTree(tokens, cur, minPriority).Parsed?
    ensures Canonical(ParseTree(tokens, cur, minPriority).expr, minPriority)
    decreases |tokens| - cur, 3
  {
    var first := ParsePrimary(tokens, cur);
    PrimaryCanonical(tokens, cur, minPriority);
    ClimbCanonical(tokens, first.next, first.expr, minPriority);
  }

  lemma {:induction false} PrimaryCanonical(tokens: seq<Token>, cur: nat, minPriority: nat)
    requires cur < |tokens| && Plain(tokens) && ParsePrimary(tokens, cur).Parsed?
    ensures var e := ParsePrimary(tokens, cur).expr; !e.Binary? && Canonical(e, minPriority)
    decreases |tokens| - cur, 1
  {
    hide ParseTree;
    if tokens[cur] == Op(NOT) {
      PrimaryCanonical(tokens, cur + 1, 5);
    }
  }

  lemma {:induction false} ClimbCanonical(tokens: seq<Token>, cur: nat, left: Expr, minPriority: nat)
    requires cur < |tokens| && Plain(tokens) && Climb(tokens, cur, left, minPriority).Parsed?
    requires Canonical(left, minPriority) && Stops(tokens[cur], Binding(left))
    ensures Canonical(Climb(tokens, cur, left, minPriority).expr, minPriority)
    decreases |tokens| - cur, 2
  {
    if !Stops(tokens[cur], minPriority) {
      var op, start, right := ClimbTurn(tokens, cur, left, minPriority);
      var p := Priority(op);
      TreeCanonical(tokens, start, p + 1);
      var first := ParsePrimary(tokens, start);
      ClimbStops(tokens, first.next, first.expr, p + 1);
      LeftCanonical(left, minPriority, p);
      ClimbCanonical(tokens, right.next, Binary(op, left, right.expr), minPriority);
    }
  }

  lemma LeftCanonical(left: Expr, minPriority: nat, p: nat)
    requires Canonical(left, minPriority) && p < Binding(left)
    ensures Canonical(left, p)
  {
  }

  // ---- Printing and parsing back ----

  function SpellOp(o: SqlOperator): Token {
    if o == IS then IsWord else Op(o)
  }

  // A tree without parentheses; NEQ is printed as its own operator, NOT before or between operands.
  function Print(e: Expr): (ts: seq<Token>)
    ensures |ts| > 0
  {
    match e
    case Leaf(token) => [token]
    case Binary(o, left, right) => Print(left) + [SpellOp(o)] + Print(right)
    case Negation(right) => [Op(NOT)] + Print(right)
  }

  lemma {:induction false} PrintEnds(e: Expr, p: nat)
    requires Canonical(e, p)
    ensures (IsLeaf(Print(e)[0]) || Print(e)[0] == Op(NOT)) && IsLeaf(Print(e)[|Print(e)| - 1])
  {
    if e.Binary? {
      PrintEnds(e.left, Priority(e.op));
      PrintEnds(e.right, Priority(e.op) + 1);
    } else if e.Negation? {
      PrintEnds(e.right, 5);
    }
  }

  // The tokens from..to are the printed tree.
  ghost predicate Holds(tokens: seq<Token>, from: nat, e: Expr) {
    from + |Print(e)| <= |tokens| && tokens[from..from + |Print(e)|] == Print(e)
  }

  // Where the cursor is after the printed tree.
  function After(tokens: seq<Token>, end: nat): nat
    requires 0 < end <= |tokens|
  {
    if end < |tokens| then end else end - 1
  }

  ghost predicate Follows(tokens: seq<Token>, end: nat, minPriority: nat)
    requires end <= |tokens|
  {
    end < |tokens| ==> Stops(tokens[end], minPriority)
  }

  // Parsing from the start of a printed canonical tree builds that tree on the way, whatever the
  // priority asked for, provided that nothing following binds tighter than its last operand.
  lemma {:induction false} ParsesAlong(tokens: seq<Token>, from: nat, e: Expr, minPriority: nat)
    requires Holds(tokens, from, e) && Canonical(e, minPriority)
    requires Follows(tokens, from + |Print(e)|, Binding(e))
    ensures ParseTree(tokens, from, minPriority) == Climb(tokens, After(tokens, from + |Print(e)|), e, minPriority)
    decreases e
  {
    hide *;
    match e
    case Leaf(_) => OperandAlong(tokens, from, e, minPriority);
    case Negation(_) => OperandAlong(tokens, from, e, minPriority);
    case Binary(op, left, right) =>
      var p := Priority(op);
      var mid := from + |Print(left)|;
      var end := from + |Print(e)|;
      CanonicalParts(e, minPriority);
      PrintedParts(tokens, from, e);
      CanonicalWeaken(left, p, minPriority);
      ParsesAlong(tokens, from, left, minPriority);
      ParsesAlong(tokens, mid + 1, right, p + 1);
      PrintEnds(right, p + 1);
      LastPrinted(tokens, mid + 1, right);
      RightStops(tokens, end, right, p + 1);
      AfterInside(tokens, mid, end);
      TakesOperator(tokens, mid, e, minPriority, After(tokens, end));
  }

  lemma OperandAlong(tokens: seq<Token>, from: nat, e: Expr, minPriority: nat)
    requires !e.Binary? && Holds(tokens, from, e) && Canonical(e, minPriority)
    ensures from + |Print(e)| <= |tokens|
    ensures ParseTree(tokens, from, minPriority) == Climb(tokens, After(tokens, from + |Print(e)|), e, minPriority)
  {
    hide Climb, Print, Canonical;
    PrimaryAlong(tokens, from, e, minPriority);
  }

  lemma {:induction false} PrimaryAlong(tokens: seq<Token>, from: nat, e: Expr, p: nat)
    requires !e.Binary? && Holds(tokens, from, e) && Canonical(e, p)
    ensures from < from + |Print(e)| <= |tokens|
    ensures ParsePrimary(tokens, from) == Parsed(e, After(tokens, from + |Print(e)|))
    decreases e
  {
    hide ParseTree;
    assert tokens[from] == tokens[from..from + |Print(e)|][0];
    if e.Negation? {
      var ts := tokens[from..from + |Print(e)|];
      assert ts[1..] == Print(e.right);
      assert tokens[from + 1..from + 1 + |Print(e.right)|] == ts[1..];
      PrimaryAlong(tokens, from + 1, e.right, 5);
    }
  }

  lemma AfterInside(tokens: seq<Token>, mid: nat, end: nat)
    requires 0 < mid < mid + 1 < end <= |tokens|
    ensures After(tokens, mid) == mid && mid < After(tokens, end) < |tokens|
  {
  }

  lemma LastPrinted(tokens: seq<Token>, from: nat, e: Expr)
    requires Holds(tokens, from, e)
    ensures tokens[from + |Print(e)| - 1] == Print(e)[|Print(e)| - 1]
  {
    assert tokens[from..from + |Print(e)|][|Print(e)| - 1] == Print(e)[|Print(e)| - 1];
  }

  // At the operator of a printed tree, with its left operand built, the loop builds the whole tree.
  lemma TakesOperator(tokens: seq<Token>, mid: nat, e: Expr, minPriority: nat, after: nat)
    requires e.Binary? && Canonical(e, minPriority) && mid + 1 < |tokens| && tokens[mid] == SpellOp(e.op)
    requires !tokens[mid + 1].NotWord?
    requires after < |tokens| && after > mid && ParseTree(tokens, mid + 1, Priority(e.op) + 1) == Parsed(e.right, after)
    ensures Climb(tokens, mid, e.left, minPriority) == Climb(tokens, after, e, minPriority)
  {
    hide ParseTree;
    assert OperatorOf(SpellOp(e.op)) == Some(e.op);
  }

  lemma PrintBinary(e: Expr)
    requires e.Binary?
    ensures Print(e) == Print(e.left) + [SpellOp(e.op)] + Print(e.right)
  {
  }

  lemma CanonicalParts(e: Expr, minPriority: nat)
    requires e.Binary? && Canonical(e, minPriority)
    ensures var p := Priority(e.op);
      && minPriority <= p && Canonical(e.left, p) && Canonical(e.right, p + 1) && Canonical(e, p)
      && OperatorOf(SpellOp(e.op)) == Some(e.op)
  {
  }

  lemma PrintedParts(tokens: seq<Token>, from: nat, e: Expr)
    requires e.Binary? && Holds(tokens, from, e) && Canonical(e, Priority(e.op))
    ensures var mid := from + |Print(e.left)|;
      && mid + 1 + |Print(e.right)| == from + |Print(e)| <= |tokens|
      && Holds(tokens, from, e.left) && Holds(tokens, mid + 1, e.right)
      && tokens[mid] == SpellOp(e.op) && !tokens[mid + 1].NotWord?
      && Follows(tokens, mid, Binding(e.left))
      && (Follows(tokens, from + |Print(e)|, Binding(e)) ==>
            && Follows(tokens, from + |Print(e)|, Binding(e.right))
            && Follows(tokens, from + |Print(e)|, Priority(e.op) + 1))
  {
    hide Print, Canonical, OperatorOf, Priority, Binding, SpellOp;
    CanonicalParts(e, Priority(e.op));
    PrintBinary(e);
    PrintEnds(e.right, Priority(e.op) + 1);
    Slices(tokens, from, Print(e.left), SpellOp(e.op), Print(e.right));
    BindingBounds(e);
  }

  lemma BindingBounds(e: Expr)
    requires e.Binary? && Canonical(e, Priority(e.op))
    ensures Binding(e.left) > Priority(e.op) && Binding(e.right) >= Binding(e) == Priority(e.op) + 1
  {
  }

  lemma Slices(tokens: seq<Token>, from: nat, a: seq<Token>, x: Token, b: seq<Token>)
    requires from + |a| + 1 + |b| <= |tokens| && tokens[from..from + |a| + 1 + |b|] == a + [x] + b
    ensures var mid := from + |a|;
      tokens[from..mid] == a && tokens[mid] == x && tokens[mid + 1..mid + 1 + |b|] == b && (b != [] ==> tokens[mid + 1] == b[0])
  {
    var ts := tokens[from..from + |a| + 1 + |b|];
    assert ts[..|a|] == a && ts[|a| + 1..] == b && ts[|a|] == x;
    assert b != [] ==> ts[|a| + 1] == b[0];
  }

  // The loop for the right operand ends right behind it.
  lemma RightStops(tokens: seq<Token>, end: nat, right: Expr, minPriority: nat)
    requires 0 < end <= |tokens| && Follows(tokens, end, minPriority) && IsLeaf(tokens[end - 1])
    ensures Climb(tokens, After(tokens, end), right, minPriority) == Parsed(right, After(tokens, end))
  {
  }

  // Parsing the printed form of a canonical tree returns that tree and consumes exactly its tokens.
  lemma ParsePrint(before: seq<Token>, e: Expr, rest: seq<Token>, minPriority: nat)
    requires Canonical(e, minPriority) && minPriority <= 4 && (rest != [] ==> Stops(rest[0], minPriority))
    ensures var tokens := before + Print(e) + rest;
      ParseTree(tokens, |before|, minPriority) == Parsed(e, After(tokens, |before| + |Print(e)|))
  {
    hide ParseTree, Climb, Canonical, Print;
    var tokens := before + Print(e) + rest;
    var end := |before| + |Print(e)|;
    assert tokens[|before|..end] == Print(e);
    assert rest != [] ==> tokens[end] == rest[0];
    FollowsBinding(e, minPriority);
    PrintEnds(e, minPriority);
    assert tokens[end - 1] == Print(e)[|Print(e)| - 1];
    ParsesAlong(tokens, |before|, e, minPriority);
    RightStops(tokens, end, e, minPriority);
  }

  lemma FollowsBinding(e: Expr, minPriority: nat)
    requires Canonical(e, minPriority) && minPriority <= 4
    ensures Binding(e) >= minPriority
  {
  }

  // ---- The layers of an expression ----

  // OR binds loosest, then AND, then NOT between operands, then the comparisons; each layer is a chain of
  // the next one, nested to the left.
  predicate Disjunction(e: Expr) {
    Conjunction(e) || (e.Binary? && e.op == OR && Disjunction(e.left) && Conjunction(e.right))
  }

  predicate Conjunction(e: Expr) {
    NotChain(e) || (e.Binary? && e.op == AND && Conjunction(e.left) && NotChain(e.right))
  }

  predicate NotChain(e: Expr) {
    Comparison(e) || (e.Binary? && e.op == NOT && NotChain(e.left) && Comparison(e.right))
  }

  predicate Comparison(e: Expr) {
    || Operand(e)
    || (e.Binary? && e.op in {EQ, NEQ, GR, GRE, LT, LTE, IS, ASSIGN} && Comparison(e.left) && Operand(e.right))
  }

  predicate Operand(e: Expr) {
    match e
    case Leaf(token) => token.NullWord? || token.Lit? || token.Ident?
    case Negation(right) => Operand(right)
    case Binary(_, _, _) => false
  }

  lemma {:induction false} OperandLayer(e: Expr, p: nat)
    requires p > 4
    ensures Operand(e) <==> Canonical(e, p)
    decreases e
  {
    if e.Negation? {
      OperandLayer(e.right, 5);
    }
  }

  lemma {:induction false} ComparisonLayer(e: Expr)
    ensures Comparison(e) <==> Canonical(e, 4)
    decreases e
  {
    OperandLayer(e, 5);
    if e.Binary? {
      OperandLayer(e.right, 5);
      ComparisonLayer(e.left);
    } else {
      NonBinary(e, 4);
    }
  }

  // A tree without an operator on top is canonical at every priority, or at none.
  lemma NonBinary(e: Expr, p: nat)
    requires !e.Binary?
    ensures Canonical(e, p) <==> Canonical(e, 5)
  {
  }

  lemma {:induction false} NotLayer(e: Expr)
    ensures NotChain(e) <==> Canonical(e, 3)
    decreases e
  {
    hide Comparison, Operand;
    ComparisonLayer(e);
    if e.Binary? {
      ComparisonLayer(e.right);
      NotLayer(e.left);
    } else {
      NonBinary(e, 3);
      NonBinary(e, 4);
    }
  }

  lemma {:induction false} AndLayer(e: Expr)
    ensures Conjunction(e) <==> Canonical(e, 2)
    decreases e
  {
    hide NotChain;
    NotLayer(e);
    if e.Binary? {
      NotLayer(e.right);
      AndLayer(e.left);
    } else {
      NonBinary(e, 2);
      NonBinary(e, 3);
    }
  }

  lemma {:induction false} OrLayer(e: Expr, p: nat)
    requires p <= 1
    ensures Disjunction(e) <==> Canonical(e, p)
    decreases e
  {
    hide Conjunction;
    AndLayer(e);
    if e.Binary? {
      AndLayer(e.right);
      OrLayer(e.left, 1);
    } else {
      NonBinary(e, p);
      NonBinary(e, 2);
    }
  }

  // What parsing returns for tokens without parentheses is layered so, and every layered tree is what
  // parsing its own tokens returns.
  lemma ParsedLayered(tokens: seq<Token>, cur: nat)
    requires cur < |tokens| && Plain(tokens) && ParseTree(tokens, cur, 0).Parsed?
    ensures Disjunction(ParseTree(tokens, cur, 0).expr)
  {
    TreeCanonical(tokens, cur, 0);
    OrLayer(ParseTree(tokens, cur, 0).expr, 0);
  }

  lemma LayeredParsed(e: Expr)
    requires Disjunction(e)
    ensures ParseTree(Print(e), 0, 0) == Parsed(e, |Print(e)| - 1)
  {
    hide ParseTree, Canonical, Print, Disjunction;
    OrLayer(e, 0);
    ParsePrint([], e, [], 0);
    assert [] + Print(e) + [] == Print(e);
  }

  // AND binds tighter than OR on either side, chains nest to the left, and comparisons bind tighter still.
  lemma MixedChains(x: Expr, y: Expr, z: Expr)
    requires Comparison(x) && Comparison(y) && Comparison(z)
    ensures var or, and := [Op(OR)], [Op(AND)];
      && ParsesTo(Print(x) + or + Print(y) + and + Print(z), Binary(OR, x, Binary(AND, y, z)))
      && ParsesTo(Print(x) + and + Print(y) + or + Print(z), Binary(OR, Binary(AND, x, y), z))
      && ParsesTo(Print(x) + or + Print(y) + or + Print(z), Binary(OR, Binary(OR, x, y), z))
      && ParsesTo(Print(x) + and + Print(y) + and + Print(z), Binary(AND, Binary(AND, x, y), z))
  {
    hide *;
    ComparisonsLayered(x, y, z);
    RightChain(OR, AND, x, y, z);
    LeftChain(AND, OR, x, y, z);
    LeftChain(OR, OR, x, y, z);
    LeftChain(AND, AND, x, y, z);
  }

  ghost predicate ParsesTo(tokens: seq<Token>, e: Expr)
    requires tokens != []
  {
    ParseTree(tokens, 0, 0) == Parsed(e, |tokens| - 1)
  }

  // A tree of one layer is one of every looser layer.
  lemma LooserLayers(x: Expr)
    ensures Comparison(x) ==> NotChain(x)
    ensures NotChain(x) ==> Conjunction(x)
    ensures Conjunction(x) ==> Disjunction(x)
  {
  }

  lemma ComparisonsLayered(x: Expr, y: Expr, z: Expr)
    requires Comparison(x) && Comparison(y) && Comparison(z)
    ensures Disjunction(Binary(OR, x, Binary(AND, y, z))) && Disjunction(Binary(OR, Binary(AND, x, y), z))
    ensures Disjunction(Binary(OR, Binary(OR, x, y), z)) && Disjunction(Binary(AND, Binary(AND, x, y), z))
  {
    hide Comparison;
    LooserLayers(x);
    LooserLayers(y);
    LooserLayers(z);
    LooserLayers(Binary(AND, y, z));
    LooserLayers(Binary(AND, x, y));
    LooserLayers(Binary(OR, x, y));
    LooserLayers(Binary(AND, Binary(AND, x, y), z));
  }

  lemma LeftChain(o: SqlOperator, p: SqlOperator, x: Expr, y: Expr, z: Expr)
    requires o in {OR, AND} && p in {OR, AND} && Disjunction(Binary(p, Binary(o, x, y), z))
    ensures ParsesTo(Print(x) + [Op(o)] + Print(y) + [Op(p)] + Print(z), Binary(p, Binary(o, x, y), z))
  {
    hide Print, Disjunction, ParseTree, OperatorOf, Priority;
    var e := Binary(p, Binary(o, x, y), z);
    LayeredParsed(e);
    PrintBinary(e);
    PrintBinary(e.left);
  }

  lemma RightChain(o: SqlOperator, p: SqlOperator, x: Expr, y: Expr, z: Expr)
    requires o in {OR, AND} && p in {OR, AND} && Disjunction(Binary(o, x, Binary(p, y, z)))
    ensures ParsesTo(Print(x) + [Op(o)] + Print(y) + [Op(p)] + Print(z), Binary(o, x, Binary(p, y, z)))
  {
    hide Print, Disjunction, ParseTree, OperatorOf, Priority;
    var e := Binary(o, x, Binary(p, y, z));
    LayeredParsed(e);
    PrintBinary(e);
    PrintBinary(e.right);
    Regrouped(Print(x) + [Op(o)], Print(y), [Op(p)], Print(z));
  }

  lemma Regrouped(a: seq<Token>, b: seq<Token>, c: seq<Token>, d: seq<Token>)
    ensures a + (b + c + d) == a + b + c + d
  {
  }

  // Two operators in a row of operands: the looser one is on top, and of two alike the later one.
  lemma TwoOperators(a: Token, b: Token, c: Token)
    requires IsLeaf(a) && IsLeaf(b) && IsLeaf(c)
    ensures ParsesTo([a, Op(EQ), b, Op(AND), c], Binary(AND, Binary(EQ, Leaf(a), Leaf(b)), Leaf(c)))
    ensures ParsesTo([a, Op(AND), b, Op(GR), c], Binary(AND, Leaf(a), Binary(GR, Leaf(b), Leaf(c))))
    ensures ParsesTo([a, Op(AND), b, Op(NOT), c], Binary(AND, Leaf(a), Binary(NOT, Leaf(b), Leaf(c))))
    ensures ParsesTo([a, Op(NOT), b, Op(LT), c], Binary(NOT, Leaf(a), Binary(LT, Leaf(b), Leaf(c))))
    ensures ParsesTo([a, Op(EQ), b, Op(NEQ), c], Binary(NEQ, Binary(EQ, Leaf(a), Leaf(b)), Leaf(c)))
    ensures ParsesTo([Op(NOT), a, Op(EQ), b], Binary(EQ, Negation(Leaf(a)), Leaf(b)))
  {
    hide ParseTree, Print, Disjunction, Conjunction, NotChain, Comparison;
    var x, y, z := Leaf(a), Leaf(b), Leaf(c);
    LeafLayers(a);
    LeafLayers(b);
    LeafLayers(c);
    OneComparison(EQ, x, y);
    OneComparison(GR, y, z);
    OneComparison(LT, y, z);
    OneComparison(NEQ, Binary(EQ, x, y), z);
    OneNot(y, z);
    OneNot(x, Binary(LT, y, z));
    OneAnd(Binary(EQ, x, y), z);
    OneAnd(x, Binary(GR, y, z));
    OneAnd(x, Binary(NOT, y, z));
    OneComparison(EQ, Negation(x), y);
    LeftParses(a, EQ, b, AND, c);
    RightParses(a, AND, b, GR, c);
    RightParses(a, AND, b, NOT, c);
    RightParses(a, NOT, b, LT, c);
    LeftParses(a, EQ, b, NEQ, c);
    NegatedParses(a, EQ, b);
  }

  lemma LeafLayers(a: Token)
    requires IsLeaf(a)
    ensures Operand(Leaf(a)) && Operand(Negation(Leaf(a)))
    ensures forall x | x in {Leaf(a), Negation(Leaf(a))} :: Comparison(x) && NotChain(x) && Conjunction(x) && Disjunction(x)
  {
    LooserLayers(Leaf(a));
    LooserLayers(Negation(Leaf(a)));
  }

  lemma OneComparison(o: SqlOperator, x: Expr, y: Expr)
    requires Comparison(x) && Operand(y) && o in {EQ, NEQ, GR, LT}
    ensures var e := Binary(o, x, y); Comparison(e) && NotChain(e) && Conjunction(e) && Disjunction(e)
  {
    LooserLayers(Binary(o, x, y));
  }

  lemma OneNot(x: Expr, y: Expr)
    requires NotChain(x) && Comparison(y)
    ensures var e := Binary(NOT, x, y); NotChain(e) && Conjunction(e) && Disjunction(e)
  {
    hide Comparison;
    LooserLayers(Binary(NOT, x, y));
  }

  lemma OneAnd(x: Expr, y: Expr)
    requires Conjunction(x) && NotChain(y)
    ensures var e := Binary(AND, x, y); Conjunction(e) && Disjunction(e)
  {
    hide NotChain;
    LooserLayers(Binary(AND, x, y));
  }

  lemma LeftParses(a: Token, o: SqlOperator, b: Token, p: SqlOperator, c: Token)
    requires o != IS && p != IS && Disjunction(Binary(p, Binary(o, Leaf(a), Leaf(b)), Leaf(c)))
    ensures ParsesTo([a, Op(o), b, Op(p), c], Binary(p, Binary(o, Leaf(a), Leaf(b)), Leaf(c)))
  {
    hide ParseTree, Disjunction, Print;
    var e := Binary(p, Binary(o, Leaf(a), Leaf(b)), Leaf(c));
    LayeredParsed(e);
    PrintBinary(e);
    PrintLeaves(o, a, b);
    PrintLeaf(c);
    assert [a, Op(o), b] + [Op(p)] + [c] == [a, Op(o), b, Op(p), c];
  }

  lemma RightParses(a: Token, o: SqlOperator, b: Token, p: SqlOperator, c: Token)
    requires o != IS && p != IS && Disjunction(Binary(o, Leaf(a), Binary(p, Leaf(b), Leaf(c))))
    ensures ParsesTo([a, Op(o), b, Op(p), c], Binary(o, Leaf(a), Binary(p, Leaf(b), Leaf(c))))
  {
    hide ParseTree, Disjunction, Print;
    var e := Binary(o, Leaf(a), Binary(p, Leaf(b), Leaf(c)));
    LayeredParsed(e);
    PrintBinary(e);
    PrintLeaves(p, b, c);
    PrintLeaf(a);
    assert [a] + [Op(o)] + [b, Op(p), c] == [a, Op(o), b, Op(p), c];
  }

  lemma PrintLeaf(a: Token)
    ensures Print(Leaf(a)) == [a]
  {
  }

  lemma PrintNegated(a: Token)
    ensures Print(Negation(Leaf(a))) == [Op(NOT), a]
  {
    assert Print(Leaf(a)) == [a];
  }

  lemma PrintLeaves(o: SqlOperator, a: Token, b: Token)
    requires o != IS
    ensures Print(Binary(o, Leaf(a), Leaf(b))) == [a, Op(o), b]
  {
    hide Print;
    PrintBinary(Binary(o, Leaf(a), Leaf(b)));
    PrintLeaf(a);
    PrintLeaf(b);
  }

  lemma NegatedParses(a: Token, o: SqlOperator, b: Token)
    requires o != IS && Disjunction(Binary(o, Negation(Leaf(a)), Leaf(b)))
    ensures ParsesTo([Op(NOT), a, Op(o), b], Binary(o, Negation(Leaf(a)), Leaf(b)))
  {
    hide ParseTree, Disjunction, Print;
    var e := Binary(o, Negation(Leaf(a)), Leaf(b));
    LayeredParsed(e);
    PrintBinary(e);
    PrintNegated(a);
    PrintLeaf(b);
    assert [Op(NOT), a] + [Op(o)] + [b] == [Op(NOT), a, Op(o), b];
  }

  // Two different canonical trees never print alike.
  lemma PrintInjective(e: Expr, f: Expr)
    requires Canonical(e, 0) && Canonical(f, 0) && Print(e) == Print(f)
    ensures e == f
  {
    hide ParseTree, Canonical, Print;
    ParsePrint([], e, [], 0);
    ParsePrint([], f, [], 0);
    assert [] + Print(e) + [] == [] + Print(f) + [];
  }

  // ---- The parser ----

  class SqlParser {
    const tokens: seq<Token>
    var current: nat

    constructor (tokens: seq<Token>)
      ensures this.tokens == tokens && current == 0
    {
      this.tokens := tokens;
      current := 0;
    }

    method Advance() returns (moved: bool)
      requires current < |tokens|
      modifies this
      ensures current == Next(tokens, old(current)) && moved == (current != old(current))
    {
      if current + 1 < |tokens| {
        current := current + 1;
        return true;
      }
      return false;
    }

    // The outcome of parsing an operand, with the cursor left behind it.
    method ParseOperand() returns (r: Outcome)
      requires current < |tokens|
      modifies this
      ensures r == ParsePrimary(tokens, old(current)) && current < |tokens|
      ensures r.Parsed? ==> current == r.next
      decreases |tokens| - current, 1
    {
      ghost var cur := current;
      var token := tokens[current];
      if token.LParen? {
        var moved := Advance();
        if !moved {
          // parse_binary_expr is called again on the same token, and again.
          return Endless;
        }
        r := ParseExpression(0);
        if r.Parsed? && !tokens[current].RParen? {
          return Error;
        }
        return;
      }
      if token == Op(NOT) {
        var moved := Advance();
        if !moved {
          return Endless;
        }
        r := ParseOperand();
        if r.Parsed? {
          r := Parsed(Negation(r.expr), current);
        }
        return;
      }
      if token.NullWord? || token.Lit? || token.Ident? {
        var moved := Advance();
        return Parsed(Leaf(token), current);
      }
      return Error;
    }

    method ParseBinaryTree(minPriority: nat) returns (r: Outcome)
      requires current < |tokens|
      modifies this
      ensures r == ParseTree(tokens, old(current), minPriority) && current < |tokens|
      ensures r.Parsed? ==> current == r.next
      decreases |tokens| - current, 2
    {
      ghost var cur := current;
      r := ParseOperand();
      if !r.Parsed? {
        return;
      }
      while true
        invariant cur <= current < |tokens| && r.Parsed? && r.next == current
        invariant current == cur ==> cur + 1 == |tokens| && IsLeaf(tokens[cur])
        invariant Climb(tokens, current, r.expr, minPriority) == ParseTree(tokens, cur, minPriority)
        decreases |tokens| - current
      {
        var op := OperatorOf(tokens[current]);
        if op == None || Priority(op.value) < minPriority {
          return;
        }
        ghost var at := current;
        var o := op.value;
        var moved := Advance();
        if !moved {
          // The operator is the last token, and the right operand would start with it.
          r := ParseBinaryTree(Priority(o) + 1);
          OperatorOperand(tokens, at, Priority(o) + 1);
          return;
        }
        if o.IS? && tokens[current].NotWord? {
          o := NEQ;
          moved := Advance();
        }
        var right := ParseBinaryTree(Priority(o) + 1);
        ClimbUnfold(tokens, at, r.expr, minPriority);
        if !right.Parsed? {
          return right;
        }
        r := Parsed(Binary(o, r.expr, right.expr), current);
      }
    }

    method ParseExpression(minPriority: nat) returns (r: Outcome)
      requires current < |tokens|
      modifies this
      ensures r == (var t := ParseTree(tokens, old(current), minPriority);
                    if t.Parsed? && t.expr.Leaf? then Error else t)
      ensures current < |tokens| && (r.Parsed? ==> current == r.next)
      ensures minPriority == 0 && Plain(tokens) && r.Parsed? ==> Disjunction(r.expr)
      decreases |tokens| - current, 3
    {
      hide Disjunction, ParseTree;
      ghost var cur := current;
      r := ParseBinaryTree(minPriority);
      if minPriority == 0 && Plain(tokens) && r.Parsed? {
        ParsedLayered(tokens, cur);
      }
      if r.Parsed? && r.expr.Leaf? {
        return Error;
      }
    }
  }

  lemma OperatorOperand(tokens: seq<Token>, cur: nat, minPriority: nat)
    requires cur + 1 == |tokens| && OperatorOf(tokens[cur]).Some?
    ensures ParseTree(tokens, cur, minPriority) == if tokens[cur] == Op(NOT) then Endless else Error
  {
  }

  // What one turn of the loop does when an operator follows.
  lemma ClimbUnfold(tokens: seq<Token>, cur: nat, left: Expr, minPriority: nat)
    requires cur + 1 < |tokens| && !Stops(tokens[cur], minPriority)
    ensures var o := OperatorOf(tokens[cur]).value;
      var isNot := o.IS? && tokens[cur + 1].NotWord?;
      var start := if isNot then Next(tokens, cur + 1) else cur + 1;
      var right := ParseTree(tokens, start, Priority(o) + 1);
      Climb(tokens, cur, left, minPriority) ==
        if right.Parsed? then Climb(tokens, right.next, Binary(if isNot then NEQ else o, left, right.expr), minPriority)
        else right
  {
    hide ParseTree, ParsePrimary;
    var o := OperatorOf(tokens[cur]).value;
    if o.IS? && tokens[cur + 1].NotWord? && cur + 2 == |tokens| {
      NotWordOperand(tokens, cur + 1, Priority(o) + 1);
    }
  }

  lemma NotWordOperand(tokens: seq<Token>, cur: nat, minPriority: nat)
    requires cur < |tokens| && tokens[cur].NotWord?
    ensures ParseTree(tokens, cur, minPriority) == Error
  {
  }
}
