/**
 Data tokens as typed values, with the comparison operators that order index keys.

 REAL values are taken as real numbers, so there is no NaN; CHAR compares as a signed character,
 STRING and untyped bytes compare byte by byte.
 */
module Values {
  import opened Types

  datatype Value =
    | Undefined(raw: seq<Byte>)
    | Null
    | Integer(i: int)
    | Real(r: real)
    | Char(c: int)
    | Bool(b: bool)
    | String(s: seq<Byte>)

  function TypeCode(v: Value): nat {
    match v
    case Undefined(_) => 0
    case Null => 1
    case Integer(_) => 2
    case Real(_) => 3
    case Char(_) => 4
    case Bool(_) => 5
    case String(_) => 6
  }

  predicate BytesLess(a: seq<Byte>, b: seq<Byte>) {
    if b == [] then false
    else if a == [] then true
    else a[0] < b[0] || (a[0] == b[0] && BytesLess(a[1..], b[1..]))
  }

  // operator<
  predicate Less(a: Value, b: Value) {
    if TypeCode(a) != TypeCode(b) then TypeCode(a) < TypeCode(b)
    else match a
      case Undefined(raw) => BytesLess(raw, b.raw)
      case Null => false
      case Integer(i) => i < b.i
      case Real(r) => r < b.r
      case Char(c) => c < b.c
      case Bool(x) => !x && b.b
      case String(s) => BytesLess(s, b.s)
  }

  // operator==
  predicate Equal(a: Value, b: Value) {
    TypeCode(a) == TypeCode(b) &&
    match a
    case Undefined(raw) => raw == b.raw
    case Null => true
    case Integer(i) => i == b.i
    case Real(r) => r == b.r
    case Char(c) => c == b.c
    case Bool(x) => x == b.b
    case String(s) => s == b.s
  }

  // compare_token
  function Compare(a: Value, b: Value): int {
    if Equal(a, b) then 0 else if Less(a, b) then -1 else 1
  }

  predicate Le(a: Value, b: Value) {
    !Less(b, a)
  }

  lemma {:induction false} BytesTotal(a: seq<Byte>, b: seq<Byte>)
    ensures BytesLess(a, b) || BytesLess(b, a) || a == b
    ensures !(BytesLess(a, b) && BytesLess(b, a))
    ensures !BytesLess(a, a)
  {
    if a != [] {
      BytesTotal(a[1..], a[1..]);
      if b != [] {
        BytesTotal(a[1..], b[1..]);
        if a[0] == b[0] && a[1..] == b[1..] {
          assert a == [a[0]] + a[1..] == b;
        }
      }
    }
  }

  lemma {:induction false} BytesTransitive(a: seq<Byte>, b: seq<Byte>, c: seq<Byte>)
    requires BytesLess(a, b) && BytesLess(b, c)
    ensures BytesLess(a, c)
  {
    if a != [] && a[0] == b[0] == c[0] {
      BytesTransitive(a[1..], b[1..], c[1..]);
    }
  }

  // a stands before b in a dictionary: they agree on their first n bytes, and then a ends and b does not, or
  // a has the smaller byte.
  ghost predicate Precedes(a: seq<Byte>, b: seq<Byte>) {
    exists n :: PrecedesAt(a, b, n)
  }

  predicate PrecedesAt(a: seq<Byte>, b: seq<Byte>, n: nat) {
    n <= |a| && n <= |b| && a[..n] == b[..n] && (n == |a| < |b| || (n < |a| && n < |b| && a[n] < b[n]))
  }

  lemma {:induction false} BytesLessIs(a: seq<Byte>, b: seq<Byte>)
    ensures BytesLess(a, b) <==>
            exists n: nat :: && n <= |a| && n <= |b| && a[..n] == b[..n]
                             && (n == |a| < |b| || (n < |a| && n < |b| && a[n] < b[n]))
    ensures BytesLess(a, b) <==> Precedes(a, b)
  {
    if a != [] && b != [] && a[0] == b[0] {
      BytesLessIs(a[1..], b[1..]);
      if Precedes(a[1..], b[1..]) {
        var n :| PrecedesAt(a[1..], b[1..], n);
        PrecedesLater(a, b, n);
      }
      if Precedes(a, b) {
        var n :| PrecedesAt(a, b, n);
        PrecedesSooner(a, b, n);
      }
    } else if a == [] && b != [] {
      assert PrecedesAt(a, b, 0);
    } else if a != [] && b != [] && a[0] < b[0] {
      assert PrecedesAt(a, b, 0);
    } else {
      NotBefore(a, b);
    }
    Unfolded(a, b);
  }

  lemma Unfolded(a: seq<Byte>, b: seq<Byte>)
    ensures Precedes(a, b) <==>
            exists n: nat :: && n <= |a| && n <= |b| && a[..n] == b[..n]
                             && (n == |a| < |b| || (n < |a| && n < |b| && a[n] < b[n]))
  {
    if n: nat :| && n <= |a| && n <= |b| && a[..n] == b[..n]
                 && (n == |a| < |b| || (n < |a| && n < |b| && a[n] < b[n])) {
      assert PrecedesAt(a, b, n);
    }
  }

  lemma SameFirst(a: seq<Byte>, b: seq<Byte>, n: nat)
    requires n > 0 && PrecedesAt(a, b, n)
    ensures a[0] == b[0]
  {
    assert a[..n][0] == b[..n][0];
  }

  lemma NotBefore(a: seq<Byte>, b: seq<Byte>)
    requires b == [] || (a != [] && a[0] > b[0])
    ensures !Precedes(a, b)
  {
    if Precedes(a, b) {
      var n :| PrecedesAt(a, b, n);
      if n > 0 {
        SameFirst(a, b, n);
      }
    }
  }

  lemma PrecedesLater(a: seq<Byte>, b: seq<Byte>, n: nat)
    requires a != [] && b != [] && a[0] == b[0] && PrecedesAt(a[1..], b[1..], n)
    ensures PrecedesAt(a, b, n + 1)
  {
    assert a[..n + 1] == [a[0]] + a[1..][..n];
    assert b[..n + 1] == [b[0]] + b[1..][..n];
  }

  lemma PrecedesSooner(a: seq<Byte>, b: seq<Byte>, n: nat)
    requires a != [] && b != [] && a[0] == b[0] && PrecedesAt(a, b, n)
    ensures n > 0 && PrecedesAt(a[1..], b[1..], n - 1)
  {
    if n > 0 {
      assert a[1..][..n - 1] == a[..n][1..];
      assert b[1..][..n - 1] == b[..n][1..];
    }
  }

  // "a" before "b", "a" before "ab", and no string before itself.
  lemma BytesLessOn(s: seq<Byte>)
    ensures BytesLess([97], [98]) && !BytesLess([98], [97]) && BytesLess([97], [97, 98]) && !BytesLess([97, 98], [97])
    ensures BytesLess([], [97]) && !BytesLess(s, s) && BytesLess([97, 122], [98, 97])
  {
    BytesTotal(s, s);
  }

  // What each type's values are ordered by.
  lemma LessMeans()
    ensures forall i, j :: Less(Integer(i), Integer(j)) <==> i < j
    ensures forall r, q :: Less(Real(r), Real(q)) <==> r < q
    ensures forall c, d :: Less(Char(c), Char(d)) <==> c < d
    ensures forall x, y :: Less(Bool(x), Bool(y)) <==> !x && y
    ensures forall s, t :: Less(String(s), String(t)) <==> Precedes(s, t)
    ensures forall s, t :: Less(Undefined(s), Undefined(t)) <==> Precedes(s, t)
  {
    forall s, t ensures BytesLess(s, t) <==> Precedes(s, t) {
      BytesLessIs(s, t);
    }
  }

  // Values of two types stand in the order of the types: bytes of no type, NULL, integers, reals,
  // characters, truth values, strings.
  lemma TypesMean(a: Value, b: Value)
    ensures TypeCode(a) == (if a.Undefined? then 0 else if a.Null? then 1 else if a.Integer? then 2 else if a.Real? then 3
                            else if a.Char? then 4 else if a.Bool? then 5 else 6)
    ensures TypeCode(a) < TypeCode(b) ==> Less(a, b) && !Less(b, a)
  {
  }

  lemma LessTotal(a: Value, b: Value)
    ensures Less(a, b) || Less(b, a) || a == b
    ensures !(Less(a, b) && Less(b, a)) && !Less(a, a)
    ensures Equal(a, b) <==> a == b
  {
    match a
    case Undefined(raw) => BytesTotal(raw, raw); if b.Undefined? { BytesTotal(raw, b.raw); }
    case String(s) => BytesTotal(s, s); if b.String? { BytesTotal(s, b.s); }
    case _ =>
  }

  lemma LessTransitive(a: Value, b: Value, c: Value)
    requires Less(a, b) && Less(b, c)
    ensures Less(a, c)
  {
    if a.Undefined? && b.Undefined? && c.Undefined? {
      BytesTransitive(a.raw, b.raw, c.raw);
    } else if a.String? && b.String? && c.String? {
      BytesTransitive(a.s, b.s, c.s);
    }
  }

  // compare_token is a total order.
  lemma OrderLaws()
    ensures forall a, b :: Le(a, b) || Le(b, a)
    ensures forall a, b :: Le(a, b) && Le(b, a) ==> a == b
    ensures forall a, b, c :: Le(a, b) && Le(b, c) ==> Le(a, c)
    ensures forall a, b :: Compare(a, b) <= 0 <==> Le(a, b)
    ensures forall a, b :: Compare(a, b) < 0 <==> !Le(b, a)
    ensures forall a, b :: Compare(a, b) == 0 <==> a == b
  {
    hide Less, Equal;
    forall a, b ensures Less(a, b) || Less(b, a) || a == b
      ensures !(Less(a, b) && Less(b, a)) && !Less(a, a) && (Equal(a, b) <==> a == b)
    {
      LessTotal(a, b);
    }
    forall a, b, c | Le(a, b) && Le(b, c) ensures Le(a, c) {
      if Less(a, b) && Less(b, c) {
        LessTransitive(a, b, c);
      }
    }
  }
}
