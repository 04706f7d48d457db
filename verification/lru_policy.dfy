/**
 The least-recently-used policy: a list of keys, most recently touched first.
 */
module LruPolicies {
  datatype Event<K> = Touch(key: K) | Evict

  // The position just after the last touch of k; 0 when k was never touched.
  function LastTouch<K(==)>(es: seq<Event<K>>, k: K): nat {
    if es == [] then 0
    else if es[|es| - 1] == Touch(k) then |es|
    else LastTouch(es[..|es| - 1], k)
  }

  function Without<K(==)>(order: seq<K>, k: K): seq<K> {
    if order == [] then []
    else if order[0] == k then Without(order[1..], k)
    else [order[0]] + Without(order[1..], k)
  }

  function Touched<K(==)>(order: seq<K>, k: K): seq<K> {
    [k] + Without(order, k)
  }

  // The list after a sequence of events.
  function Replay<K(==)>(es: seq<Event<K>>): seq<K> {
    if es == [] then []
    else
      var order := Replay(es[..|es| - 1]);
      match es[|es| - 1]
      case Touch(k) => Touched(order, k)
      case Evict => if order == [] then [] else order[..|order| - 1]
  }

  ghost predicate Distinct<K>(order: seq<K>) {
    forall i, j | 0 <= i < j < |order| :: order[i] != order[j]
  }

  // Keys stand in the order of their last touches, latest first.
  ghost predicate ByRecency<K>(order: seq<K>, es: seq<Event<K>>) {
    forall i, j | 0 <= i < j < |order| :: LastTouch(es, order[i]) > LastTouch(es, order[j])
  }

  lemma {:induction false} WithoutIs<K>(order: seq<K>, k: K)
    requires Distinct(order)
    ensures forall x: K :: x in Without(order, k) ==> x in order && x != k
    ensures forall x: K :: x in order && x != k ==> x in Without(order, k)
    ensures Distinct(Without(order, k)) && |Without(order, k)| <= |order|
  {
    if order != [] {
      var rest := Without(order[1..], k);
      WithoutIs(order[1..], k);
      assert order == [order[0]] + order[1..];
      assert order[0] !in rest;
    }
  }

  lemma {:induction false} LastTouchBound<K>(es: seq<Event<K>>, k: K)
    ensures LastTouch(es, k) <= |es|
  {
    if es != [] {
      LastTouchBound(es[..|es| - 1], k);
    }
  }

  lemma {:induction false} WithoutByRecency<K>(order: seq<K>, k: K, es: seq<Event<K>>)
    requires Distinct(order) && ByRecency(order, es)
    ensures ByRecency(Without(order, k), es)
  {
    if order != [] {
      var rest := Without(order[1..], k);
      WithoutByRecency(order[1..], k, es);
      WithoutIs(order[1..], k);
      forall i | 0 <= i < |rest| ensures LastTouch(es, order[0]) > LastTouch(es, rest[i]) {
        var x := rest[i];
        assert x in Without(order[1..], k);
        assert x in order[1..];
        var j :| 0 <= j < |order[1..]| && order[1..][j] == rest[i];
        assert order[j + 1] == rest[i];
      }
    }
  }

  // Whatever happens, the list holds distinct keys by recency of their last touch, so the key
  // evicted next is the one whose last touch is the oldest.
  lemma {:induction false} ReplayByRecency<K>(es: seq<Event<K>>)
    ensures Distinct(Replay(es)) && ByRecency(Replay(es), es)
  {
    if es != [] {
      var before := es[..|es| - 1];
      var order := Replay(before);
      ReplayByRecency(before);
      match es[|es| - 1]
      case Touch(k) =>
        WithoutIs(order, k);
        WithoutByRecency(order, k, before);
        TouchKeepsRecency(order, k, before);
        assert es == before + [Touch(k)];
      case Evict =>
        EvictKeepsRecency(order, before);
        assert es == before + [Evict];
    }
  }

  lemma TouchKeepsRecency<K>(order: seq<K>, k: K, es: seq<Event<K>>)
    requires Distinct(order) && ByRecency(Without(order, k), es)
    ensures ByRecency(Touched(order, k), es + [Touch(k)])
  {
    WithoutIs(order, k);
    var es' := es + [Touch(k)];
    assert es'[..|es|] == es;
    forall x ensures LastTouch(es', x) == if x == k then |es'| else LastTouch(es, x) {
    }
    forall x ensures LastTouch(es, x) < |es'| {
      LastTouchBound(es, x);
    }
    var rest := Without(order, k);
    forall i | 0 <= i < |rest| ensures rest[i] != k {
      assert rest[i] in rest;
    }
  }

  lemma EvictKeepsRecency<K>(order: seq<K>, es: seq<Event<K>>)
    requires ByRecency(order, es)
    ensures ByRecency(if order == [] then [] else order[..|order| - 1], es + [Evict])
  {
    var es' := es + [Evict];
    assert es'[..|es|] == es;
    forall x ensures LastTouch(es', x) == LastTouch(es, x) {
    }
  }

  class LruPolicy<K(==)> {
    var order: seq<K>
    ghost var events: seq<Event<K>>

    ghost predicate Valid()
      reads this
    {
      order == Replay(events)
    }

    constructor ()
      ensures Valid() && order == [] && events == []
    {
      order := [];
      events := [];
    }

    method Touch(key: K)
      requires Valid()
      modifies this
      ensures Valid() && order == Touched(old(order), key) && events == old(events) + [Event.Touch(key)]
    {
      var rest := Remove(order, key);
      order := [key] + rest;
      events := events + [Event.Touch(key)];
      assert events[..|events| - 1] == old(events);
    }

    static method Remove(order: seq<K>, key: K) returns (rest: seq<K>)
      ensures rest == Without(order, key)
    {
      rest := [];
      var i := |order|;
      while i > 0
        invariant 0 <= i <= |order| && rest == Without(order[i..], key)
      {
        i := i - 1;
        assert order[i..][1..] == order[i + 1..];
        if order[i] != key {
          rest := [order[i]] + rest;
        }
      }
      assert order[0..] == order;
    }

    // Drops the key that was touched least recently.
    method Evict() returns (victim: K)
      requires Valid() && order != []
      modifies this
      ensures Valid() && old(order) == order + [victim] && events == old(events) + [Event.Evict]
      ensures forall k | k in order :: LastTouch(old(events), k) > LastTouch(old(events), victim)
    {
      ReplayByRecency(events);
      var n := |order| - 1;
      victim := order[n];
      order := order[..n];
      events := events + [Event.Evict];
      assert events[..|events| - 1] == old(events);
    }
  }
}
