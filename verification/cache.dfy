/**
 A write-back cache over a disk, and the plain map it stands for.
 */
module Caches {
  import opened Types
  import opened LruPolicies

  datatype Entry<V> = Entry(value: V, dirty: bool)

  // order is the policy's list, most recently touched first.
  datatype State<K(==), V> = State(entries: map<K, Entry<V>>, order: seq<K>, disk: map<K, V>)

  ghost predicate Sound<K, V>(s: State<K, V>, maxSize: nat) {
    && Distinct(s.order) && |s.entries| <= maxSize
    && (forall k | k in s.order :: k in s.entries) && (forall k | k in s.entries :: k in s.order)
  }

  // ---- Operations on states ----

  function Victim<K, V>(s: State<K, V>): K
    requires s.order != []
  {
    s.order[|s.order| - 1]
  }

  // A dirty victim reaches the disk first.
  function EvictOne<K(==), V>(s: State<K, V>): State<K, V>
    requires s.order != []
  {
    var k := Victim(s);
    State(s.entries - {k}, s.order[..|s.order| - 1],
          if k in s.entries && s.entries[k].dirty then s.disk[k := s.entries[k].value] else s.disk)
  }

  predicate Evicts<K(==), V>(s: State<K, V>, key: K, maxSize: nat) {
    key !in s.entries && |s.entries| >= maxSize && s.order != []
  }

  function MakeRoom<K(==), V>(s: State<K, V>, key: K, maxSize: nat): State<K, V> {
    if Evicts(s, key, maxSize) then EvictOne(s) else s
  }

  // A value put over a cached one leaves the dirty flag as it was.
  function Put<K(==), V>(s: State<K, V>, key: K, value: V, maxSize: nat): State<K, V> {
    if key in s.entries then
      s.(entries := s.entries[key := s.entries[key].(value := value)], order := Touched(s.order, key))
    else
      var r := MakeRoom(s, key, maxSize);
      r.(entries := r.entries[key := Entry(value, false)], order := Touched(r.order, key))
  }

  function Get<K(==), V>(s: State<K, V>, key: K): State<K, V> {
    if key in s.entries then s.(order := Touched(s.order, key)) else s
  }

  function MarkDirty<K(==), V>(s: State<K, V>, key: K): State<K, V> {
    if key in s.entries then
      s.(entries := s.entries[key := s.entries[key].(dirty := true)], order := Touched(s.order, key))
    else s
  }

  // A write through the pointer a lookup returned.
  function Assign<K(==), V>(s: State<K, V>, key: K, value: V): State<K, V> {
    if key in s.entries then s.(entries := s.entries[key := s.entries[key].(value := value)]) else s
  }

  // Reading through the cache: a missing key is loaded from the disk.
  function Load<K(==), V>(s: State<K, V>, key: K, maxSize: nat): State<K, V> {
    if key in s.entries then Get(s, key)
    else if key in s.disk then Get(Put(s, key, s.disk[key], maxSize), key)
    else s
  }

  // The dirty entries among keys are written out and become clean.
  function Flush<K(==), V>(s: State<K, V>, keys: set<K>): State<K, V> {
    s.(entries := map k | k in s.entries :: if k in keys then s.entries[k].(dirty := false) else s.entries[k],
       disk := s.disk + map k | k in s.entries && k in keys && s.entries[k].dirty :: s.entries[k].value)
  }

  // ---- The plain map ----

  // What reading each key would return.
  function View<K(==), V>(s: State<K, V>): map<K, V> {
    s.disk + map k | k in s.entries :: s.entries[k].value
  }

  // A clean entry whose value the disk does not have.
  ghost predicate Unsaved<K, V>(s: State<K, V>, k: K) {
    k in s.entries && !s.entries[k].dirty && !(k in s.disk && s.disk[k] == s.entries[k].value)
  }

  datatype Op<K, V> =
    | OpLoad(key: K)
    | OpPut(key: K, value: V)
    | OpAssign(key: K, value: V)
    | OpMarkDirty(key: K)
    | OpFlush(keys: set<K>)

  function Step<K(==), V>(s: State<K, V>, op: Op<K, V>, maxSize: nat): State<K, V> {
    match op
    case OpLoad(key) => Load(s, key, maxSize)
    case OpPut(key, value) => Put(s, key, value, maxSize)
    case OpAssign(key, value) => Assign(s, key, value)
    case OpMarkDirty(key) => MarkDirty(s, key)
    case OpFlush(keys) => Flush(s, keys)
  }

  predicate Cached<K(==), V>(s: State<K, V>, op: Op<K, V>) {
    op.OpAssign? && op.key in s.entries
  }

  // The same operation on a plain map; an assignment needs a pointer, so the key must be cached.
  function PlainStep<K(==), V>(m: map<K, V>, op: Op<K, V>, cached: bool): map<K, V> {
    match op
    case OpPut(key, value) => m[key := value]
    case OpAssign(key, value) => if cached then m[key := value] else m
    case _ => m
  }

  predicate StepEvicts<K(==), V>(s: State<K, V>, op: Op<K, V>, maxSize: nat) {
    match op
    case OpLoad(key) => key in s.disk && Evicts(s, key, maxSize)
    case OpPut(key, _) => Evicts(s, key, maxSize)
    case _ => false
  }

  // The step would drop a value that exists nowhere else.
  ghost predicate Loses<K, V>(s: State<K, V>, op: Op<K, V>, maxSize: nat) {
    StepEvicts(s, op, maxSize) && Unsaved(s, Victim(s))
  }

  // ---- Soundness ----

  lemma TouchedIs<K>(order: seq<K>, k: K, x: K)
    requires Distinct(order)
    ensures Distinct(Touched(order, k)) && (x in Touched(order, k) <==> x in order || x == k)
  {
    WithoutIs(order, k);
    var rest := Without(order, k);
    assert k !in rest;
    assert Touched(order, k) == [k] + rest;
  }

  lemma TouchSound<K, V>(s: State<K, V>, t: State<K, V>, key: K, maxSize: nat)
    requires Sound(s, maxSize) && t.order == Touched(s.order, key)
    requires t.entries.Keys == s.entries.Keys + {key} && |t.entries| <= maxSize
    ensures Sound(t, maxSize)
  {
    hide Touched;
    TouchedIs(s.order, key, key);
    forall x | x in t.order ensures x in t.entries {
      TouchedIs(s.order, key, x);
      assert x in t.entries.Keys;
    }
    forall x | x in t.entries ensures x in t.order {
      TouchedIs(s.order, key, x);
      assert x in t.entries.Keys;
    }
  }

  lemma EvictOneSound<K, V>(s: State<K, V>, maxSize: nat)
    requires Sound(s, maxSize) && s.order != []
    ensures Sound(EvictOne(s), maxSize) && |EvictOne(s).entries| < maxSize
  {
    var k := Victim(s);
    var t := EvictOne(s);
    assert k in s.order && k in s.entries;
    assert s.order == t.order + [k];
    assert s.entries.Keys == t.entries.Keys + {k};
    forall x ensures x in t.order <==> x in t.entries {
      assert x in s.order <==> x in s.entries;
    }
  }

  lemma PutSound<K, V>(s: State<K, V>, key: K, value: V, maxSize: nat)
    requires Sound(s, maxSize) && maxSize > 0
    ensures Sound(Put(s, key, value, maxSize), maxSize) && key in Put(s, key, value, maxSize).entries
  {
    hide Touched, Sound, EvictOne;
    if key in s.entries {
      PutOver(s, key, value, maxSize);
    } else {
      if Evicts(s, key, maxSize) {
        EvictOneSound(s, maxSize);
        EvictOneKeys(s, key);
      } else {
        NoRoomNeeded(s, key, maxSize);
      }
      PutNew(MakeRoom(s, key, maxSize), key, value, maxSize);
    }
  }

  lemma EvictOneKeys<K, V>(s: State<K, V>, key: K)
    requires s.order != [] && key !in s.entries
    ensures key !in EvictOne(s).entries
  {
  }

  lemma PutOver<K, V>(s: State<K, V>, key: K, value: V, maxSize: nat)
    requires Sound(s, maxSize) && key in s.entries
    ensures Sound(Put(s, key, value, maxSize), maxSize)
  {
    hide Touched;
    var t := Put(s, key, value, maxSize);
    assert t.entries.Keys == s.entries.Keys;
    SameSize(s.entries, t.entries, key);
    TouchSound(s, t, key, maxSize);
  }

  lemma PutNew<K, V>(r: State<K, V>, key: K, value: V, maxSize: nat)
    requires Sound(r, maxSize) && |r.entries| < maxSize && key !in r.entries
    ensures Sound(r.(entries := r.entries[key := Entry(value, false)], order := Touched(r.order, key)), maxSize)
  {
    hide Touched, Sound;
    var t := r.(entries := r.entries[key := Entry(value, false)], order := Touched(r.order, key));
    assert t.entries.Keys == r.entries.Keys + {key};
    assert |t.entries| == |t.entries.Keys| && |r.entries| == |r.entries.Keys|;
    TouchSound(r, t, key, maxSize);
  }

  lemma SameSize<K, V>(a: map<K, V>, b: map<K, V>, key: K)
    requires key in a && b.Keys == a.Keys
    ensures |b| == |a| && b.Keys == a.Keys + {key}
  {
    assert |a.Keys| == |a| && |b.Keys| == |b|;
    assert a.Keys == a.Keys + {key};
  }

  lemma NoRoomNeeded<K, V>(s: State<K, V>, key: K, maxSize: nat)
    requires Sound(s, maxSize) && maxSize > 0 && key !in s.entries && !Evicts(s, key, maxSize)
    ensures |s.entries| < maxSize
  {
    if s.order == [] {
      assert forall k :: k !in s.entries;
      assert s.entries == map[];
    }
  }

  // Cached keys are always the policy's keys, and never more than the maximum.
  lemma StepSound<K, V>(s: State<K, V>, op: Op<K, V>, maxSize: nat)
    requires Sound(s, maxSize) && maxSize > 0
    ensures Sound(Step(s, op, maxSize), maxSize)
  {
    match op
    case OpLoad(key) =>
      if key in s.entries {
        GetSound(s, key, maxSize);
      } else if key in s.disk {
        PutSound(s, key, s.disk[key], maxSize);
        GetSound(Put(s, key, s.disk[key], maxSize), key, maxSize);
      }
    case OpPut(key, value) => PutSound(s, key, value, maxSize);
    case OpAssign(key, value) => assert Assign(s, key, value).entries.Keys == s.entries.Keys;
    case OpMarkDirty(key) => MarkDirtySound(s, key, maxSize);
    case OpFlush(keys) => assert Flush(s, keys).entries.Keys == s.entries.Keys;
  }

  lemma GetSound<K, V>(s: State<K, V>, key: K, maxSize: nat)
    requires Sound(s, maxSize)
    ensures Sound(Get(s, key), maxSize)
  {
    hide Touched;
    if key in s.entries {
      SameSize(s.entries, s.entries, key);
      TouchSound(s, Get(s, key), key, maxSize);
    }
  }

  lemma MarkDirtySound<K, V>(s: State<K, V>, key: K, maxSize: nat)
    requires Sound(s, maxSize)
    ensures Sound(MarkDirty(s, key), maxSize)
  {
    hide Touched;
    if key in s.entries {
      assert MarkDirty(s, key).entries.Keys == s.entries.Keys;
      SameSize(s.entries, MarkDirty(s, key).entries, key);
      TouchSound(s, MarkDirty(s, key), key, maxSize);
    }
  }

  // ---- Refinement of the plain map ----

  // What reading one key would return.
  function Lookup<K(==), V>(s: State<K, V>, k: K): Option<V> {
    if k in s.entries then Some(s.entries[k].value) else if k in s.disk then Some(s.disk[k]) else None
  }

  function At<K(==), V>(m: map<K, V>, k: K): Option<V> {
    if k in m then Some(m[k]) else None
  }

  lemma ViewAt<K, V>(s: State<K, V>, k: K)
    ensures At(View(s), k) == Lookup(s, k)
  {
  }

  lemma SameMap<K, V>(a: map<K, V>, b: map<K, V>)
    requires forall k :: At(a, k) == At(b, k)
    ensures a == b
  {
    forall k ensures k in a <==> k in b {
      assert At(a, k) == At(b, k);
    }
    forall k | k in a ensures a[k] == b[k] {
      assert At(a, k) == At(b, k);
    }
  }

  lemma EvictLookup<K, V>(s: State<K, V>, k: K)
    requires s.order != [] && Victim(s) in s.entries
    ensures Lookup(EvictOne(s), k) == Lookup(s, k) <==> !(k == Victim(s) && Unsaved(s, k))
  {
  }

  lemma MakeRoomLookup<K, V>(s: State<K, V>, key: K, maxSize: nat, k: K)
    requires Sound(s, maxSize)
    ensures Lookup(MakeRoom(s, key, maxSize), k) == Lookup(s, k) <==>
            !(Evicts(s, key, maxSize) && k == Victim(s) && Unsaved(s, k))
  {
    if Evicts(s, key, maxSize) {
      assert Victim(s) in s.order;
      EvictLookup(s, k);
    }
  }

  lemma PutLookup<K, V>(s: State<K, V>, key: K, value: V, maxSize: nat, k: K)
    ensures Lookup(Put(s, key, value, maxSize), k) == if k == key then Some(value) else Lookup(MakeRoom(s, key, maxSize), k)
  {
  }

  lemma LoadLookup<K, V>(s: State<K, V>, key: K, maxSize: nat, k: K)
    requires Sound(s, maxSize)
    ensures Lookup(Load(s, key, maxSize), k) == Lookup(if key in s.disk then MakeRoom(s, key, maxSize) else s, k)
  {
    hide Touched;
    if key !in s.entries && key in s.disk {
      PutLookup(s, key, s.disk[key], maxSize, k);
      if Evicts(s, key, maxSize) {
        assert Victim(s) in s.order;
      }
    }
  }

  // What an operation does to one key, exactly when it does not evict that key unsaved.
  lemma StepLookup<K, V>(s: State<K, V>, op: Op<K, V>, maxSize: nat, k: K)
    requires Sound(s, maxSize)
    ensures Lookup(Step(s, op, maxSize), k) == At(PlainStep(View(s), op, Cached(s, op)), k) <==>
            !(Loses(s, op, maxSize) && k == Victim(s))
  {
    hide Touched, View, MakeRoom, Load, Put, Unsaved;
    ViewAt(s, k);
    match op
    case OpLoad(key) =>
      LoadLookup(s, key, maxSize, k);
      MakeRoomLookup(s, key, maxSize, k);
    case OpPut(key, value) =>
      PutLookup(s, key, value, maxSize, k);
      MakeRoomLookup(s, key, maxSize, k);
      if Evicts(s, key, maxSize) {
        assert Victim(s) in s.order;
      }
    case OpAssign(_, _) =>
    case OpMarkDirty(_) =>
    case OpFlush(_) =>
  }

  // Each operation does to the readable contents what it does to a plain map, exactly when it does
  // not evict an unsaved value.
  lemma StepRefines<K, V>(s: State<K, V>, op: Op<K, V>, maxSize: nat)
    requires Sound(s, maxSize)
    ensures View(Step(s, op, maxSize)) == PlainStep(View(s), op, Cached(s, op)) <==> !Loses(s, op, maxSize)
  {
    hide Touched, View, Step, PlainStep, Sound, Lookup, Unsaved;
    var t, m := View(Step(s, op, maxSize)), PlainStep(View(s), op, Cached(s, op));
    forall k ensures At(t, k) == At(m, k) <==> !(Loses(s, op, maxSize) && k == Victim(s)) {
      StepLookup(s, op, maxSize, k);
      ViewAt(Step(s, op, maxSize), k);
    }
    if Loses(s, op, maxSize) {
      var k := Victim(s);
      assert At(t, k) != At(m, k);
    } else {
      SameMap(t, m);
    }
  }

  // ---- Runs ----

  function Run<K(==), V>(s: State<K, V>, ops: seq<Op<K, V>>, maxSize: nat): State<K, V>
    decreases ops
  {
    if ops == [] then s else Run(Step(s, ops[0], maxSize), ops[1..], maxSize)
  }

  // The plain map's run alongside.
  function PlainRun<K(==), V>(s: State<K, V>, m: map<K, V>, ops: seq<Op<K, V>>, maxSize: nat): map<K, V>
    decreases ops
  {
    if ops == [] then m
    else PlainRun(Step(s, ops[0], maxSize), PlainStep(m, ops[0], Cached(s, ops[0])), ops[1..], maxSize)
  }

  ghost predicate NeverLoses<K, V>(s: State<K, V>, ops: seq<Op<K, V>>, maxSize: nat)
    decreases ops
  {
    ops != [] ==> !Loses(s, ops[0], maxSize) && NeverLoses(Step(s, ops[0], maxSize), ops[1..], maxSize)
  }

  // Over a whole run: reads see what the plain map holds.
  lemma {:induction false} RunRefines<K, V>(s: State<K, V>, ops: seq<Op<K, V>>, maxSize: nat)
    requires Sound(s, maxSize) && maxSize > 0 && NeverLoses(s, ops, maxSize)
    ensures Sound(Run(s, ops, maxSize), maxSize)
    ensures View(Run(s, ops, maxSize)) == PlainRun(s, View(s), ops, maxSize)
    decreases ops
  {
    if ops != [] {
      StepSound(s, ops[0], maxSize);
      StepRefines(s, ops[0], maxSize);
      RunRefines(Step(s, ops[0], maxSize), ops[1..], maxSize);
    }
  }

  // ---- Marked mutations ----

  // What a careful client does: nothing else happens between a change and its mark.
  datatype Use<K, V> =
    | Read(key: K)
    | Change(key: K, value: V)
    | Create(key: K, value: V)
    | WriteOut(keys: set<K>)

  function OpsOf<K, V>(u: Use<K, V>): seq<Op<K, V>> {
    match u
    case Read(key) => [OpLoad(key)]
    case Change(key, value) => [OpLoad(key), OpAssign(key, value), OpMarkDirty(key)]
    case Create(key, value) => [OpPut(key, value), OpMarkDirty(key)]
    case WriteOut(keys) => [OpFlush(keys)]
  }

  function OpsOfAll<K, V>(us: seq<Use<K, V>>): seq<Op<K, V>> {
    if us == [] then [] else OpsOf(us[0]) + OpsOfAll(us[1..])
  }

  // What those uses do to a plain map.
  function Intended<K(==), V>(m: map<K, V>, u: Use<K, V>): map<K, V> {
    match u
    case Change(key, value) => if key in m then m[key := value] else m
    case Create(key, value) => m[key := value]
    case _ => m
  }

  function IntendedAll<K(==), V>(m: map<K, V>, us: seq<Use<K, V>>): map<K, V>
    decreases us
  {
    if us == [] then m else IntendedAll(Intended(m, us[0]), us[1..])
  }

  ghost predicate Saved<K, V>(s: State<K, V>) {
    forall k | k in s.entries :: !Unsaved(s, k)
  }

  lemma {:induction false} RunConcat<K, V>(s: State<K, V>, a: seq<Op<K, V>>, b: seq<Op<K, V>>, maxSize: nat)
    ensures Run(s, a + b, maxSize) == Run(Run(s, a, maxSize), b, maxSize)
    decreases a
  {
    if a == [] {
      assert a + b == b;
    } else {
      assert (a + b)[1..] == a[1..] + b;
      RunConcat(Step(s, a[0], maxSize), a[1..], b, maxSize);
    }
  }

  lemma UseKeeps<K, V>(s: State<K, V>, u: Use<K, V>, maxSize: nat)
    requires Sound(s, maxSize) && maxSize > 0 && Saved(s)
    ensures var t := Run(s, OpsOf(u), maxSize); Sound(t, maxSize) && Saved(t) && View(t) == Intended(View(s), u)
  {
    hide Load, Flush, View, Sound, Saved, Touched, Run;
    match u
    case Read(key) =>
      RunSingle(s, OpLoad(key), maxSize);
      SafeStep(s, OpLoad(key), maxSize);
      LoadSaved(s, key, maxSize);
    case Change(key, value) => ChangeKeeps(s, key, value, maxSize);
    case Create(key, value) => CreateKeeps(s, key, value, maxSize);
    case WriteOut(keys) =>
      RunSingle(s, OpFlush(keys), maxSize);
      SafeStep(s, OpFlush(keys), maxSize);
      FlushSaved(s, keys);
  }

  lemma RunSingle<K, V>(s: State<K, V>, x: Op<K, V>, maxSize: nat)
    ensures Run(s, [x], maxSize) == Step(s, x, maxSize)
  {
    hide Step;
  }

  lemma SavedNeverLoses<K, V>(s: State<K, V>, op: Op<K, V>, maxSize: nat)
    requires Sound(s, maxSize) && Saved(s)
    ensures !Loses(s, op, maxSize)
  {
    if StepEvicts(s, op, maxSize) {
      assert Victim(s) in s.order;
    }
  }

  // Everything but the key is saved: marking the key makes the state saved.
  ghost predicate SavedBut<K, V>(s: State<K, V>, key: K) {
    forall k | k in s.entries && k != key :: !Unsaved(s, k)
  }

  lemma MarkSaves<K, V>(s: State<K, V>, key: K)
    requires SavedBut(s, key)
    ensures Saved(MarkDirty(s, key))
  {
  }

  lemma AssignSavedBut<K, V>(s: State<K, V>, key: K, value: V)
    requires Saved(s)
    ensures SavedBut(Assign(s, key, value), key)
  {
  }

  lemma EvictSaved<K, V>(s: State<K, V>)
    requires Saved(s) && s.order != []
    ensures Saved(EvictOne(s))
  {
    forall k | k in EvictOne(s).entries ensures !Unsaved(EvictOne(s), k) {
      assert !Unsaved(s, k);
    }
  }

  lemma PutSavedBut<K, V>(s: State<K, V>, key: K, value: V, maxSize: nat)
    requires Saved(s)
    ensures SavedBut(Put(s, key, value, maxSize), key)
  {
    hide Touched;
    var r := if key in s.entries then s else MakeRoom(s, key, maxSize);
    assert Saved(r) by {
      if key !in s.entries && Evicts(s, key, maxSize) {
        EvictSaved(s);
      }
    }
    forall k | k in Put(s, key, value, maxSize).entries && k != key ensures !Unsaved(Put(s, key, value, maxSize), k) {
      assert !Unsaved(r, k);
    }
  }

  lemma LoadSaved<K, V>(s: State<K, V>, key: K, maxSize: nat)
    requires Sound(s, maxSize) && Saved(s)
    ensures Saved(Load(s, key, maxSize))
  {
    hide Touched;
    if key !in s.entries && key in s.disk {
      PutSavedBut(s, key, s.disk[key], maxSize);
      var t := Put(s, key, s.disk[key], maxSize);
      assert Evicts(s, key, maxSize) ==> Victim(s) in s.order;
      assert t.disk == MakeRoom(s, key, maxSize).disk && key in t.disk && t.disk[key] == s.disk[key];
      forall k | k in Load(s, key, maxSize).entries ensures !Unsaved(Load(s, key, maxSize), k) {
        assert !Unsaved(t, k);
      }
    } else {
      forall k | k in Load(s, key, maxSize).entries ensures !Unsaved(Load(s, key, maxSize), k) {
        assert !Unsaved(s, k);
      }
    }
  }

  lemma FlushSaved<K, V>(s: State<K, V>, keys: set<K>)
    requires Saved(s)
    ensures Saved(Flush(s, keys))
  {
    forall k | k in Flush(s, keys).entries ensures !Unsaved(Flush(s, keys), k) {
      assert !Unsaved(s, k);
    }
  }

  lemma SafeStep<K, V>(s: State<K, V>, op: Op<K, V>, maxSize: nat)
    requires Sound(s, maxSize) && maxSize > 0 && (Saved(s) || op.OpMarkDirty?)
    ensures Sound(Step(s, op, maxSize), maxSize)
    ensures View(Step(s, op, maxSize)) == PlainStep(View(s), op, Cached(s, op))
  {
    hide Sound, Step, PlainStep, View;
    StepSound(s, op, maxSize);
    StepRefines(s, op, maxSize);
    if Saved(s) {
      SavedNeverLoses(s, op, maxSize);
    }
  }

  lemma ChangeKeeps<K, V>(s: State<K, V>, key: K, value: V, maxSize: nat)
    requires Sound(s, maxSize) && maxSize > 0 && Saved(s)
    ensures var t := Run(s, OpsOf(Change(key, value)), maxSize);
      Sound(t, maxSize) && Saved(t) && View(t) == Intended(View(s), Change(key, value))
  {
    hide Load, Assign, MarkDirty, Touched, View, Sound, Saved, SavedBut, Run;
    var a := Step(s, OpLoad(key), maxSize);
    var b := Step(a, OpAssign(key, value), maxSize);
    RunThree(s, OpLoad(key), OpAssign(key, value), OpMarkDirty(key), maxSize);
    SafeStep(s, OpLoad(key), maxSize);
    LoadSaved(s, key, maxSize);
    SafeStep(a, OpAssign(key, value), maxSize);
    AssignSavedBut(a, key, value);
    SafeStep(b, OpMarkDirty(key), maxSize);
    MarkSaves(b, key);
    LoadCaches(s, key, maxSize);
  }

  lemma LoadCaches<K, V>(s: State<K, V>, key: K, maxSize: nat)
    requires Sound(s, maxSize) && maxSize > 0
    ensures key in Load(s, key, maxSize).entries <==> key in View(s)
  {
    hide Touched;
  }

  lemma CreateKeeps<K, V>(s: State<K, V>, key: K, value: V, maxSize: nat)
    requires Sound(s, maxSize) && maxSize > 0 && Saved(s)
    ensures var t := Run(s, OpsOf(Create(key, value)), maxSize);
      Sound(t, maxSize) && Saved(t) && View(t) == Intended(View(s), Create(key, value))
  {
    hide Put, MarkDirty, Touched, View, Sound, Saved, SavedBut, Run;
    var a := Step(s, OpPut(key, value), maxSize);
    RunTwo(s, OpPut(key, value), OpMarkDirty(key), maxSize);
    SafeStep(s, OpPut(key, value), maxSize);
    PutSavedBut(s, key, value, maxSize);
    SafeStep(a, OpMarkDirty(key), maxSize);
    MarkSaves(a, key);
  }

  lemma RunOne<K, V>(s: State<K, V>, x: Op<K, V>, rest: seq<Op<K, V>>, maxSize: nat)
    ensures Run(s, [x] + rest, maxSize) == Run(Step(s, x, maxSize), rest, maxSize)
  {
    hide Step;
    assert ([x] + rest)[1..] == rest;
  }

  lemma RunTwo<K, V>(s: State<K, V>, x: Op<K, V>, y: Op<K, V>, maxSize: nat)
    ensures Run(s, [x, y], maxSize) == Step(Step(s, x, maxSize), y, maxSize)
  {
    hide Step;
    assert [x, y] == [x] + ([y] + []);
    RunOne(s, x, [y] + [], maxSize);
    RunOne(Step(s, x, maxSize), y, [], maxSize);
  }

  lemma RunThree<K, V>(s: State<K, V>, x: Op<K, V>, y: Op<K, V>, z: Op<K, V>, maxSize: nat)
    ensures Run(s, [x, y, z], maxSize) == Step(Step(Step(s, x, maxSize), y, maxSize), z, maxSize)
  {
    hide Step;
    assert [x, y, z] == [x] + [y, z];
    RunOne(s, x, [y, z], maxSize);
    RunTwo(Step(s, x, maxSize), y, z, maxSize);
  }

  // A client that marks each change at once never loses a value, however small the cache: what it
  // reads is what a plain map would hold.
  lemma {:induction false} MarkedRunsRefine<K, V>(s: State<K, V>, us: seq<Use<K, V>>, maxSize: nat)
    requires Sound(s, maxSize) && maxSize > 0 && Saved(s)
    ensures var t := Run(s, OpsOfAll(us), maxSize);
      Sound(t, maxSize) && Saved(t) && View(t) == IntendedAll(View(s), us)
    decreases us
  {
    hide Sound, Saved, View, OpsOf;
    if us != [] {
      RunConcat(s, OpsOf(us[0]), OpsOfAll(us[1..]), maxSize);
      UseKeeps(s, us[0], maxSize);
      MarkedRunsRefine(Run(s, OpsOf(us[0]), maxSize), us[1..], maxSize);
    }
  }

  // ---- The cache ----

  // What the flusher writes to.
  class Disk<K(==), V> {
    var pages: map<K, V>

    constructor (pages: map<K, V>)
      ensures this.pages == pages
    {
      this.pages := pages;
    }

    method Write(key: K, value: V)
      modifies this
      ensures pages == old(pages)[key := value]
    {
      pages := pages[key := value];
    }
  }

  class Cache<K(==), V> {
    const maxSize: nat
    const policy: LruPolicy<K>
    const disk: Disk<K, V>
    var entries: map<K, Entry<V>>

    ghost function Snapshot(): State<K, V>
      reads this, policy, disk
    {
      State(entries, policy.order, disk.pages)
    }

    ghost predicate Valid()
      reads this, policy, disk
    {
      maxSize > 0 && policy.Valid() && Sound(Snapshot(), maxSize)
    }

    constructor (disk: Disk<K, V>, maxSize: nat)
      requires maxSize > 0
      ensures Valid() && this.disk == disk && fresh(policy) && this.maxSize == maxSize
      ensures Snapshot() == State(map[], [], disk.pages)
    {
      this.maxSize := maxSize;
      this.disk := disk;
      policy := new LruPolicy<K>();
      entries := map[];
    }

    method PutEntry(key: K, value: V)
      requires Valid()
      modifies this, policy, disk
      ensures Valid() && Snapshot() == Put(old(Snapshot()), key, value, maxSize)
    {
      hide Sound, Touched;
      ghost var before := Snapshot();
      PutSound(before, key, value, maxSize);
      if key in entries {
        entries := entries[key := entries[key].(value := value)];
        policy.Touch(key);
        return;
      }
      if |entries| >= maxSize {
        SomeKey(before, maxSize);
        EvictEntry();
      }
      entries := entries[key := Entry(value, false)];
      policy.Touch(key);
    }

    method Find(key: K) returns (value: Option<V>)
      requires Valid()
      modifies policy
      ensures Valid() && Snapshot() == Get(old(Snapshot()), key)
      ensures value == if key in entries then Some(entries[key].value) else None
    {
      hide Sound, Touched;
      ghost var before := Snapshot();
      GetSound(before, key, maxSize);
      if key !in entries {
        return None;
      }
      policy.Touch(key);
      return Some(entries[key].value);
    }

    method Mark(key: K)
      requires Valid()
      modifies this, policy
      ensures Valid() && Snapshot() == MarkDirty(old(Snapshot()), key)
    {
      hide Sound, Touched;
      ghost var before := Snapshot();
      MarkDirtySound(before, key, maxSize);
      if key !in entries {
        return;
      }
      policy.Touch(key);
      entries := entries[key := entries[key].(dirty := true)];
    }

    // Writes through the pointer that Find returned.
    method Write(key: K, value: V)
      requires Valid()
      modifies this
      ensures Valid() && Snapshot() == Assign(old(Snapshot()), key, value)
    {
      if key in entries {
        ghost var before := entries;
        entries := entries[key := entries[key].(value := value)];
        SameSize(before, entries, key);
        assert entries.Keys == before.Keys;
      }
    }

    method EvictEntry()
      requires policy.Valid() && policy.order != []
      modifies this, policy, disk
      ensures policy.Valid() && Snapshot() == EvictOne(old(Snapshot()))
    {
      var victim := policy.Evict();
      if victim !in entries {
        assert entries - {victim} == entries;
        return;
      }
      if entries[victim].dirty {
        disk.Write(victim, entries[victim].value);
      }
      entries := entries - {victim};
    }

    // Writes the dirty entries among keys, in any order.
    method FlushKeys(keys: set<K>)
      requires Valid()
      modifies this, disk
      ensures Valid() && Snapshot() == Flush(old(Snapshot()), keys)
    {
      hide Sound, Distinct, Flush;
      ghost var before := Snapshot();
      StepSound(before, OpFlush(keys), maxSize);
      FlushNone(before);
      var rest := entries.Keys;
      ghost var done: set<K> := {};
      while rest != {}
        invariant rest + done == before.entries.Keys == entries.Keys
        invariant Snapshot() == Flush(before, keys * done)
        decreases |rest|
      {
        var k :| k in rest;
        rest := rest - {k};
        FlushMore(before, keys, done, k);
        if k in keys && entries[k].dirty {
          disk.Write(k, entries[k].value);
          entries := entries[k := entries[k].(dirty := false)];
        }
        done := done + {k};
      }
      FlushDone(before, keys);
    }
  }

  lemma FlushNone<K, V>(s: State<K, V>)
    ensures forall keys: set<K> :: Flush(s, keys * {}) == s
  {
    forall keys: set<K> ensures Flush(s, keys * {}) == s {
      assert Flush(s, keys * {}).entries == s.entries;
      assert Flush(s, keys * {}).disk == s.disk;
    }
  }

  lemma FlushMore<K, V>(s: State<K, V>, keys: set<K>, done: set<K>, k: K)
    requires k in s.entries
    ensures var t, u := Flush(s, keys * done), Flush(s, keys * (done + {k}));
      && k in t.entries
      && u == if k in keys && t.entries[k].dirty then
                t.(entries := t.entries[k := t.entries[k].(dirty := false)], disk := t.disk[k := t.entries[k].value])
              else t
  {
    hide Flush;
    if k in keys && k !in done {
      FlushAdd(s, keys * done, k);
      assert keys * (done + {k}) == keys * done + {k};
    } else {
      assert keys * (done + {k}) == keys * done;
      FlushedClean(s, keys * done, k);
    }
  }

  lemma FlushedClean<K, V>(s: State<K, V>, ks: set<K>, k: K)
    requires k in s.entries
    ensures k in Flush(s, ks).entries && (k in ks ==> !Flush(s, ks).entries[k].dirty)
  {
  }

  lemma FlushAdd<K, V>(s: State<K, V>, ks: set<K>, k: K)
    requires k in s.entries && k !in ks
    ensures var t, u := Flush(s, ks), Flush(s, ks + {k});
      && k in t.entries
      && u == if t.entries[k].dirty then
                t.(entries := t.entries[k := t.entries[k].(dirty := false)], disk := t.disk[k := t.entries[k].value])
              else t
  {
    var t, u := Flush(s, ks), Flush(s, ks + {k});
    if t.entries[k].dirty {
      assert u.entries == t.entries[k := t.entries[k].(dirty := false)];
      assert u.disk == t.disk[k := t.entries[k].value];
    } else {
      assert u.entries == t.entries;
      assert u.disk == t.disk;
    }
  }

  lemma FlushDone<K, V>(s: State<K, V>, keys: set<K>)
    ensures Flush(s, keys * s.entries.Keys) == Flush(s, keys)
  {
    assert Flush(s, keys * s.entries.Keys).entries == Flush(s, keys).entries;
    assert Flush(s, keys * s.entries.Keys).disk == Flush(s, keys).disk;
  }

  lemma SomeKey<K, V>(s: State<K, V>, maxSize: nat)
    requires Sound(s, maxSize) && |s.entries| >= maxSize > 0
    ensures s.order != []
  {
    var k :| k in s.entries.Keys;
    assert k in s.order;
  }
}
