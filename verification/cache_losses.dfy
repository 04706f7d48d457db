/**
 What becomes of a cached change that is not marked, as other keys are read.
 */
module CacheLosses {
  import opened Types
  import opened LruPolicies
  import opened Caches

  function Loads<K, V>(ks: seq<K>): seq<Op<K, V>> {
    if ks == [] then [] else [OpLoad(ks[0])] + Loads(ks[1..])
  }

  ghost function SetOf<K>(order: seq<K>): set<K> {
    set k | k in order
  }

  // Exactly the keys in touched stand in front of the key.
  ghost predicate Stands<K, V>(s: State<K, V>, key: K, touched: set<K>) {
    |touched| < |s.order| && s.order[|touched|] == key && SetOf(s.order[..|touched|]) == touched
  }

  // The key has an unmarked value that the disk does not have, and since it was last touched exactly the
  // keys in touched have been.
  ghost predicate Unmarked<K, V>(s: State<K, V>, key: K, touched: set<K>, maxSize: nat) {
    Sound(s, maxSize) && Unsaved(s, key) && Stands(s, key, touched)
  }

  // It is the only value that is not on disk.
  ghost predicate Waiting<K, V>(s: State<K, V>, key: K, read: set<K>, maxSize: nat) {
    Unmarked(s, key, read, maxSize) && SavedBut(s, key)
  }

  // The readable contents with the key back at what the disk has.
  function Reverted<K(==), V>(s: State<K, V>, key: K): map<K, V> {
    if key in s.disk then View(s)[key := s.disk[key]] else View(s) - {key}
  }

  // ---- The policy's list ----

  lemma {:induction false} DistinctSize<K>(order: seq<K>)
    requires Distinct(order)
    ensures |SetOf(order)| == |order|
  {
    if order != [] {
      DistinctSize(order[1..]);
      assert SetOf(order) == SetOf(order[1..]) + {order[0]};
    }
  }

  lemma {:induction false} WithoutConcat<K>(a: seq<K>, b: seq<K>, k: K)
    ensures Without(a + b, k) == Without(a, k) + Without(b, k)
  {
    if a == [] {
      assert a + b == b;
    } else {
      assert (a + b)[1..] == a[1..] + b;
      WithoutConcat(a[1..], b, k);
    }
  }

  // Touching x moves it in front of the key, one place further back if it was not there already.
  lemma TouchedBehind<K>(order: seq<K>, n: nat, x: K)
    requires Distinct(order) && n < |order| && x != order[n]
    ensures var read := SetOf(order[..n]) + {x};
      var t := Touched(order, x);
      |read| < |t| && t[|read|] == order[n] && SetOf(t[..|read|]) == read
  {
    hide Distinct;
    var front, back := order[..n], order[n + 1..];
    var f, b := Without(front, x), Without(back, x);
    assert Distinct(front) by { PrefixDistinct(order, n); }
    assert Touched(order, x) == [x] + f + [order[n]] + b by {
      assert order == front + ([order[n]] + back);
      WithoutConcat(front, [order[n]] + back, x);
      WithoutConcat([order[n]], back, x);
    }
    WithoutIs(front, x);
    DistinctSize(f);
    var read := SetOf(front) + {x};
    assert SetOf(f) == read - {x};
    assert ([x] + f + [order[n]] + b)[..|f| + 1] == [x] + f;
    assert SetOf([x] + f) == read;
  }

  lemma PrefixDistinct<K>(order: seq<K>, n: nat)
    requires Distinct(order) && n <= |order|
    ensures Distinct(order[..n])
  {
  }

  lemma OrderSize<K, V>(s: State<K, V>, maxSize: nat)
    requires Sound(s, maxSize)
    ensures |s.order| == |s.entries| <= maxSize
  {
    DistinctSize(s.order);
    assert SetOf(s.order) == s.entries.Keys;
  }

  // ---- One read ----

  lemma MissingRead<K, V>(s: State<K, V>, x: K, maxSize: nat)
    requires x !in View(s)
    ensures Load(s, x, maxSize) == s
  {
  }

  // A cached key is only touched.
  lemma CachedRead<K, V>(s: State<K, V>, key: K, read: set<K>, x: K, maxSize: nat)
    requires Waiting(s, key, read, maxSize) && x != key && x in s.entries
    ensures Load(s, x, maxSize) == s.(order := Touched(s.order, x))
    ensures Waiting(Load(s, x, maxSize), key, read + {x}, maxSize)
  {
    hide Touched, Distinct;
    TouchedBehind(s.order, |read|, x);
    GetSound(s, x, maxSize);
  }

  lemma EvictOther<K, V>(s: State<K, V>, key: K, read: set<K>, maxSize: nat)
    requires Waiting(s, key, read, maxSize) && Victim(s) != key
    ensures var t := EvictOne(s);
      && Waiting(t, key, read, maxSize) && |t.entries| < maxSize && t.entries.Keys <= s.entries.Keys
      && View(t) == View(s) && Reverted(t, key) == Reverted(s, key)
  {
    hide Sound, View, Unsaved, EvictOne, SavedBut;
    EvictOneSound(s, maxSize);
    VictimCached(s, maxSize);
    EvictedParts(s);
    EvictedSaved(s, key);
    assert EvictOne(s).order[..|read|] == s.order[..|read|];
  }

  lemma VictimCached<K, V>(s: State<K, V>, maxSize: nat)
    requires Sound(s, maxSize) && s.order != []
    ensures Victim(s) in s.entries
  {
    assert Victim(s) in s.order;
  }

  lemma EvictedParts<K, V>(s: State<K, V>)
    requires s.order != []
    ensures EvictOne(s).order == s.order[..|s.order| - 1]
    ensures EvictOne(s).entries.Keys == s.entries.Keys - {Victim(s)}
  {
  }

  // A saved victim changes nothing that can be read, nor what is saved.
  lemma EvictedSaved<K, V>(s: State<K, V>, key: K)
    requires s.order != [] && Victim(s) in s.entries && Victim(s) != key && SavedBut(s, key) && Unsaved(s, key)
    ensures var t := EvictOne(s);
      && SavedBut(t, key) && Unsaved(t, key) && View(t) == View(s)
      && (key in t.disk <==> key in s.disk) && (key in t.disk ==> t.disk[key] == s.disk[key])
  {
    var t := EvictOne(s);
    assert !Unsaved(s, Victim(s));
    assert View(t) == View(s);
    forall j | j in t.entries && j != key ensures !Unsaved(t, j) {
      assert !Unsaved(s, j);
    }
  }

  // A key that is not cached is put in front.
  lemma NewRead<K, V>(r: State<K, V>, key: K, read: set<K>, x: K, maxSize: nat)
    requires Waiting(r, key, read, maxSize) && |r.entries| < maxSize && x !in r.entries && x in r.disk
    ensures var t := Load(r, x, maxSize);
      Waiting(t, key, read + {x}, maxSize) && View(t) == View(r) && Reverted(t, key) == Reverted(r, key)
  {
    hide Touched, Sound, Distinct;
    var t := Put(r, x, r.disk[x], maxSize);
    assert t == r.(entries := r.entries[x := Entry(r.disk[x], false)], order := Touched(r.order, x));
    PutNew(r, x, r.disk[x], maxSize);
    assert key in r.entries && x != key;
    assert Distinct(r.order) by { SoundDistinct(r, maxSize); }
    TouchedBehind(r.order, |read|, x);
    assert View(t) == View(r);
    assert Waiting(t, key, read + {x}, maxSize);
    TouchAgain(r.order, x, t.order);
  }

  lemma SoundDistinct<K, V>(s: State<K, V>, maxSize: nat)
    requires Sound(s, maxSize)
    ensures Distinct(s.order)
  {
  }

  lemma TouchAgain<K>(order: seq<K>, x: K, t: seq<K>)
    requires Distinct(order) && t == Touched(order, x)
    ensures Touched(t, x) == t
  {
    WithoutIs(order, x);
    NothingWithout(Without(order, x), x);
  }

  lemma {:induction false} NothingWithout<K>(order: seq<K>, x: K)
    requires x !in order
    ensures Without(order, x) == order
  {
    if order != [] {
      NothingWithout(order[1..], x);
    }
  }

  // Reading another key: the unmarked value goes exactly when that makes maxSize keys read.
  lemma OneRead<K, V>(s: State<K, V>, key: K, read: set<K>, x: K, maxSize: nat)
    requires Waiting(s, key, read, maxSize) && maxSize > 0 && x != key && x in View(s)
    ensures var t := Load(s, x, maxSize);
      if |read + {x}| < maxSize
      then Waiting(t, key, read + {x}, maxSize) && View(t) == View(s) && Reverted(t, key) == Reverted(s, key)
      else Sound(t, maxSize) && Saved(t) && View(t) == Reverted(s, key)
  {
    hide Sound, SavedBut, Saved, Unsaved, Touched, View, Reverted, EvictOne;
    ReadBound(s, key, read, x, maxSize);
    if x in s.entries {
      CachedRead(s, key, read, x, maxSize);
      ReadBound(Load(s, x, maxSize), key, read + {x}, x, maxSize);
      SameReadable(s, s.(order := Touched(s.order, x)), key);
    } else {
      UncachedOnDisk(s, x);
      if !Evicts(s, x, maxSize) {
        NewRead(s, key, read, x, maxSize);
        ReadBound(Load(s, x, maxSize), key, read + {x}, x, maxSize);
      } else if Victim(s) != key {
        EvictOther(s, key, read, maxSize);
        EvictedParts(s);
        EvictKeepsDisk(s, x);
        LoadIsAfterEviction(s, x, maxSize);
        NewRead(EvictOne(s), key, read, x, maxSize);
        ReadBound(Load(EvictOne(s), x, maxSize), key, read + {x}, x, maxSize);
      } else {
        KeyEvicted(s, key, x, maxSize);
      }
    }
  }

  lemma ReadBound<K, V>(s: State<K, V>, key: K, read: set<K>, x: K, maxSize: nat)
    requires Waiting(s, key, read, maxSize)
    ensures |read| < |s.order| == |s.entries| <= maxSize && key in s.entries
    ensures x !in s.entries && Victim(s) == key ==> |s.order| == |read| + 1 && |read + {x}| == |read| + 1
  {
    OrderSize(s, maxSize);
    if x !in s.entries {
      assert x !in s.order;
      assert x !in SetOf(s.order[..|read|]);
    }
    if Victim(s) == key {
      assert |read| == |s.order| - 1;
    }
  }

  lemma SameReadable<K, V>(s: State<K, V>, t: State<K, V>, key: K)
    requires t.entries == s.entries && t.disk == s.disk
    ensures View(t) == View(s) && Reverted(t, key) == Reverted(s, key)
  {
  }

  lemma UncachedOnDisk<K, V>(s: State<K, V>, x: K)
    requires x in View(s) && x !in s.entries
    ensures x in s.disk
  {
  }

  lemma EvictKeepsDisk<K, V>(s: State<K, V>, x: K)
    requires s.order != [] && x in s.disk && x !in s.entries
    ensures x in EvictOne(s).disk && EvictOne(s).disk[x] == s.disk[x] && x !in EvictOne(s).entries
  {
  }

  lemma LoadIsAfterEviction<K, V>(s: State<K, V>, x: K, maxSize: nat)
    requires Evicts(s, x, maxSize) && x in s.disk && |EvictOne(s).entries| < maxSize
    ensures Load(s, x, maxSize) == Load(EvictOne(s), x, maxSize)
  {
    hide Touched;
  }

  // The key itself is the victim.
  lemma KeyEvicted<K, V>(s: State<K, V>, key: K, x: K, maxSize: nat)
    requires Sound(s, maxSize) && maxSize > 0 && SavedBut(s, key) && Unsaved(s, key)
    requires Evicts(s, x, maxSize) && x in s.disk && x != key && Victim(s) == key
    ensures var t := Load(s, x, maxSize); Sound(t, maxSize) && Saved(t) && View(t) == Reverted(s, key)
  {
    hide Touched, Sound, View, Load, Reverted, Saved, Unsaved;
    var r := EvictOne(s);
    EvictOneSound(s, maxSize);
    KeyGone(s, key);
    EvictKeepsDisk(s, x);
    LoadIsAfterEviction(s, x, maxSize);
    SafeStep(r, OpLoad(x), maxSize);
    LoadSaved(r, x, maxSize);
  }

  lemma KeyGone<K, V>(s: State<K, V>, key: K)
    requires s.order != [] && Victim(s) == key && SavedBut(s, key) && Unsaved(s, key)
    ensures var t := EvictOne(s); Saved(t) && View(t) == Reverted(s, key)
  {
    var t := EvictOne(s);
    forall j | j in t.entries ensures !Unsaved(t, j) {
      assert !Unsaved(s, j);
    }
  }

  // ---- Many reads ----

  lemma {:induction false} SavedReads<K, V>(s: State<K, V>, ks: seq<K>, maxSize: nat)
    requires Sound(s, maxSize) && Saved(s) && maxSize > 0
    ensures var t := Run(s, Loads(ks), maxSize); Sound(t, maxSize) && Saved(t) && View(t) == View(s)
    decreases ks
  {
    hide Sound, Saved, Load, View;
    if ks != [] {
      RunOne(s, OpLoad(ks[0]), Loads(ks[1..]), maxSize);
      SafeStep(s, OpLoad(ks[0]), maxSize);
      LoadSaved(s, ks[0], maxSize);
      SavedReads(Load(s, ks[0], maxSize), ks[1..], maxSize);
    } else {
      assert Loads<K, V>(ks) == [];
    }
  }

  // Which of the keys read exist.
  ghost function Existing<K, V>(m: map<K, V>, ks: seq<K>): set<K> {
    set k | k in ks && k in m
  }

  lemma {:induction false} WaitingReads<K, V>(s: State<K, V>, key: K, read: set<K>, ks: seq<K>, maxSize: nat)
    requires Waiting(s, key, read, maxSize) && maxSize > 0 && key !in ks
    ensures var t := Run(s, Loads(ks), maxSize);
      View(t) == if |read + Existing(View(s), ks)| < maxSize then View(s) else Reverted(s, key)
    decreases ks
  {
    hide Waiting, Load, View, Reverted, Sound, Saved;
    if ks == [] {
      assert Loads<K, V>(ks) == [];
      assert read + Existing(View(s), ks) == read;
      ReadBound(s, key, read, key, maxSize);
    } else {
      var x, rest := ks[0], ks[1..];
      assert ks == [x] + rest;
      var t := Load(s, x, maxSize);
      RunOne(s, OpLoad(x), Loads(rest), maxSize);
      if x !in View(s) {
        MissingRead(s, x, maxSize);
        assert Existing(View(s), ks) == Existing(View(s), rest);
        WaitingReads(t, key, read, rest, maxSize);
      } else {
        OneRead(s, key, read, x, maxSize);
        assert read + Existing(View(s), ks) == read + {x} + Existing(View(s), rest);
        if |read + {x}| < maxSize {
          WaitingReads(t, key, read + {x}, rest, maxSize);
        } else {
          SavedReads(t, rest, maxSize);
          SubsetSize(read + {x}, read + {x} + Existing(View(s), rest));
        }
      }
    }
  }

  lemma SubsetSize<K>(a: set<K>, b: set<K>)
    requires a <= b
    ensures |a| <= |b|
  {
    assert b == a + (b - a);
  }

  // A key that was put and not marked stays readable, with all else, exactly as long as fewer than maxSize
  // different keys have been read since; then it is gone, and nothing else is.
  lemma UnmarkedIsLost<K, V>(s: State<K, V>, key: K, value: V, ks: seq<K>, maxSize: nat)
    requires Sound(s, maxSize) && Saved(s) && maxSize > 0 && key !in View(s) && key !in ks
    ensures View(Run(Put(s, key, value, maxSize), Loads(ks), maxSize)) ==
            if |Existing(View(s), ks)| < maxSize then View(s)[key := value] else View(s)
  {
    hide Sound, Saved, Put, View, Reverted, Waiting;
    var t := Put(s, key, value, maxSize);
    SafeStep(s, OpPut(key, value), maxSize);
    PutWaits(s, key, value, maxSize);
    WaitingReads(t, key, {}, ks, maxSize);
    assert {} + Existing(View(t), ks) == Existing(View(s), ks);
    assert View(s)[key := value] - {key} == View(s);
  }

  lemma PutWaits<K, V>(s: State<K, V>, key: K, value: V, maxSize: nat)
    requires Sound(s, maxSize) && Saved(s) && maxSize > 0 && key !in View(s)
    ensures var t := Put(s, key, value, maxSize);
      Waiting(t, key, {}, maxSize) && Reverted(t, key) == View(t) - {key}
  {
    hide Sound, Without, Saved, SavedBut;
    PutSound(s, key, value, maxSize);
    PutSavedBut(s, key, value, maxSize);
    var t := Put(s, key, value, maxSize);
    NotWritten(s, key, maxSize);
    assert t.order[..0] == [];
  }

  lemma NotWritten<K, V>(s: State<K, V>, key: K, maxSize: nat)
    requires Sound(s, maxSize) && key !in View(s)
    ensures key !in s.entries && key !in MakeRoom(s, key, maxSize).disk
  {
  }

  // The same for a value written through the pointer of a lookup and not marked: the key then reads as on disk.
  lemma UnmarkedChangeIsLost<K, V>(s: State<K, V>, key: K, value: V, ks: seq<K>, maxSize: nat)
    requires Sound(s, maxSize) && Saved(s) && maxSize > 0 && key !in ks
    requires key in s.disk && value != s.disk[key]
    requires !(key in s.entries && s.entries[key].dirty)
    ensures var t := Assign(Load(s, key, maxSize), key, value);
      View(t) == View(s)[key := value] &&
      View(Run(t, Loads(ks), maxSize)) == if |Existing(View(s), ks)| < maxSize then View(s)[key := value] else View(s)
  {
    hide Sound, Saved, Load, Assign, View, Reverted, Waiting;
    var a := Load(s, key, maxSize);
    SafeStep(s, OpLoad(key), maxSize);
    LoadSaved(s, key, maxSize);
    LoadCaches(s, key, maxSize);
    CleanReads(s, key);
    SafeStep(a, OpAssign(key, value), maxSize);
    var t := Assign(a, key, value);
    AssignWaits(s, key, value, maxSize);
    WaitingReads(t, key, {}, ks, maxSize);
    assert {} + Existing(View(t), ks) == Existing(View(s), ks);
    assert View(s)[key := value][key := s.disk[key]] == View(s);
  }

  lemma CleanReads<K, V>(s: State<K, V>, key: K)
    requires Saved(s) && key in s.disk && !(key in s.entries && s.entries[key].dirty)
    ensures key in View(s) && View(s)[key] == s.disk[key]
  {
    assert key in s.entries ==> !Unsaved(s, key);
  }

  lemma AssignWaits<K, V>(s: State<K, V>, key: K, value: V, maxSize: nat)
    requires Sound(s, maxSize) && Saved(s) && maxSize > 0
    requires key in s.disk && value != s.disk[key]
    requires !(key in s.entries && s.entries[key].dirty)
    ensures var t := Assign(Load(s, key, maxSize), key, value);
      Waiting(t, key, {}, maxSize) && Reverted(t, key) == View(t)[key := s.disk[key]]
  {
    hide Sound, Load, Assign, Saved, SavedBut, View, Unsaved;
    StepSound(s, OpLoad(key), maxSize);
    LoadSaved(s, key, maxSize);
    LoadedClean(s, key, maxSize);
    var a := Load(s, key, maxSize);
    StepSound(a, OpAssign(key, value), maxSize);
    AssignSavedBut(a, key, value);
    AssignedClean(a, key, value);
    var t := Assign(a, key, value);
    assert t.order[..0] == [];
  }

  // A key that was just read stands first and, if it is clean, as on disk.
  lemma LoadedClean<K, V>(s: State<K, V>, key: K, maxSize: nat)
    requires key in s.disk && !(key in s.entries && s.entries[key].dirty)
    ensures var a := Load(s, key, maxSize);
      && a.order != [] && a.order[0] == key && key in a.entries && !a.entries[key].dirty
      && key in a.disk && a.disk[key] == s.disk[key]
  {
    hide Without;
    if key !in s.entries && Evicts(s, key, maxSize) {
      EvictKeepsDisk(s, key);
    }
  }

  lemma AssignedClean<K, V>(a: State<K, V>, key: K, value: V)
    requires key in a.entries && !a.entries[key].dirty && key in a.disk && a.disk[key] != value
    ensures var t := Assign(a, key, value); Unsaved(t, key) && t.order == a.order && t.disk == a.disk
  {
  }

  // ---- Any operations on other keys ----

  // The keys that an operation puts in front.
  function Touches<K, V>(s: State<K, V>, op: Op<K, V>): set<K> {
    match op
    case OpLoad(x) => if x in View(s) then {x} else {}
    case OpPut(x, _) => {x}
    case OpMarkDirty(x) => if x in s.entries then {x} else {}
    case _ => {}
  }

  function TouchedBy<K, V>(s: State<K, V>, ops: seq<Op<K, V>>, maxSize: nat): set<K>
    decreases ops
  {
    if ops == [] then {} else Touches(s, ops[0]) + TouchedBy(Step(s, ops[0], maxSize), ops[1..], maxSize)
  }

  // A flush may name the key: it has nothing to write.
  predicate OnOthers<K(==), V>(op: Op<K, V>, key: K) {
    op.OpFlush? || op.key != key
  }

  // The key's entry and what the disk has for it.
  ghost predicate SameAt<K, V>(s: State<K, V>, t: State<K, V>, key: K) {
    && (key in t.entries <==> key in s.entries) && (key in t.entries ==> t.entries[key] == s.entries[key])
    && At(t.disk, key) == At(s.disk, key)
  }

  lemma SameUnsaved<K, V>(s: State<K, V>, t: State<K, V>, key: K)
    requires SameAt(s, t, key) && Unsaved(s, key)
    ensures Unsaved(t, key)
  {
  }

  lemma StandsBound<K, V>(s: State<K, V>, key: K, touched: set<K>, maxSize: nat)
    requires Sound(s, maxSize) && Stands(s, key, touched)
    ensures |touched| < |s.order| == |s.entries| <= maxSize && key in s.order && key in s.entries
    ensures forall x | x in touched :: x in s.entries
  {
    OrderSize(s, maxSize);
    assert key in s.order;
    forall x | x in touched ensures x in s.entries {
      assert x in SetOf(s.order[..|touched|]);
      assert x in s.order;
    }
  }

  // Touching another key.
  lemma StandsTouched<K, V>(s: State<K, V>, t: State<K, V>, key: K, touched: set<K>, x: K, maxSize: nat)
    requires Sound(s, maxSize) && Stands(s, key, touched) && x != key && t.order == Touched(s.order, x)
    ensures Stands(t, key, touched + {x})
  {
    hide Touched, Distinct;
    assert Distinct(s.order) by { SoundDistinct(s, maxSize); }
    TouchedBehind(s.order, |touched|, x);
  }

  // Making room for a key that is not cached.
  lemma RoomMade<K, V>(s: State<K, V>, key: K, touched: set<K>, x: K, maxSize: nat)
    requires Unmarked(s, key, touched, maxSize) && x != key && x !in s.entries && maxSize > 0
    ensures var r := MakeRoom(s, x, maxSize);
      && Sound(r, maxSize) && |r.entries| < maxSize && x !in r.entries && At(r.disk, key) == At(s.disk, key)
      && (if key in r.entries then SameAt(s, r, key) && Stands(r, key, touched) else |touched + {x}| >= maxSize)
  {
    hide Sound, Unsaved, EvictOne;
    StandsBound(s, key, touched, maxSize);
    if Evicts(s, x, maxSize) {
      EvictOneSound(s, maxSize);
      EvictOneKeys(s, x);
      EvictedParts(s);
      OrderSize(EvictOne(s), maxSize);
      EvictedAt(s, key);
      if Victim(s) != key {
        assert EvictOne(s).order[..|touched|] == s.order[..|touched|];
        NotLast(s, |touched|, key);
      } else {
        assert x !in touched;
        LastStands(s, key, touched, maxSize);
      }
    } else {
      NoRoomNeeded(s, x, maxSize);
    }
  }

  lemma NotLast<K, V>(s: State<K, V>, n: nat, key: K)
    requires n < |s.order| && s.order[n] == key && Victim(s) != key
    ensures n < |s.order| - 1
  {
  }

  lemma LastStands<K, V>(s: State<K, V>, key: K, touched: set<K>, maxSize: nat)
    requires Sound(s, maxSize) && Stands(s, key, touched) && Victim(s) == key
    ensures |touched| == |s.order| - 1
  {
  }

  // An unmarked victim writes nothing; another victim only itself.
  lemma EvictedAt<K, V>(s: State<K, V>, key: K)
    requires s.order != [] && Unsaved(s, key)
    ensures At(EvictOne(s).disk, key) == At(s.disk, key)
    ensures Victim(s) != key ==> SameAt(s, EvictOne(s), key)
    ensures Victim(s) == key ==> key !in EvictOne(s).entries
  {
  }

  lemma PutStands<K, V>(s: State<K, V>, key: K, touched: set<K>, x: K, value: V, maxSize: nat)
    requires Unmarked(s, key, touched, maxSize) && x != key && maxSize > 0
    ensures var t := Put(s, x, value, maxSize);
      && At(t.disk, key) == At(s.disk, key)
      && (if key in t.entries then SameAt(s, t, key) && Stands(t, key, touched + {x}) else |touched + {x}| >= maxSize)
  {
    hide Sound, Unsaved, Stands, Touched, MakeRoom;
    if x in s.entries {
      StandsBound(s, key, touched, maxSize);
      StandsTouched(s, Put(s, x, value, maxSize), key, touched, x, maxSize);
    } else {
      RoomMade(s, key, touched, x, maxSize);
      var r := MakeRoom(s, x, maxSize);
      if key in r.entries {
        StandsTouched(r, Put(s, x, value, maxSize), key, touched, x, maxSize);
      }
    }
  }

  lemma GetStands<K, V>(s: State<K, V>, key: K, touched: set<K>, x: K, maxSize: nat)
    requires Sound(s, maxSize) && x != key && x in s.entries && (key in s.entries ==> Stands(s, key, touched))
    ensures var t := Get(s, x); SameAt(s, t, key) && (key in t.entries ==> Stands(t, key, touched + {x}))
  {
    hide Sound, Stands, Touched;
    if key in s.entries {
      StandsTouched(s, Get(s, x), key, touched, x, maxSize);
    }
  }

  // One operation on another key: the unmarked value goes exactly when that makes maxSize keys touched.
  lemma StepStands<K, V>(s: State<K, V>, key: K, touched: set<K>, op: Op<K, V>, maxSize: nat)
    requires Unmarked(s, key, touched, maxSize) && maxSize > 0 && OnOthers(op, key)
    ensures var t, now := Step(s, op, maxSize), touched + Touches(s, op);
      && Sound(t, maxSize) && At(t.disk, key) == At(s.disk, key)
      && (if |now| < maxSize then Unmarked(t, key, now, maxSize) && SameAt(s, t, key) else key !in t.entries)
  {
    hide Sound, Unsaved, Stands, Touched, Put, Get, MakeRoom;
    var t := Step(s, op, maxSize);
    StepSound(s, op, maxSize);
    StandsBound(s, key, touched, maxSize);
    match op {
      case OpLoad(x) => LoadStands(s, key, touched, x, maxSize);
      case OpPut(x, value) => PutStands(s, key, touched, x, value, maxSize);
      case OpAssign(x, value) => SameOrder(s, t, key, touched);
      case OpMarkDirty(x) =>
        if x in s.entries {
          StandsTouched(s, t, key, touched, x, maxSize);
        } else {
          assert touched + {} == touched;
        }
      case OpFlush(keys) =>
        FlushAt(s, keys, key);
        SameOrder(s, t, key, touched);
    }
    if key in t.entries {
      SameUnsaved(s, t, key);
      StandsBound(t, key, touched + Touches(s, op), maxSize);
    }
  }

  lemma SameOrder<K, V>(s: State<K, V>, t: State<K, V>, key: K, touched: set<K>)
    requires t.order == s.order && Stands(s, key, touched)
    ensures Stands(t, key, touched + {})
  {
    assert touched + {} == touched;
  }

  lemma FlushAt<K, V>(s: State<K, V>, keys: set<K>, key: K)
    requires Unsaved(s, key)
    ensures SameAt(s, Flush(s, keys), key)
  {
  }

  lemma LoadStands<K, V>(s: State<K, V>, key: K, touched: set<K>, x: K, maxSize: nat)
    requires Unmarked(s, key, touched, maxSize) && x != key && maxSize > 0
    ensures var t := Load(s, x, maxSize);
      var now := touched + Touches(s, OpLoad(x));
      && At(t.disk, key) == At(s.disk, key)
      && (if key in t.entries then SameAt(s, t, key) && Stands(t, key, now) else |now| >= maxSize)
  {
    hide Sound, Unsaved, Stands, Put, Get;
    StandsBound(s, key, touched, maxSize);
    if x in s.entries {
      GetStands(s, key, touched, x, maxSize);
    } else if x in s.disk {
      PutStands(s, key, touched, x, s.disk[x], maxSize);
      PutSound(s, x, s.disk[x], maxSize);
      GetStands(Put(s, x, s.disk[x], maxSize), key, touched + {x}, x, maxSize);
      assert touched + {x} + {x} == touched + {x};
    } else {
      assert touched + {} == touched;
    }
  }

  lemma {:induction false} GoneStays<K, V>(s: State<K, V>, key: K, ops: seq<Op<K, V>>, maxSize: nat)
    requires key !in s.entries && forall op | op in ops :: OnOthers(op, key)
    ensures var t := Run(s, ops, maxSize); key !in t.entries && At(t.disk, key) == At(s.disk, key)
    decreases ops
  {
    hide Step;
    if ops != [] {
      assert ops[0] in ops;
      GoneStep(s, key, ops[0], maxSize);
      GoneStays(Step(s, ops[0], maxSize), key, ops[1..], maxSize);
    }
  }

  lemma GoneStep<K, V>(s: State<K, V>, key: K, op: Op<K, V>, maxSize: nat)
    requires key !in s.entries && OnOthers(op, key)
    ensures var t := Step(s, op, maxSize); key !in t.entries && At(t.disk, key) == At(s.disk, key)
  {
    hide Touched, Put;
    match op
    case OpLoad(x) =>
      if x !in s.entries && x in s.disk {
        GonePut(s, key, x, s.disk[x], maxSize);
      }
    case OpPut(x, value) => GonePut(s, key, x, value, maxSize);
    case _ =>
  }

  lemma GonePut<K, V>(s: State<K, V>, key: K, x: K, value: V, maxSize: nat)
    requires key !in s.entries && x != key
    ensures var t := Put(s, x, value, maxSize); key !in t.entries && At(t.disk, key) == At(s.disk, key)
  {
    hide Touched;
  }

  // Whatever is done to other keys, marked or not: an unmarked value is read back exactly as long as
  // fewer than maxSize other keys have been touched since the key was; then the key reads as on disk.
  lemma {:induction false} UnmarkedAmongOps<K, V>(s: State<K, V>, key: K, touched: set<K>, ops: seq<Op<K, V>>, maxSize: nat)
    requires Unmarked(s, key, touched, maxSize) && maxSize > 0 && forall op | op in ops :: OnOthers(op, key)
    ensures Lookup(Run(s, ops, maxSize), key) ==
            if |touched + TouchedBy(s, ops, maxSize)| < maxSize then Lookup(s, key) else At(s.disk, key)
    decreases ops
  {
    hide Sound, Unsaved, Stands, Step, Touches;
    StandsBound(s, key, touched, maxSize);
    if ops == [] {
      assert touched + {} == touched;
    } else {
      assert ops[0] in ops;
      var t, now := Step(s, ops[0], maxSize), touched + Touches(s, ops[0]);
      StepStands(s, key, touched, ops[0], maxSize);
      var rest := TouchedBy(t, ops[1..], maxSize);
      assert touched + TouchedBy(s, ops, maxSize) == now + rest;
      if |now| < maxSize {
        UnmarkedAmongOps(t, key, now, ops[1..], maxSize);
      } else {
        GoneStays(t, key, ops[1..], maxSize);
        SubsetSize(now, now + rest);
      }
    }
  }

  // A key just created, or just read and then changed, is where that starts.
  lemma PutUnmarked<K, V>(s: State<K, V>, key: K, value: V, maxSize: nat)
    requires Sound(s, maxSize) && maxSize > 0 && key !in View(s)
    ensures var t := Put(s, key, value, maxSize); Unmarked(t, key, {}, maxSize) && Lookup(t, key) == Some(value)
  {
    hide Sound, Without;
    PutSound(s, key, value, maxSize);
    NotWritten(s, key, maxSize);
    assert Put(s, key, value, maxSize).order[..0] == [];
  }
}
