// What the hash cache of src/common/fthash.c is for: a map whose entries expire
// and may be evicted. Its users insert only after a lookup that missed.
module ExpiringMap {
  import opened FtHash

  // For every key the value and birth last inserted, unless it was removed or
  // found expired since; and the keys evicted since they were last inserted.
  datatype Ideal = Ideal(m: map<int, (int, int)>, evicted: set<int>)

  predicate KeyIn(l: seq<Entry>, key: int) {
    FirstKey(l, key) < |l|
  }

  predicate HasKey(t: Table, h: Hash, key: int)
    requires t.buckets != []
  {
    KeyIn(t.buckets[Slot(h, |t.buckets|, key)], key)
  }

  function Live(m: map<int, (int, int)>, dead: int): map<int, (int, int)> {
    map k | k in m && dead <= m[k].1 :: m[k]
  }

  function LostKeys(t: Table, t': Table, h: Hash, m: map<int, (int, int)>): set<int>
    requires t.buckets != [] && t'.buckets != []
  {
    set k | k in m && HasKey(t, h, k) && !HasKey(t', h, k)
  }

  // There is an entry for one more value: a free one, or a new one, of which
  // there may be ten over the limit.
  predicate Room(t: Table, memory: bool) {
    t.free > 0 || (memory && t.numEntries < t.maxEntries + 10)
  }

  function IdealStep(s: Ideal, t: Table, h: Hash, e: Event): Ideal
    requires t.buckets != []
  {
    match e
    case Lookup(key, now) =>
      if key in s.m && now - t.ttl > s.m[key].1 then s.(m := s.m - {key}) else s
    case Insert(key, val, now, memory) =>
      if Room(t, memory) then Ideal(s.m[key := (val, now)], s.evicted - {key}) else s
    case Remove(key, _) => s.(m := s.m - {key})
    case Bury(now) => if t.lockCnt > 0 then s else s.(m := Live(s.m, now - t.ttl))
    case UnLockAll(_) => s.(evicted := s.evicted + LostKeys(t, Step(t, h, e).0, h, s.m))
    case SetMax(_, _) => s.(evicted := s.evicted + LostKeys(t, Step(t, h, e).0, h, s.m))
    case _ => s
  }

  // ---- The refinement ------------------------------------------------------------------

  // The keys of a bucket differ, and its entries are those of the map.
  ghost predicate Faithful(l: seq<Entry>, h: Hash, size: nat, b: nat, m: map<int, (int, int)>)
    requires size > 0
  {
    && (forall i, j :: 0 <= i < j < |l| ==> l[i].key != l[j].key)
    && forall i :: 0 <= i < |l| ==>
         Slot(h, size, l[i].key) == b && l[i].key in m && m[l[i].key] == (l[i].val, l[i].birth)
  }

  ghost predicate Refines(t: Table, h: Hash, s: Ideal) {
    && t.buckets != []
    && (forall b :: 0 <= b < |t.buckets| ==> Faithful(t.buckets[b], h, |t.buckets|, b, s.m))
    && (forall k :: k in s.m ==> HasKey(t, h, k) || k in s.evicted)
  }

  // A hit is the value inserted last, not removed and not expired; a miss is
  // for a key without such a value, or one that was evicted.
  lemma LookupAgrees(t: Table, h: Hash, s: Ideal, key: int, now: int)
    requires Refines(t, h, s)
    ensures match LookupStep(t, h, key, now).1
      case Some(v) => key in s.m && s.m[key].0 == v && now - t.ttl <= s.m[key].1
      case None => key !in s.m || now - t.ttl > s.m[key].1 || key in s.evicted
  {
  }

  // An insertion is refused exactly if there is no free entry, and the table is
  // full or memory is short; it then changes nothing. Otherwise the value is
  // found until its time is over.
  lemma InsertExactly(t: Table, h: Hash, key: int, val: int, now: int, memory: bool, later: int)
    requires t.buckets != [] && Counted(t) && later - t.ttl <= now
    ensures var (t', ok) := InsertStep(t, h, key, val, now, memory);
      && (ok <==> t.free > 0 || (memory && Total(t.buckets) + |t.locked| < t.maxEntries + 10))
      && (!ok ==> t' == t)
      && (ok ==> t'.buckets != [] && LookupStep(t', h, key, later).1 == Some(val))
  {
    hide Total;
  }

  // Removing hands over, frees, or keeps the very value that the map has.
  lemma RemoveAgrees(t: Table, h: Hash, s: Ideal, key: int, how: Removal)
    requires Refines(t, h, s)
    ensures var (t', val) := RemoveStep(t, h, key, how);
      if HasKey(t, h, key) then
        && key in s.m && val == (if how.Take? then Some(s.m[key].0) else None)
        && t'.freed == t.freed + (if how.Free? then multiset{s.m[key].0} else multiset{})
        && t'.handed == t.handed + (if how.Take? then multiset{s.m[key].0} else multiset{})
        && Vals(t'.locked) == Vals(t.locked) + (if how.Move? then multiset{s.m[key].0} else multiset{})
      else t' == t && val == None && (key in s.m ==> key in s.evicted)
  {
    hide Vals, Slot;
    var l := t.buckets[Slot(h, |t.buckets|, key)];
    assert Faithful(l, h, |t.buckets|, Slot(h, |t.buckets|, key), s.m);
    if HasKey(t, h, key) {
      ValsSnoc(t.locked, l[FirstKey(l, key)]);
    }
  }

  lemma KeyWithout(l: seq<Entry>, i: nat, k: int)
    requires i < |l| && k != l[i].key
    ensures KeyIn(Without(l, i), k) == KeyIn(l, k)
  {
    var r, f := Without(l, i), FirstKey(l, k);
    if f < |l| {
      assert r[if f < i then f else f - 1].key == k;
    }
  }

  lemma KeyFront(l: seq<Entry>, e: Entry, k: int)
    ensures KeyIn([e] + l, k) <==> k == e.key || KeyIn(l, k)
  {
  }

  // One bucket is exchanged; keys of other slots are untouched.
  lemma OneBucket(t: Table, t': Table, h: Hash, s: Ideal, s': Ideal, b: nat, l: seq<Entry>)
    requires Refines(t, h, s) && b < |t.buckets| && t'.buckets == t.buckets[b := l]
    requires Faithful(l, h, |t.buckets|, b, s'.m)
    requires forall k :: Slot(h, |t.buckets|, k) != b ==>
      (k in s'.m <==> k in s.m) && (k in s.m ==> s'.m[k] == s.m[k]) && (k in s.evicted ==> k in s'.evicted)
    requires forall k :: k in s'.m && Slot(h, |t.buckets|, k) == b ==> KeyIn(l, k) || k in s'.evicted
    ensures Refines(t', h, s')
  {
  }

  lemma FaithfulWithout(l: seq<Entry>, i: nat, stamp: nat, h: Hash, size: nat, b: nat, m: map<int, (int, int)>)
    requires size > 0 && Faithful(l, h, size, b, m) && i < |l|
    ensures Faithful(Without(l, i), h, size, b, m - {l[i].key})
    ensures Faithful([l[i].(used := stamp)] + Without(l, i), h, size, b, m)
  {
  }

  lemma LookupRefines(t: Table, h: Hash, s: Ideal, key: int, now: int)
    requires Refines(t, h, s)
    ensures Refines(LookupStep(t, h, key, now).0, h, IdealStep(s, t, h, Lookup(key, now)))
  {
    hide Slot, FirstKey, Without;
    var b := Slot(h, |t.buckets|, key);
    var l := t.buckets[b];
    var i := FirstKey(l, key);
    var t', s' := LookupStep(t, h, key, now).0, IdealStep(s, t, h, Lookup(key, now));
    assert Faithful(l, h, |t.buckets|, b, s.m);
    assert forall k :: k in s.m ==> HasKey(t, h, k) || k in s.evicted;
    if i < |l| {
      var l' := t'.buckets[b];
      FaithfulWithout(l, i, t.stamp + 1, h, |t.buckets|, b, s.m);
      forall k | k != key ensures KeyIn(l', k) == KeyIn(l, k) {
        KeyWithout(l, i, k);
        KeyFront(Without(l, i), l[i].(used := t.stamp + 1), k);
      }
      KeyFront(Without(l, i), l[i].(used := t.stamp + 1), key);
      OneBucket(t, t', h, s, s', b, l');
    } else {
      assert t.buckets[b := l] == t.buckets;
      assert Faithful(l, h, |t.buckets|, b, s'.m);
      OneBucket(t, t', h, s, s', b, l);
    }
  }

  // Removing whichever way removes the key for good.
  lemma RemoveRefines(t: Table, h: Hash, s: Ideal, key: int, how: Removal)
    requires Refines(t, h, s)
    ensures Refines(RemoveStep(t, h, key, how).0, h, IdealStep(s, t, h, Remove(key, how)))
  {
    hide Slot, FirstKey, Without;
    var b := Slot(h, |t.buckets|, key);
    var l := t.buckets[b];
    var i := FirstKey(l, key);
    var t', s' := RemoveStep(t, h, key, how).0, IdealStep(s, t, h, Remove(key, how));
    assert Faithful(l, h, |t.buckets|, b, s.m);
    assert forall k :: k in s.m ==> HasKey(t, h, k) || k in s.evicted;
    if i < |l| {
      FaithfulWithout(l, i, 0, h, |t.buckets|, b, s.m);
      forall k | k != key ensures KeyIn(Without(l, i), k) == KeyIn(l, k) {
        KeyWithout(l, i, k);
      }
      OneBucket(t, t', h, s, s', b, Without(l, i));
    } else {
      assert t.buckets[b := l] == t.buckets;
      OneBucket(t, t', h, s, s', b, l);
    }
  }

  // The proviso: the key is absent, as after a lookup that missed.
  lemma InsertRefines(t: Table, h: Hash, s: Ideal, key: int, val: int, now: int, memory: bool)
    requires Refines(t, h, s) && !HasKey(t, h, key)
    ensures Refines(InsertStep(t, h, key, val, now, memory).0, h, IdealStep(s, t, h, Insert(key, val, now, memory)))
  {
    hide Slot, FirstKey;
    var (t', ok) := InsertStep(t, h, key, val, now, memory);
    var s' := IdealStep(s, t, h, Insert(key, val, now, memory));
    if ok {
      var b := Slot(h, |t.buckets|, key);
      var l := t.buckets[b];
      var l' := t'.buckets[b];
      assert Faithful(l, h, |t.buckets|, b, s.m);
      assert l'[0].key == key && l'[1..] == l;
      forall k | k in s'.m && Slot(h, |t.buckets|, k) == b ensures KeyIn(l', k) || k in s'.evicted {
        KeyFront(l, l'[0], k);
        if k != key { assert HasKey(t, h, k) || k in s.evicted; }
      }
      OneBucket(t, t', h, s, s', b, l');
    }
  }

  // ---- Many buckets at once --------------------------------------------------------------

  lemma {:induction false} BuryShape(t: Table, b: nat, dead: int)
    requires b <= |t.buckets|
    ensures forall c :: 0 <= c < |t.buckets| ==>
      BuryFrom(t, b, dead).buckets[c] == if c < b then t.buckets[c] else Keep(t.buckets[c], dead)
    decreases |t.buckets| - b
  {
    if b < |t.buckets| {
      BuryShape(BuryBucket(t, b, dead), b + 1, dead);
    }
  }

  lemma {:induction false} KeepFaithful(l: seq<Entry>, dead: int, h: Hash, size: nat, b: nat, m: map<int, (int, int)>)
    requires size > 0 && Faithful(l, h, size, b, m)
    ensures Faithful(Keep(l, dead), h, size, b, Live(m, dead))
  {
    if l != [] {
      assert forall i :: 0 <= i < |l[1..]| ==> l[1..][i] == l[i + 1];
      KeepFaithful(l[1..], dead, h, size, b, m);
      var r := Keep(l[1..], dead);
      forall i | 0 <= i < |r| ensures r[i].key != l[0].key {
        assert r[i] in l[1..];
      }
    }
  }

  lemma KeepKey(l: seq<Entry>, dead: int, h: Hash, size: nat, b: nat, m: map<int, (int, int)>, k: int)
    requires size > 0 && Faithful(l, h, size, b, m) && KeyIn(l, k) && k in m && dead <= m[k].1
    ensures KeyIn(Keep(l, dead), k)
  {
  }

  lemma BuryRefines(t: Table, h: Hash, s: Ideal, now: int)
    requires Refines(t, h, s)
    ensures Refines(BuryStep(t, now), h, IdealStep(s, t, h, Bury(now)))
  {
    hide Slot, FirstKey, Keep, Faithful;
    if t.lockCnt == 0 {
      var dead := now - t.ttl;
      var t', s' := BuryStep(t, now), IdealStep(s, t, h, Bury(now));
      BuryShape(t, 0, dead);
      forall b | 0 <= b < |t.buckets| ensures Faithful(t'.buckets[b], h, |t'.buckets|, b, s'.m) {
        KeepFaithful(t.buckets[b], dead, h, |t.buckets|, b, s.m);
      }
      forall k | k in s'.m ensures HasKey(t', h, k) || k in s'.evicted {
        if k !in s.evicted {
          var b := Slot(h, |t.buckets|, k);
          KeepKey(t.buckets[b], dead, h, |t.buckets|, b, s.m, k);
        }
      }
    }
  }

  lemma UnLockShape(t: Table, start: nat)
    requires start < |t.buckets|
    ensures |UnLockStep(t, start).buckets| == |t.buckets|
    ensures forall b :: 0 <= b < |t.buckets| ==> UnLockStep(t, start).buckets[b] <= t.buckets[b]
  {
    hide Sweep;
    var n := t.numEntries - t.maxEntries;
    SweepCuts(t.buckets, Order(start, |t.buckets|), 0);
    if UnLockStep(t, start).buckets != t.buckets {
      var t1 := t.(free := t.free + |t.locked|);
      SweepCuts(t.buckets, Order(start, |t.buckets|), t.numEntries - t1.free - t.maxEntries);
    }
  }

  lemma CutRefines(t: Table, t': Table, h: Hash, s: Ideal)
    requires Refines(t, h, s) && |t'.buckets| == |t.buckets|
    requires forall b :: 0 <= b < |t.buckets| ==> t'.buckets[b] <= t.buckets[b]
    ensures Refines(t', h, s.(evicted := s.evicted + LostKeys(t, t', h, s.m)))
  {
  }

  lemma SameBuckets(t: Table, t': Table, h: Hash, s: Ideal)
    requires Refines(t, h, s) && t'.buckets == t.buckets
    ensures Refines(t', h, s)
  {
  }

  lemma StepRefines(t: Table, h: Hash, s: Ideal, e: Event)
    requires Refines(t, h, s) && (e.Insert? ==> !HasKey(t, h, e.key))
    ensures Refines(Step(t, h, e).0, h, IdealStep(s, t, h, e))
  {
    hide LookupStep, InsertStep, RemoveStep, BuryStep, UnLockStep, HasKey, Faithful, Slot;
    match e {
      case Lookup(key, now) => LookupRefines(t, h, s, key, now);
      case Insert(key, val, now, memory) => InsertRefines(t, h, s, key, val, now, memory);
      case Remove(key, how) => RemoveRefines(t, h, s, key, how);
      case Bury(now) => BuryRefines(t, h, s, now);
      case UnLockAll(now) =>
        UnLockShape(t, now % |t.buckets|);
        CutRefines(t, Step(t, h, e).0, h, s);
      case SetMax(n, now) =>
        UnLockShape(t.(maxEntries := n), now % |t.buckets|);
        CutRefines(t, Step(t, h, e).0, h, s);
      case _ => SameBuckets(t, Step(t, h, e).0, h, s);
    }
  }

  // ---- Whole runs --------------------------------------------------------------------------

  // Every insert is of a key that is not in the table.
  ghost predicate Disciplined(t: Table, h: Hash, es: seq<Event>)
    requires t.buckets != []
    decreases |es|
  {
    es == [] || ((es[0].Insert? ==> !HasKey(t, h, es[0].key)) && Disciplined(Step(t, h, es[0]).0, h, es[1..]))
  }

  function RunIdeal(s: Ideal, t: Table, h: Hash, es: seq<Event>): Ideal
    requires t.buckets != []
    decreases |es|
  {
    if es == [] then s else RunIdeal(IdealStep(s, t, h, es[0]), Step(t, h, es[0]).0, h, es[1..])
  }

  lemma {:induction false} RunRefines(t: Table, h: Hash, s: Ideal, es: seq<Event>)
    requires t.buckets != [] && Refines(t, h, s) && Disciplined(t, h, es)
    ensures Refines(Run(t, h, es), h, RunIdeal(s, t, h, es))
    decreases |es|
  {
    hide Step, IdealStep, Refines;
    if es != [] {
      StepRefines(t, h, s, es[0]);
      RunRefines(Step(t, h, es[0]).0, h, IdealStep(s, t, h, es[0]), es[1..]);
    }
  }

  // A lookup that misses leaves the key absent.
  lemma MissIsAbsent(t: Table, h: Hash, s: Ideal, key: int, now: int)
    requires Refines(t, h, s) && LookupStep(t, h, key, now).1.None?
    ensures !HasKey(LookupStep(t, h, key, now).0, h, key)
  {
  }

  // How the users of the cache insert: only after a lookup that missed
  function Fetch(t: Table, h: Hash, key: int, val: int, now: int, memory: bool): (Table, Found)
    requires t.buckets != []
  {
    var (t1, found) := LookupStep(t, h, key, now);
    if found.Some? then (t1, found)
    else
      var (t2, ok) := InsertStep(t1, h, key, val, now, memory);
      (t2, if ok then Some(val) else None)
  }

  function IdealFetch(s: Ideal, t: Table, h: Hash, key: int, val: int, now: int, memory: bool): Ideal
    requires t.buckets != []
  {
    var s1, t1 := IdealStep(s, t, h, Lookup(key, now)), LookupStep(t, h, key, now).0;
    if LookupStep(t, h, key, now).1.Some? then s1 else IdealStep(s1, t1, h, Insert(key, val, now, memory))
  }

  // So it keeps the refinement, and afterwards the map has the key with the
  // value returned, if any.
  lemma FetchRefines(t: Table, h: Hash, s: Ideal, key: int, val: int, now: int, memory: bool)
    requires t.buckets != [] && Refines(t, h, s)
    ensures var (t', ent) := Fetch(t, h, key, val, now, memory);
      var s' := IdealFetch(s, t, h, key, val, now, memory);
      && Refines(t', h, s') && (ent.Some? ==> key in s'.m && s'.m[key].0 == ent.val)
      && (ent.None? <==> LookupStep(t, h, key, now).1.None? && !Room(LookupStep(t, h, key, now).0, memory))
      && (LookupStep(t, h, key, now).1.None? && ent.Some? ==> ent.val == val)
  {
    hide Refines, HasKey, LookupStep;
    LookupRefines(t, h, s, key, now);
    LookupAgrees(t, h, s, key, now);
    if LookupStep(t, h, key, now).1.None? {
      MissIsAbsent(t, h, s, key, now);
      InsertRefines(LookupStep(t, h, key, now).0, h, IdealStep(s, t, h, Lookup(key, now)), key, val, now, memory);
    }
  }

  // Without the proviso a removed key comes back with a value that was replaced.
  lemma DuplicateResurfaces(t: Table, h: Hash, key: int, v: int, w: int, now: int)
    requires t.buckets != [] && !HasKey(t, h, key) && t.free > 1 && t.ttl >= 0
    ensures var t1 := InsertStep(t, h, key, v, now, true).0;
      var t2 := InsertStep(t1, h, key, w, now, true).0;
      var t3 := RemoveStep(t2, h, key, Move).0;
      LookupStep(t2, h, key, now).1 == Some(w) && LookupStep(t3, h, key, now).1 == Some(v)
  {
  }
}