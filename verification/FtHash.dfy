// The timed, locked hash cache of src/common/fthash.c as steps on values. Time
// is in seconds, never runs backwards and is never smaller than a time to live.
module FtHash {
  // A value is known by a number of its own. `used` records when the entry was
  // last inserted or returned (history).
  datatype Entry = Entry(key: int, val: int, birth: int, used: nat)

  // Entries on the free list carry nothing and are only counted. stamp,
  // inserted, freed and handed are history: the uses so far, and the values
  // taken over, freed, and given back by fthash_Remove2.
  datatype Table = Table(
    buckets: seq<seq<Entry>>, free: nat, locked: seq<Entry>, lockCnt: nat,
    numEntries: int, maxEntries: nat, ttl: int,
    stamp: nat, inserted: multiset<int>, freed: multiset<int>, handed: multiset<int>)

  datatype Found = None | Some(val: int)

  type Hash = int -> nat

  function Slot(h: Hash, size: nat, key: int): (b: nat)
    requires size > 0
    ensures b < size
  {
    h(key) % size
  }

  function FirstKey(l: seq<Entry>, key: int): (i: nat)
    ensures i <= |l|
    ensures i < |l| ==> l[i].key == key
    ensures forall j :: 0 <= j < i ==> l[j].key != key
  {
    if l == [] || l[0].key == key then 0 else 1 + FirstKey(l[1..], key)
  }

  function Without(l: seq<Entry>, i: nat): (r: seq<Entry>)
    requires i < |l|
    ensures |r| == |l| - 1
    ensures forall j :: 0 <= j < |r| ==> r[j] == if j < i then l[j] else l[j + 1]
  {
    l[..i] + l[i + 1..]
  }

  // ---- Contents ------------------------------------------------------------------

  function Vals(l: seq<Entry>): multiset<int> {
    if l == [] then multiset{} else multiset{l[0].val} + Vals(l[1..])
  }

  function AllVals(bs: seq<seq<Entry>>): multiset<int> {
    if bs == [] then multiset{} else Vals(bs[0]) + AllVals(bs[1..])
  }

  function Total(bs: seq<seq<Entry>>): nat {
    if bs == [] then 0 else |bs[0]| + Total(bs[1..])
  }

  // ---- Steps -----------------------------------------------------------------------

  // fthash_Lookup2
  function LookupStep(t: Table, h: Hash, key: int, now: int): (Table, Found)
    requires t.buckets != []
  {
    var b := Slot(h, |t.buckets|, key);
    var l := t.buckets[b];
    var i := FirstKey(l, key);
    if i == |l| then (t, None)
    else if now - t.ttl > l[i].birth then
      var t' := t.(buckets := t.buckets[b := Without(l, i)]);
      if t.lockCnt > 0 then (t'.(lockCnt := t.lockCnt + 1, locked := [l[i]] + t.locked), None)
      else (t'.(free := t.free + 1, freed := t.freed + multiset{l[i].val}), None)
    else
      (t.(buckets := t.buckets[b := [l[i].(used := t.stamp + 1)] + Without(l, i)], lockCnt := t.lockCnt + 1, stamp := t.stamp + 1),
       Some(l[i].val))
  }

  datatype Removal = Free | Take | Move // fthash_Remove, fthash_Remove2, fthash_MarkRemoved

  // fthash_Remove3
  function RemoveStep(t: Table, h: Hash, key: int, how: Removal): (Table, Found)
    requires t.buckets != []
  {
    var b := Slot(h, |t.buckets|, key);
    var l := t.buckets[b];
    var i := FirstKey(l, key);
    if i == |l| then (t, None)
    else
      var t' := t.(buckets := t.buckets[b := Without(l, i)]);
      match how
      case Move => (t'.(locked := t.locked + [l[i]]), None)
      case Free => (t'.(free := t.free + 1, freed := t.freed + multiset{l[i].val}), None)
      case Take => (t'.(free := t.free + 1, handed := t.handed + multiset{l[i].val}), Some(l[i].val))
  }

  function Keep(l: seq<Entry>, dead: int): (r: seq<Entry>)
    ensures |r| <= |l|
    ensures forall e :: e in r <==> e in l && dead <= e.birth
  {
    if l == [] then [] else if dead > l[0].birth then Keep(l[1..], dead) else [l[0]] + Keep(l[1..], dead)
  }

  function BuryBucket(t: Table, b: nat, dead: int): (r: Table)
    requires b < |t.buckets|
    ensures |r.buckets| == |t.buckets|
  {
    var l := t.buckets[b];
    var k := Keep(l, dead);
    t.(buckets := t.buckets[b := k], free := t.free + |l| - |k|, freed := t.freed + (Vals(l) - Vals(k)))
  }

  function BuryFrom(t: Table, b: nat, dead: int): (r: Table)
    requires b <= |t.buckets|
    ensures |r.buckets| == |t.buckets|
    decreases |t.buckets| - b
  {
    if b == |t.buckets| then t else BuryFrom(BuryBucket(t, b, dead), b + 1, dead)
  }

  // fthash_Bury
  function BuryStep(t: Table, now: int): Table {
    if t.lockCnt > 0 then t else BuryFrom(t, 0, now - t.ttl)
  }

  // fthash_Flush
  function FlushStep(t: Table): Table {
    t.(numEntries := t.numEntries - t.free, free := 0)
  }

  // fthash_Insert; memory says whether a new entry can be allocated.
  function InsertStep(t: Table, h: Hash, key: int, val: int, now: int, memory: bool): (Table, bool)
    requires t.buckets != []
  {
    if t.free == 0 && (t.numEntries >= t.maxEntries + 10 || !memory) then (t, false)
    else
      var b := Slot(h, |t.buckets|, key);
      var t' := if t.free > 0 then t.(free := t.free - 1) else t.(numEntries := t.numEntries + 1);
      (t'.(buckets := t.buckets[b := [Entry(key, val, now, t.stamp + 1)] + t.buckets[b]], stamp := t.stamp + 1,
           inserted := t.inserted + multiset{val}), true)
  }

  function Order(start: nat, size: nat): (r: seq<nat>)
    requires start <= size
    ensures |r| == size
    ensures forall p :: 0 <= p < size ==> r[p] == if start + p < size then start + p else start + p - size
  {
    seq(size, p requires 0 <= p < size => if start + p < size then start + p else start + p - size)
  }

  // Takes n entries off the ends of the buckets, one bucket after the other.
  function Sweep(bs: seq<seq<Entry>>, order: seq<nat>, n: nat): (r: seq<seq<Entry>>)
    requires forall p :: 0 <= p < |order| ==> order[p] < |bs|
    ensures |r| == |bs|
    decreases |order|
  {
    if order == [] || n == 0 then bs
    else
      var l := bs[order[0]];
      var k := if n <= |l| then n else |l|;
      Sweep(bs[order[0] := l[..|l| - k]], order[1..], n - k)
  }

  // fthash_UnLockAll
  function UnLockStep(t: Table, start: nat): Table
    requires start < |t.buckets|
  {
    var t1 := t.(locked := [], free := t.free + |t.locked|, freed := t.freed + Vals(t.locked), lockCnt := 0);
    var excess := t1.numEntries - t1.maxEntries;
    var k := if excess <= 0 then 0 else if excess <= t1.free then excess else t1.free;
    var t2 := t1.(free := t1.free - k, numEntries := t1.numEntries - k);
    if t2.numEntries <= t2.maxEntries then t2
    else
      var bs := Sweep(t2.buckets, Order(start, |t2.buckets|), t2.numEntries - t2.maxEntries);
      t2.(buckets := bs, numEntries := t2.maxEntries, freed := t2.freed + (AllVals(t2.buckets) - AllVals(bs)))
  }

  // fthash_SetMaxEntries
  function SetMaxStep(t: Table, n: nat, start: nat): Table
    requires start < |t.buckets|
  {
    if t.maxEntries <= n then t.(maxEntries := n) else UnLockStep(t.(maxEntries := n), start)
  }

  datatype Event =
    | Lookup(key: int, now: int)
    | Insert(key: int, val: int, now: int, memory: bool)
    | Remove(key: int, how: Removal)
    | Bury(now: int)
    | Flush
    | Lock
    | UnLockAll(now: int)
    | SetMax(n: nat, now: int)
    | SetTTL(ttl: nat)

  function Step(t: Table, h: Hash, e: Event): (r: (Table, Found))
    requires t.buckets != []
    ensures |r.0.buckets| == |t.buckets|
  {
    match e
    case Lookup(key, now) => LookupStep(t, h, key, now)
    case Insert(key, val, now, memory) => (InsertStep(t, h, key, val, now, memory).0, None)
    case Remove(key, how) => RemoveStep(t, h, key, how)
    case Bury(now) => (BuryStep(t, now), None)
    case Flush => (FlushStep(t), None)
    case Lock => (t.(lockCnt := t.lockCnt + 1), None)
    case UnLockAll(now) => (UnLockStep(t, now % |t.buckets|), None)
    case SetMax(n, now) => (SetMaxStep(t, n, now % |t.buckets|), None)
    case SetTTL(ttl) => (t.(ttl := ttl), None)
  }

  // ---- Lists -------------------------------------------------------------------------

  lemma {:induction false} ValsConcat(a: seq<Entry>, b: seq<Entry>)
    ensures Vals(a + b) == Vals(a) + Vals(b)
  {
    if a == [] {
      assert a + b == b;
    } else {
      assert (a + b)[1..] == a[1..] + b;
      ValsConcat(a[1..], b);
    }
  }

  lemma ValsCons(e: Entry, l: seq<Entry>)
    ensures Vals([e] + l) == multiset{e.val} + Vals(l)
  {
  }

  lemma ValsSnoc(l: seq<Entry>, e: Entry)
    ensures Vals(l + [e]) == Vals(l) + multiset{e.val}
  {
    ValsConcat(l, [e]);
  }

  lemma {:induction false} ValsWithout(l: seq<Entry>, i: nat)
    requires i < |l|
    ensures Vals(l) == Vals(Without(l, i)) + multiset{l[i].val}
  {
    hide Vals;
    ValsCons(l[0], l[1..]);
    assert l == [l[0]] + l[1..];
    if i == 0 {
      assert Without(l, 0) == l[1..];
    } else {
      ValsWithout(l[1..], i - 1);
      assert Without(l, i) == [l[0]] + Without(l[1..], i - 1);
      ValsCons(l[0], Without(l[1..], i - 1));
    }
  }

  lemma {:induction false} ValsKeep(l: seq<Entry>, dead: int)
    ensures Vals(Keep(l, dead)) <= Vals(l)
  {
    if l != [] {
      ValsKeep(l[1..], dead);
      ValsConcat([l[0]], Keep(l[1..], dead));
    }
  }

  lemma {:induction false} TotalUpdate(bs: seq<seq<Entry>>, b: nat, l: seq<Entry>)
    requires b < |bs|
    ensures Total(bs[b := l]) == Total(bs) - |bs[b]| + |l|
  {
    if b == 0 {
      assert bs[b := l][1..] == bs[1..];
    } else {
      assert bs[b := l][1..] == bs[1..][b - 1 := l];
      TotalUpdate(bs[1..], b - 1, l);
    }
  }

  lemma {:induction false} ValsUpdate(bs: seq<seq<Entry>>, b: nat, l: seq<Entry>)
    requires b < |bs|
    ensures AllVals(bs[b := l]) + Vals(bs[b]) == AllVals(bs) + Vals(l)
  {
    hide Vals;
    var c := bs[b := l];
    if b == 0 {
      assert c[1..] == bs[1..];
    } else {
      assert c[1..] == bs[1..][b - 1 := l];
      ValsUpdate(bs[1..], b - 1, l);
      assert AllVals(c) + Vals(bs[b]) == Vals(bs[0]) + (AllVals(c[1..]) + Vals(bs[1..][b - 1]));
    }
  }

  // ---- Invariants --------------------------------------------------------------------

  // Every entry is in a bucket, on the locked list or on the free list.
  ghost predicate Counted(t: Table) {
    t.numEntries == Total(t.buckets) + t.free + |t.locked|
  }

  // Every value taken over is still stored, was freed once, or was given back.
  ghost predicate Conserved(t: Table) {
    t.inserted == AllVals(t.buckets) + Vals(t.locked) + t.freed + t.handed
  }

  // A bucket holds the keys of its slot, most recently used first.
  ghost predicate Arranged(l: seq<Entry>, h: Hash, size: nat, b: nat, stamp: nat)
    requires size > 0
  {
    && (forall i :: 0 <= i < |l| ==> Slot(h, size, l[i].key) == b && l[i].used <= stamp)
    && (forall i, j :: 0 <= i < j < |l| ==> l[j].used < l[i].used)
  }

  ghost predicate Sound(t: Table, h: Hash) {
    && t.buckets != [] && Counted(t) && Conserved(t)
    && forall b :: 0 <= b < |t.buckets| ==> Arranged(t.buckets[b], h, |t.buckets|, b, t.stamp)
  }

  // Between two calls of fthash_UnLockAll a table may exceed its limit by ten.
  ghost predicate Inv(t: Table, h: Hash) {
    Sound(t, h) && t.numEntries <= t.maxEntries + 10
  }

  function Elsewhere(t: Table): multiset<int> {
    Vals(t.locked) + t.freed + t.handed
  }

  // Exchanging one bucket for l keeps the invariant if it keeps the balance.
  lemma OneBucket(t: Table, t': Table, h: Hash, b: nat, l: seq<Entry>)
    requires Inv(t, h) && b < |t.buckets|
    requires t'.buckets == t.buckets[b := l] && t.stamp <= t'.stamp
    requires Arranged(l, h, |t.buckets|, b, t'.stamp)
    requires t'.numEntries - t'.free - |t'.locked| - |l| == t.numEntries - t.free - |t.locked| - |t.buckets[b]|
    requires t'.numEntries <= t'.maxEntries + 10
    requires Vals(l) + Elsewhere(t') + t.inserted == Vals(t.buckets[b]) + Elsewhere(t) + t'.inserted
    ensures Inv(t', h)
  {
    hide Vals, AllVals, Total, Elsewhere, Arranged;
    TotalUpdate(t.buckets, b, l);
    ValsUpdate(t.buckets, b, l);
    OneBucketValues(t, t', AllVals(t.buckets), AllVals(t'.buckets), Vals(t.buckets[b]), Vals(l));
    forall c | 0 <= c < |t'.buckets| ensures Arranged(t'.buckets[c], h, |t'.buckets|, c, t'.stamp) {
      ArrangedLater(t.buckets[c], h, |t.buckets|, c, t.stamp, t'.stamp);
    }
  }

  lemma ArrangedLater(l: seq<Entry>, h: Hash, size: nat, b: nat, stamp: nat, later: nat)
    requires size > 0
    ensures Arranged(l, h, size, b, stamp) && stamp <= later ==> Arranged(l, h, size, b, later)
  {
  }

  lemma OneBucketValues(t: Table, t': Table, all: multiset<int>, all': multiset<int>, gone: multiset<int>, come: multiset<int>)
    requires all' + gone == all + come
    requires t.inserted == all + Vals(t.locked) + t.freed + t.handed
    requires come + Elsewhere(t') + t.inserted == gone + Elsewhere(t) + t'.inserted
    ensures t'.inserted == all' + Vals(t'.locked) + t'.freed + t'.handed
  {
    hide Vals;
    forall v ensures t'.inserted[v] == all'[v] + Elsewhere(t')[v] {
      assert (all' + gone)[v] == (all + come)[v];
      assert (come + Elsewhere(t') + t.inserted)[v] == (gone + Elsewhere(t) + t'.inserted)[v];
      assert t.inserted[v] == all[v] + Elsewhere(t)[v];
    }
  }

  lemma ArrangedWithout(l: seq<Entry>, i: nat, h: Hash, size: nat, b: nat, stamp: nat)
    requires size > 0 && i < |l| && Arranged(l, h, size, b, stamp)
    ensures Arranged(Without(l, i), h, size, b, stamp)
    ensures Arranged([l[i].(used := stamp + 1)] + Without(l, i), h, size, b, stamp + 1)
  {
  }

  lemma HitKeeps(t: Table, h: Hash, key: int, now: int)
    requires Inv(t, h) && LookupStep(t, h, key, now).1.Some?
    ensures Inv(LookupStep(t, h, key, now).0, h)
  {
    hide AllVals, Total, Vals, Arranged, Without;
    var b := Slot(h, |t.buckets|, key);
    var l := t.buckets[b];
    var i := FirstKey(l, key);
    ArrangedWithout(l, i, h, |t.buckets|, b, t.stamp);
    ValsWithout(l, i);
    ValsCons(l[i].(used := t.stamp + 1), Without(l, i));
    OneBucket(t, LookupStep(t, h, key, now).0, h, b, [l[i].(used := t.stamp + 1)] + Without(l, i));
  }

  lemma LookupKeeps(t: Table, h: Hash, key: int, now: int)
    requires Inv(t, h)
    ensures Inv(LookupStep(t, h, key, now).0, h)
  {
    hide AllVals, Total, Vals, Arranged, Without;
    var b := Slot(h, |t.buckets|, key);
    var l := t.buckets[b];
    var i := FirstKey(l, key);
    if LookupStep(t, h, key, now).1.Some? {
      HitKeeps(t, h, key, now);
    } else if i < |l| {
      ArrangedWithout(l, i, h, |t.buckets|, b, t.stamp);
      ValsWithout(l, i);
      ValsCons(l[i], t.locked);
      OneBucket(t, LookupStep(t, h, key, now).0, h, b, Without(l, i));
    }
  }

  lemma RemoveKeeps(t: Table, h: Hash, key: int, how: Removal)
    requires Inv(t, h)
    ensures Inv(RemoveStep(t, h, key, how).0, h)
  {
    hide AllVals, Total, Vals, Arranged, Without;
    var b := Slot(h, |t.buckets|, key);
    var l := t.buckets[b];
    var i := FirstKey(l, key);
    if i < |l| {
      ArrangedWithout(l, i, h, |t.buckets|, b, t.stamp);
      ValsWithout(l, i);
      ValsSnoc(t.locked, l[i]);
      OneBucket(t, RemoveStep(t, h, key, how).0, h, b, Without(l, i));
    }
  }

  lemma InsertKeeps(t: Table, h: Hash, key: int, val: int, now: int, memory: bool)
    requires Inv(t, h)
    ensures Inv(InsertStep(t, h, key, val, now, memory).0, h)
  {
    hide AllVals, Total;
    var (t', ok) := InsertStep(t, h, key, val, now, memory);
    if ok {
      var b := Slot(h, |t.buckets|, key);
      assert Arranged(t.buckets[b], h, |t.buckets|, b, t.stamp);
      assert t'.buckets[b][1..] == t.buckets[b];
      OneBucket(t, t', h, b, t'.buckets[b]);
    }
  }

  lemma {:induction false} KeepOrdered(l: seq<Entry>, dead: int)
    requires forall i, j :: 0 <= i < j < |l| ==> l[j].used < l[i].used
    ensures forall i, j :: 0 <= i < j < |Keep(l, dead)| ==> Keep(l, dead)[j].used < Keep(l, dead)[i].used
  {
    if l != [] {
      KeepOrdered(l[1..], dead);
      var r := Keep(l[1..], dead);
      forall j | 0 <= j < |r| ensures r[j].used < l[0].used {
        assert r[j] in l[1..];
      }
    }
  }

  lemma KeepArranged(l: seq<Entry>, dead: int, h: Hash, size: nat, b: nat, stamp: nat)
    requires size > 0 && Arranged(l, h, size, b, stamp)
    ensures Arranged(Keep(l, dead), h, size, b, stamp)
  {
    hide Keep;
    KeepOrdered(l, dead);
    var r := Keep(l, dead);
    forall i | 0 <= i < |r| ensures Slot(h, size, r[i].key) == b && r[i].used <= stamp {
      assert r[i] in l;
    }
  }

  lemma BuryBucketKeeps(t: Table, h: Hash, b: nat, dead: int)
    requires Inv(t, h) && b < |t.buckets|
    ensures Inv(BuryBucket(t, b, dead), h)
  {
    hide AllVals, Total, Vals;
    var l := t.buckets[b];
    KeepArranged(l, dead, h, |t.buckets|, b, t.stamp);
    ValsKeep(l, dead);
    assert Vals(Keep(l, dead)) + (Vals(l) - Vals(Keep(l, dead))) == Vals(l);
    OneBucket(t, BuryBucket(t, b, dead), h, b, Keep(l, dead));
  }

  lemma {:induction false} BuryKeeps(t: Table, h: Hash, b: nat, dead: int)
    requires Inv(t, h) && b <= |t.buckets|
    ensures Inv(BuryFrom(t, b, dead), h)
    decreases |t.buckets| - b
  {
    hide Inv;
    if b < |t.buckets| {
      BuryBucketKeeps(t, h, b, dead);
      BuryKeeps(BuryBucket(t, b, dead), h, b + 1, dead);
    }
  }

  // ---- Eviction ------------------------------------------------------------------------

  function Window(bs: seq<seq<Entry>>, order: seq<nat>): nat
    requires forall p :: 0 <= p < |order| ==> order[p] < |bs|
  {
    if order == [] then 0 else |bs[order[0]]| + Window(bs, order[1..])
  }

  ghost predicate Distinct(order: seq<nat>) {
    forall p, q :: 0 <= p < q < |order| ==> order[p] != order[q]
  }

  lemma {:induction false} WindowFrame(bs: seq<seq<Entry>>, order: seq<nat>, b: nat, l: seq<Entry>)
    requires forall p :: 0 <= p < |order| ==> order[p] < |bs| && order[p] != b
    requires b < |bs|
    ensures Window(bs[b := l], order) == Window(bs, order)
  {
    if order != [] {
      WindowFrame(bs, order[1..], b, l);
    }
  }

  // A sweep removes exactly n entries.
  lemma {:induction false} SweepCounts(bs: seq<seq<Entry>>, order: seq<nat>, n: nat)
    requires forall p :: 0 <= p < |order| ==> order[p] < |bs|
    requires Distinct(order) && n <= Window(bs, order)
    ensures Total(Sweep(bs, order, n)) == Total(bs) - n
    decreases |order|
  {
    hide Total;
    if order != [] && n > 0 {
      var l := bs[order[0]];
      var k := if n <= |l| then n else |l|;
      var cut := l[..|l| - k];
      TotalUpdate(bs, order[0], cut);
      WindowFrame(bs, order[1..], order[0], cut);
      SweepCounts(bs[order[0] := cut], order[1..], n - k);
    }
  }

  // It takes them from the ends of buckets only, so in every bucket the least
  // recently used entries go first.
  lemma {:induction false} SweepCuts(bs: seq<seq<Entry>>, order: seq<nat>, n: nat)
    requires forall p :: 0 <= p < |order| ==> order[p] < |bs|
    ensures forall b :: 0 <= b < |bs| ==> Sweep(bs, order, n)[b] <= bs[b]
    decreases |order|
  {
    if order != [] && n > 0 {
      var l := bs[order[0]];
      var k := if n <= |l| then n else |l|;
      SweepCuts(bs[order[0] := l[..|l| - k]], order[1..], n - k);
    }
  }

  lemma {:induction false} ValsOfPrefixes(a: seq<seq<Entry>>, bs: seq<seq<Entry>>)
    requires |a| == |bs| && forall b :: 0 <= b < |bs| ==> a[b] <= bs[b]
    ensures AllVals(a) <= AllVals(bs)
  {
    hide Vals;
    if bs != [] {
      ValsConcat(a[0], bs[0][|a[0]|..]);
      assert a[0] + bs[0][|a[0]|..] == bs[0];
      ValsOfPrefixes(a[1..], bs[1..]);
    }
  }

  function Sum(bs: seq<seq<Entry>>, lo: nat, hi: nat): nat
    requires lo <= hi <= |bs|
    decreases hi - lo
  {
    if lo == hi then 0 else |bs[lo]| + Sum(bs, lo + 1, hi)
  }

  lemma {:induction false} SumIsTotal(bs: seq<seq<Entry>>, lo: nat, mid: nat)
    requires lo <= mid <= |bs|
    ensures Sum(bs, lo, |bs|) == Total(bs[lo..])
    ensures Sum(bs, lo, |bs|) == Sum(bs, lo, mid) + Sum(bs, mid, |bs|)
    decreases |bs| - lo
  {
    if lo < |bs| {
      assert bs[lo..][1..] == bs[lo + 1..];
      SumIsTotal(bs, lo + 1, if lo < mid then mid else lo + 1);
    }
  }

  lemma {:induction false} WindowIsSum(bs: seq<seq<Entry>>, start: nat, p: nat)
    requires start <= |bs| && p <= |bs|
    ensures Window(bs, Order(start, |bs|)[p..])
      == if start + p <= |bs| then Sum(bs, start + p, |bs|) + Sum(bs, 0, start) else Sum(bs, start + p - |bs|, start)
    decreases |bs| - p
  {
    var order := Order(start, |bs|);
    if p < |bs| {
      assert order[p..][1..] == order[p + 1..];
      WindowIsSum(bs, start, p + 1);
    }
  }

  // Starting anywhere, a round sees every entry.
  lemma WindowIsTotal(bs: seq<seq<Entry>>, start: nat)
    requires start <= |bs|
    ensures Window(bs, Order(start, |bs|)) == Total(bs)
    ensures Distinct(Order(start, |bs|))
  {
    WindowIsSum(bs, start, 0);
    SumIsTotal(bs, 0, start);
    assert Order(start, |bs|)[0..] == Order(start, |bs|) && bs[0..] == bs;
  }

  lemma PrefixArranged(l: seq<Entry>, r: seq<Entry>, h: Hash, size: nat, b: nat, stamp: nat)
    requires size > 0 && Arranged(l, h, size, b, stamp) && r <= l
    ensures Arranged(r, h, size, b, stamp)
    ensures forall i, j :: 0 <= i < |r| <= j < |l| ==> l[j].used < r[i].used
  {
  }

  // fthash_UnLockAll brings the table back to its limit: it frees what was
  // locked, removes exactly the entries in excess, free ones first, and of every
  // bucket keeps the most recently used.
  lemma UnLockEvicts(t: Table, h: Hash, start: nat)
    requires Sound(t, h) && start < |t.buckets|
    ensures var t' := UnLockStep(t, start);
      && Sound(t', h) && |t'.buckets| == |t.buckets|
      && t'.locked == [] && t'.lockCnt == 0 && t'.maxEntries == t.maxEntries
      && t'.numEntries == (if t.numEntries <= t.maxEntries then t.numEntries else t.maxEntries)
      && Total(t'.buckets) == (if Total(t.buckets) <= t.maxEntries then Total(t.buckets) else t.maxEntries)
      && (forall b :: 0 <= b < |t.buckets| ==> t'.buckets[b] <= t.buckets[b])
      && (forall b, i, j :: 0 <= b < |t.buckets| && 0 <= i < |t'.buckets[b]| <= j < |t.buckets[b]| ==>
            t.buckets[b][j].used < t'.buckets[b][i].used)
  {
    hide Vals, AllVals, Total, Sweep, Order, Window, Arranged;
    var t' := UnLockStep(t, start);
    WindowIsTotal(t.buckets, start);
    ValsEmpty();
    var order, n := Order(start, |t.buckets|), Total(t.buckets) - t.maxEntries;
    if n > 0 {
      SweepCounts(t.buckets, order, n);
      SweepCuts(t.buckets, order, n);
      ValsOfPrefixes(Sweep(t.buckets, order, n), t.buckets);
      assert t'.buckets == Sweep(t.buckets, order, n);
    } else {
      assert t'.buckets == t.buckets;
    }
    forall b | 0 <= b < |t.buckets|
      ensures Arranged(t'.buckets[b], h, |t.buckets|, b, t.stamp)
      ensures forall i, j :: 0 <= i < |t'.buckets[b]| <= j < |t.buckets[b]| ==> t.buckets[b][j].used < t'.buckets[b][i].used
    {
      PrefixArranged(t.buckets[b], t'.buckets[b], h, |t.buckets|, b, t.stamp);
    }
  }

  lemma ValsEmpty()
    ensures Vals([]) == multiset{}
  {
  }

  lemma SetMaxKeeps(t: Table, h: Hash, n: nat, start: nat)
    requires Inv(t, h) && start < |t.buckets|
    ensures Inv(SetMaxStep(t, n, start), h)
  {
    hide Vals, AllVals, Total, Arranged, UnLockStep;
    UnLockEvicts(t.(maxEntries := n), h, start);
  }

  lemma SmallStepsKeep(t: Table, h: Hash)
    requires Inv(t, h)
    ensures Inv(FlushStep(t), h)
    ensures Inv(t.(lockCnt := t.lockCnt + 1), h) && forall ttl :: Inv(t.(ttl := ttl), h)
  {
  }

  // Whatever is done, in any order: no entry and no value gets lost, the table
  // exceeds its limit by at most ten, and its buckets stay arranged.
  lemma StepKeeps(t: Table, h: Hash, e: Event)
    requires t.buckets != [] && Inv(t, h)
    ensures Inv(Step(t, h, e).0, h)
  {
    hide Sound, LookupStep, InsertStep, RemoveStep, BuryFrom, UnLockStep, SetMaxStep, FlushStep;
    match e {
      case Lookup(key, now) => LookupKeeps(t, h, key, now);
      case Insert(key, val, now, memory) => InsertKeeps(t, h, key, val, now, memory);
      case Remove(key, how) => RemoveKeeps(t, h, key, how);
      case Bury(now) => BuryKeeps(t, h, 0, now - t.ttl);
      case UnLockAll(now) => UnLockEvicts(t, h, now % |t.buckets|);
      case SetMax(n, now) => SetMaxKeeps(t, h, n, now % |t.buckets|);
      case _ => SmallStepsKeep(t, h);
    }
  }

  function Run(t: Table, h: Hash, es: seq<Event>): (r: Table)
    requires t.buckets != []
    ensures |r.buckets| == |t.buckets|
    decreases |es|
  {
    if es == [] then t else Run(Step(t, h, es[0]).0, h, es[1..])
  }

  lemma {:induction false} RunKeeps(t: Table, h: Hash, es: seq<Event>)
    requires t.buckets != [] && Inv(t, h)
    ensures Inv(Run(t, h, es), h)
    decreases |es|
  {
    hide Step, Inv;
    if es != [] {
      StepKeeps(t, h, es[0]);
      RunKeeps(Step(t, h, es[0]).0, h, es[1..]);
    }
  }

  // What was found or inserted last is first in its bucket and the most recently
  // used of the table, so it is the last of its bucket to be evicted.
  lemma NewestFirst(t: Table, h: Hash, key: int, val: int, now: int, memory: bool, b: nat, i: nat)
    requires Inv(t, h)
    ensures var t' := LookupStep(t, h, key, now).0;
      var l := t'.buckets[Slot(h, |t.buckets|, key)];
      LookupStep(t, h, key, now).1.Some? ==>
        && l != [] && l[0].key == key && Some(l[0].val) == LookupStep(t, h, key, now).1
        && (b < |t'.buckets| && i < |t'.buckets[b]| && (b, i) != (Slot(h, |t.buckets|, key), 0) ==> t'.buckets[b][i].used < l[0].used)
    ensures var t' := InsertStep(t, h, key, val, now, memory).0;
      var l := t'.buckets[Slot(h, |t.buckets|, key)];
      InsertStep(t, h, key, val, now, memory).1 ==>
        && l != [] && (l[0].key, l[0].val) == (key, val)
        && (b < |t'.buckets| && i < |t'.buckets[b]| && (b, i) != (Slot(h, |t.buckets|, key), 0) ==> t'.buckets[b][i].used < l[0].used)
  {
    hide Total, AllVals, Vals, Slot;
    if b < |t.buckets| { assert Arranged(t.buckets[b], h, |t.buckets|, b, t.stamp); }
  }

  // The limit is as set, and met at once when it is lowered; a higher one drops nothing.
  lemma SetMaxExactly(t: Table, h: Hash, n: nat, start: nat)
    requires Inv(t, h) && start < |t.buckets|
    ensures var t' := SetMaxStep(t, n, start);
      && t'.maxEntries == n && (n < t.maxEntries ==> t'.numEntries <= n && t'.locked == [] && t'.lockCnt == 0)
      && (t.maxEntries <= n ==> t' == t.(maxEntries := n))
  {
    hide Vals, AllVals, Total, Arranged, UnLockStep;
    UnLockEvicts(t.(maxEntries := n), h, start);
  }

  // A flush gives the memory of all free entries back, and touches no value.
  lemma FlushExactly(t: Table, h: Hash)
    requires Inv(t, h)
    ensures var t' := FlushStep(t);
      && t'.free == 0 && t'.numEntries == Total(t.buckets) + |t.locked|
      && t' == t.(free := 0, numEntries := t'.numEntries)
  {
  }

  // ---- Lifetime of values ----------------------------------------------------------------

  // Everything but unlocking, lowering the limit, and the two immediate removals.
  predicate Gentle(e: Event, maxEntries: nat) {
    match e
    case UnLockAll(_) => false
    case SetMax(n, _) => maxEntries <= n
    case Remove(_, how) => how.Move?
    case _ => true
  }

  ghost predicate AllGentle(t: Table, h: Hash, es: seq<Event>)
    requires t.buckets != []
    decreases |es|
  {
    es == [] || (Gentle(es[0], t.maxEntries) && AllGentle(Step(t, h, es[0]).0, h, es[1..]))
  }

  // While the table is locked nothing is freed and nothing is given back.
  lemma LockedFreesNothing(t: Table, h: Hash, e: Event)
    requires t.buckets != [] && t.lockCnt > 0 && Gentle(e, t.maxEntries)
    ensures var t' := Step(t, h, e).0;
      t'.lockCnt > 0 && t'.freed == t.freed && t'.handed == t.handed && t.inserted <= t'.inserted
  {
  }

  lemma {:induction false} LockedRunFreesNothing(t: Table, h: Hash, es: seq<Event>)
    requires t.buckets != [] && t.lockCnt > 0 && AllGentle(t, h, es)
    ensures var t' := Run(t, h, es); t'.freed == t.freed && t'.handed == t.handed && t.inserted <= t'.inserted
    decreases |es|
  {
    hide Step;
    if es != [] {
      LockedFreesNothing(t, h, es[0]);
      LockedRunFreesNothing(Step(t, h, es[0]).0, h, es[1..]);
    }
  }

  // Locking a table keeps every value until the next unlocking.
  lemma LockHolds(t: Table, h: Hash, es: seq<Event>)
    requires t.buckets != [] && AllGentle(Step(t, h, Lock).0, h, es)
    ensures var t' := Run(t, h, [Lock] + es); t'.freed == t.freed && t'.handed == t.handed
  {
    LockedRunFreesNothing(Step(t, h, Lock).0, h, es);
    assert ([Lock] + es)[1..] == es;
  }

  function Stored(t: Table): multiset<int> {
    AllVals(t.buckets) + Vals(t.locked)
  }

  lemma {:induction false} InBucket(bs: seq<seq<Entry>>, b: nat, e: Entry)
    requires b < |bs| && e in bs[b]
    ensures e.val in AllVals(bs)
  {
    if b == 0 {
      InVals(bs[0], e);
    } else {
      InBucket(bs[1..], b - 1, e);
    }
  }

  lemma {:induction false} InVals(l: seq<Entry>, e: Entry)
    requires e in l
    ensures e.val in Vals(l)
  {
    if e != l[0] {
      InVals(l[1..], e);
    }
  }

  // A value returned by a lookup stays stored through any such run, however long
  // it lasts and whatever expires or is marked as removed meanwhile.
  lemma ValueLives(t: Table, h: Hash, key: int, now: int, es: seq<Event>)
    requires Inv(t, h) && LookupStep(t, h, key, now).1.Some?
    requires AllGentle(LookupStep(t, h, key, now).0, h, es)
    ensures LookupStep(t, h, key, now).1.val in Stored(Run(LookupStep(t, h, key, now).0, h, es))
  {
    hide AllVals, Vals, Total, Step, Run, Arranged, AllGentle;
    var (t1, found) := LookupStep(t, h, key, now);
    LookupKeeps(t, h, key, now);
    LockedRunFreesNothing(t1, h, es);
    RunKeeps(t1, h, es);
    var b := Slot(h, |t.buckets|, key);
    assert t1.buckets[b][0].val == found.val;
    InBucket(t1.buckets, b, t1.buckets[b][0]);
    StoredGrows(t1, Run(t1, h, es), found.val);
  }

  lemma StoredGrows(t: Table, t': Table, v: int)
    requires Conserved(t) && Conserved(t') && t.inserted <= t'.inserted && t.freed == t'.freed && t.handed == t'.handed
    ensures Stored(t)[v] <= Stored(t')[v]
  {
    hide AllVals, Vals;
    assert t.inserted[v] == Stored(t)[v] + t.freed[v] + t.handed[v];
    assert t'.inserted[v] == Stored(t')[v] + t'.freed[v] + t'.handed[v];
    assert t.inserted[v] <= t'.inserted[v];
  }

  // fthash_Remove is no such step: it frees the value although it was returned.
  lemma RemoveFreesReturned(t: Table, h: Hash, key: int, now: int)
    requires t.buckets != [] && LookupStep(t, h, key, now).1.Some?
    ensures var (t1, found) := LookupStep(t, h, key, now);
      t1.lockCnt > 0 && RemoveStep(t1, h, key, Free).0.freed == t1.freed + multiset{found.val}
  {
  }
}