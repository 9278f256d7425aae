// The hash cache of src/common/fthash.c with its lists relinked in place, proved
// step by step against the table of FtHash.
module HashCache {
  import opened FtHash
  import opened ExpiringMap
  import opened Multisets

  class Cache {
    const hash: Hash
    const buckets: array<seq<Entry>>
    var free: nat
    var locked: seq<Entry>
    var lockCnt: nat
    var numEntries: int
    var maxEntries: nat
    var ttl: int
    var stamp: nat // history: the uses so far
    // History: the values taken over, freed, and given back by fthash_Remove2;
    // each changes where the code does it.
    ghost var inserted: multiset<int>
    ghost var freed: multiset<int>
    ghost var handed: multiset<int>
    ghost var view: Table

    ghost predicate Valid()
      reads this, buckets
    {
      && buckets.Length > 0 && view.buckets == buckets[..]
      && view.free == free && view.locked == locked && view.lockCnt == lockCnt
      && view.numEntries == numEntries && view.maxEntries == maxEntries && view.ttl == ttl && view.stamp == stamp
      && view.inserted == inserted && view.freed == freed && view.handed == handed
    }

    // fthash_FreeVal
    ghost method FreeVal(val: int)
      modifies `freed
      ensures freed == old(freed) + multiset{val}
    {
      freed := freed + multiset{val};
    }

    // fthash_New
    constructor (size: nat, maxEntries: nat, ttl: int, hash: Hash)
      requires size > 0
      ensures Valid() && Inv(view, hash) && Refines(view, hash, Ideal(map[], {}))
      ensures this.hash == hash && this.maxEntries == maxEntries && this.ttl == ttl && fresh(buckets)
    {
      this.hash := hash;
      this.maxEntries, this.ttl := maxEntries, ttl;
      buckets := new seq<Entry>[size](_ => []);
      free, locked, lockCnt, numEntries, stamp := 0, [], 0, 0, 0;
      inserted, freed, handed := multiset{}, multiset{}, multiset{};
      new;
      view := Table(buckets[..], 0, [], 0, 0, maxEntries, ttl, 0, multiset{}, multiset{}, multiset{});
      Empty(view.buckets);
    }

    // The position of the first entry with this key, as FTHead and FTNext find it
    method Find(b: nat, key: int) returns (i: nat)
      requires b < buckets.Length
      ensures i == FirstKey(buckets[b], key)
    {
      i := 0;
      while i < |buckets[b]| && buckets[b][i].key != key
        invariant i <= |buckets[b]| && forall j :: 0 <= j < i ==> buckets[b][j].key != key
      {
        i := i + 1;
      }
    }

    method Lookup2(key: int, now: int) returns (found: Found)
      requires Valid()
      modifies this, buckets
      ensures Valid() && (view, found) == LookupStep(old(view), hash, key, now)
    {
      hide Slot, FirstKey, Without;
      ghost var t := view;
      var b := Slot(hash, buckets.Length, key);
      var i := Find(b, key);
      if i == |buckets[b]| {
        return None;
      }
      var ent := buckets[b][i];
      if now - ttl > ent.birth {
        buckets[b] := Without(buckets[b], i);
        if lockCnt > 0 {
          lockCnt, locked := lockCnt + 1, [ent] + locked;
        } else {
          FreeVal(ent.val);
          free := free + 1;
        }
        view := LookupStep(t, hash, key, now).0;
        assert view.buckets == buckets[..];
        return None;
      }
      lockCnt, stamp := lockCnt + 1, stamp + 1;
      buckets[b] := [ent.(used := stamp)] + Without(buckets[b], i);
      view := LookupStep(t, hash, key, now).0;
      assert view.buckets == buckets[..];
      return Some(ent.val);
    }

    method Remove3(key: int, how: Removal) returns (val: Found)
      requires Valid()
      modifies this, buckets
      ensures Valid() && (view, val) == RemoveStep(old(view), hash, key, how)
    {
      hide Slot, FirstKey, Without;
      ghost var t := view;
      var b := Slot(hash, buckets.Length, key);
      var i := Find(b, key);
      if i == |buckets[b]| {
        return None;
      }
      var ent := buckets[b][i];
      buckets[b] := Without(buckets[b], i);
      view := RemoveStep(t, hash, key, how).0;
      assert view.buckets == buckets[..];
      if how.Move? {
        locked := locked + [ent];
        return None;
      }
      if how.Free? {
        FreeVal(ent.val);
      } else {
        handed := handed + multiset{ent.val};
      }
      free := free + 1;
      return if how.Free? then None else Some(ent.val);
    }

    // One bucket of fthash_Bury
    method BuryOne(b: nat, dead: int)
      requires Valid() && b < buckets.Length
      modifies this`free, this`freed, this`view, buckets
      ensures Valid() && view == BuryBucket(old(view), b, dead)
    {
      hide Keep, Vals, Without, Slot;
      ghost var t := view;
      ghost var l := buckets[b];
      ghost var seen := 0;
      BuryStart(l, dead);
      var i := 0;
      while i < |buckets[b]|
        invariant seen <= |l| && i == |Keep(l[..seen], dead)| && buckets[b] == Keep(l[..seen], dead) + l[seen..]
        invariant free == t.free + seen - i && view == t
        invariant freed + Vals(Keep(l[..seen], dead)) == t.freed + Vals(l[..seen])
        invariant forall c :: 0 <= c < buckets.Length && c != b ==> buckets[c] == t.buckets[c]
        decreases |l| - seen
      {
        BuryNext(l, seen, dead);
        BuryVals(l, seen, dead, t.freed, freed);
        if dead > buckets[b][i].birth {
          FreeVal(buckets[b][i].val);
          buckets[b] := Without(buckets[b], i);
          free := free + 1;
        } else {
          i := i + 1;
        }
        seen := seen + 1;
      }
      assert seen == |l| && l[..seen] == l && l[seen..] == [];
      assert buckets[b] == Keep(l, dead);
      BuryEnd(l, dead, t.freed, freed);
      assert buckets[..] == t.buckets[b := Keep(l, dead)];
      view := BuryBucket(t, b, dead);
    }

    method Bury(now: int)
      requires Valid()
      modifies this`free, this`freed, this`view, buckets
      ensures Valid() && view == BuryStep(old(view), now)
    {
      hide BuryBucket;
      if lockCnt == 0 {
        var i := 0;
        while i < buckets.Length
          invariant i <= buckets.Length && Valid()
          invariant BuryFrom(view, i, now - ttl) == BuryFrom(old(view), 0, now - ttl)
        {
          BuryOne(i, now - ttl);
          i := i + 1;
        }
      }
    }

    method Flush()
      requires Valid()
      modifies this
      ensures Valid() && view == FlushStep(old(view))
    {
      while free > 0
        invariant numEntries - free == old(numEntries - free)
        invariant locked == old(locked) && lockCnt == old(lockCnt) && maxEntries == old(maxEntries) && ttl == old(ttl)
        invariant stamp == old(stamp) && view == old(view)
        invariant inserted == old(inserted) && freed == old(freed) && handed == old(handed)
      {
        free := free - 1;
        numEntries := numEntries - 1;
      }
      view := FlushStep(view);
    }

    method Insert(key: int, val: int, now: int, memory: bool) returns (ok: bool)
      requires Valid()
      modifies this, buckets
      ensures Valid() && (view, ok) == InsertStep(old(view), hash, key, val, now, memory)
    {
      hide Slot, FirstKey, Without;
      ghost var t := view;
      var b := Slot(hash, buckets.Length, key);
      // GetFreeEnt
      if free > 0 {
        free := free - 1;
      } else if numEntries >= maxEntries + 10 || !memory {
        return false;
      } else {
        numEntries := numEntries + 1;
      }
      stamp := stamp + 1;
      buckets[b] := [Entry(key, val, now, stamp)] + buckets[b];
      inserted := inserted + multiset{val};
      assert buckets[..] == t.buckets[b := buckets[b]];
      view := InsertStep(t, hash, key, val, now, memory).0;
      return true;
    }

    // The search for entries to remove, wrapping around at the last bucket; it
    // ends because the buckets hold at least n entries.
    method Evict(start: nat, n: nat)
      requires start < buckets.Length && n <= Total(buckets[..])
      modifies buckets, `freed
      ensures freed + AllVals(buckets[..]) == old(freed) + AllVals(old(buckets[..]))
      ensures buckets[..] == Sweep(old(buckets[..]), Order(start, buckets.Length), n)
    {
      hide Total, AllVals, Sweep, Window, Order, Distinct;
      ghost var order, p := Order(start, buckets.Length), 0;
      ghost var result := Sweep(buckets[..], order, n);
      WindowIsTotal(buckets[..], start);
      assert order[0..] == order;
      var i, at := n, start;
      while i > 0
        invariant 0 <= i && p < buckets.Length && at == order[p]
        invariant i <= Window(buckets[..], order[p..])
        invariant Sweep(buckets[..], order[p..], i) == result
        invariant freed + AllVals(buckets[..]) == old(freed) + AllVals(old(buckets[..]))
      {
        while buckets[at] == []
          invariant p < buckets.Length && at == order[p]
          invariant 0 < i <= Window(buckets[..], order[p..])
          invariant Sweep(buckets[..], order[p..], i) == result
          invariant freed + AllVals(buckets[..]) == old(freed) + AllVals(old(buckets[..]))
          decreases buckets.Length - p
        {
          SweepSkip(buckets[..], order[p..], i);
          assert order[p..][1..] == order[p + 1..];
          at := at + 1;
          if at == buckets.Length {
            at := 0;
          }
          p := p + 1;
        }
        DistinctTail(order, p);
        i := CutTail(order[p..], at, i);
      }
      SweepNone(buckets[..], order[p..]);
    }

    // Removes from the end of one bucket (src/common/fthash.c:386-390).
    method CutTail(ghost order: seq<nat>, at: nat, n: nat) returns (i: nat)
      requires at < buckets.Length && order != [] && order[0] == at && Distinct(order)
      requires forall p :: 0 <= p < |order| ==> order[p] < buckets.Length
      requires 0 < n <= Window(buckets[..], order) && buckets[at] != []
      modifies buckets, `freed
      ensures freed + AllVals(buckets[..]) == old(freed) + AllVals(old(buckets[..]))
      ensures i < n && i <= Window(buckets[..], order)
      ensures Sweep(buckets[..], order, i) == Sweep(old(buckets[..]), order, n)
    {
      hide Sweep, Window, Distinct, Vals, AllVals;
      ghost var bs, l := buckets[..], buckets[at];
      i := n;
      while i > 0 && buckets[at] != []
        invariant 0 <= n - i <= |l| && buckets[at] == l[..|l| - (n - i)]
        invariant forall c :: 0 <= c < buckets.Length && c != at ==> buckets[c] == bs[c]
        invariant freed + Vals(buckets[at]) == old(freed) + Vals(l)
      {
        ghost var last := |buckets[at]| - 1;
        assert buckets[at] == buckets[at][..last] + [buckets[at][last]];
        ValsSnoc(buckets[at][..last], buckets[at][last]);
        FreeVal(buckets[at][last].val);
        buckets[at] := buckets[at][..|buckets[at]| - 1];
        i := i - 1;
      }
      assert buckets[..] == bs[at := buckets[at]];
      CutVals(bs, at, buckets[at], old(freed), freed);
      SweepCut(bs, order, n);
    }

    // Locked entries become free.
    method FreeLocked()
      modifies `free, `locked, `freed
      ensures locked == [] && free == old(free) + |old(locked)| && freed == old(freed) + Vals(old(locked))
    {
      while locked != []
        invariant free + |locked| == old(free) + |old(locked)|
        invariant freed + Vals(locked) == old(freed) + Vals(old(locked))
      {
        FreeVal(locked[0].val);
        locked := locked[1..];
        free := free + 1;
      }
      assert freed + Vals([]) == freed;
    }

    // The first half of fthash_UnLockAll: locked entries become free, and free
    // ones go until the limit is met.
    method Trim()
      modifies `free, `locked, `lockCnt, `numEntries, `freed
      ensures locked == [] && lockCnt == 0 && freed == old(freed) + Vals(old(locked))
      ensures var all := old(free) + |old(locked)|;
        var excess := old(numEntries) - maxEntries;
        var k := if excess <= 0 then 0 else if excess <= all then excess else all;
        free == all - k && numEntries == old(numEntries) - k
    {
      hide Vals;
      FreeLocked();
      lockCnt := 0;
      ghost var all := free;
      while numEntries > maxEntries && free > 0
        invariant locked == [] && lockCnt == 0 && freed == old(freed) + Vals(old(locked))
        invariant numEntries - free == old(numEntries) - all && 0 <= free <= all
        invariant numEntries < old(numEntries) ==> numEntries >= maxEntries
      {
        numEntries := numEntries - 1;
        free := free - 1;
      }
    }

    method UnLockAll(now: int)
      requires Valid() && Counted(view)
      modifies this, buckets
      ensures Valid() && view == UnLockStep(old(view), now % buckets.Length)
    {
      hide Sweep, Vals, AllVals, Total, Order;
      ghost var t := view;
      Trim();
      if numEntries > maxEntries {
        ghost var n, base := numEntries - maxEntries, freed;
        Evict(now % buckets.Length, numEntries - maxEntries);
        UnLockVals(t, now % buckets.Length, n, base, freed);
        numEntries := maxEntries;
      }
      view := UnLockStep(t, now % buckets.Length);
    }

    method SetMaxEntries(n: nat, now: int)
      requires Valid() && Counted(view)
      modifies this, buckets
      ensures Valid() && view == SetMaxStep(old(view), n, now % buckets.Length)
    {
      ghost var t := view;
      if maxEntries <= n {
        maxEntries, view := n, view.(maxEntries := n);
      } else {
        maxEntries, view := n, view.(maxEntries := n);
        UnLockAll(now);
      }
    }
  }

  lemma {:induction false} Empty(bs: seq<seq<Entry>>)
    requires forall b :: 0 <= b < |bs| ==> bs[b] == []
    ensures Total(bs) == 0 && AllVals(bs) == multiset{}
  {
    if bs != [] {
      Empty(bs[1..]);
    }
  }

  lemma SnocVals(l: seq<Entry>, n: nat)
    requires n < |l|
    ensures Vals(l[..n + 1]) == Vals(l[..n]) + multiset{l[n].val}
  {
    assert l[..n + 1] == l[..n] + [l[n]];
    ValsSnoc(l[..n], l[n]);
  }

  lemma {:induction false} KeepSnoc(l: seq<Entry>, n: nat, dead: int)
    requires n < |l|
    ensures Keep(l[..n + 1], dead) == Keep(l[..n], dead) + if dead > l[n].birth then [] else [l[n]]
  {
    assert l[..n + 1] == l[..n] + [l[n]];
    KeepConcat(l[..n], [l[n]], dead);
  }

  lemma {:induction false} KeepConcat(a: seq<Entry>, b: seq<Entry>, dead: int)
    ensures Keep(a + b, dead) == Keep(a, dead) + Keep(b, dead)
  {
    if a == [] {
      assert a + b == b;
    } else {
      assert (a + b)[1..] == a[1..] + b;
      KeepConcat(a[1..], b, dead);
    }
  }

  lemma BuryStart(l: seq<Entry>, dead: int)
    ensures Keep(l[..0], dead) == [] && l[0..] == l && l[..|l|] == l
  {
  }

  // Entry number `seen` is the next to look at, behind the entries kept so far.
  lemma BuryNext(l: seq<Entry>, seen: nat, dead: int)
    requires seen < |l|
    ensures var kept := Keep(l[..seen], dead);
      var now, next := kept + l[seen..], Keep(l[..seen + 1], dead) + l[seen + 1..];
      && now[|kept|] == l[seen]
      && (if dead > l[seen].birth then next == Without(now, |kept|) && |Keep(l[..seen + 1], dead)| == |kept|
          else next == now && |Keep(l[..seen + 1], dead)| == |kept| + 1)
  {
    KeepSnoc(l, seen, dead);
  }

  // Either the value of that entry is freed or it is kept.
  lemma BuryVals(l: seq<Entry>, seen: nat, dead: int, base: multiset<int>, freed: multiset<int>)
    requires seen < |l| && freed + Vals(Keep(l[..seen], dead)) == base + Vals(l[..seen])
    ensures var now := if dead > l[seen].birth then freed + multiset{l[seen].val} else freed;
      now + Vals(Keep(l[..seen + 1], dead)) == base + Vals(l[..seen + 1])
  {
    hide Vals, Keep;
    KeepSnoc(l, seen, dead);
    SnocVals(l, seen);
    ValsSnoc(Keep(l[..seen], dead), l[seen]);
    assert Keep(l[..seen], dead) + [] == Keep(l[..seen], dead);
    AddBoth(freed, Vals(Keep(l[..seen], dead)), base, Vals(l[..seen]), multiset{l[seen].val});
  }

  lemma BuryEnd(l: seq<Entry>, dead: int, base: multiset<int>, freed: multiset<int>)
    requires freed + Vals(Keep(l, dead)) == base + Vals(l)
    ensures freed == base + (Vals(l) - Vals(Keep(l, dead)))
  {
    ValsKeep(l, dead);
    Difference(freed, Vals(Keep(l, dead)), base, Vals(l));
  }

  // What left one bucket was freed, so it left the table.
  lemma CutVals(bs: seq<seq<Entry>>, b: nat, l: seq<Entry>, base: multiset<int>, freed: multiset<int>)
    requires b < |bs| && freed + Vals(l) == base + Vals(bs[b])
    ensures freed + AllVals(bs[b := l]) == base + AllVals(bs)
  {
    hide Vals, AllVals;
    ValsUpdate(bs, b, l);
    Exchange(freed, Vals(l), base, Vals(bs[b]), AllVals(bs[b := l]), AllVals(bs));
  }

  lemma UnLockVals(t: Table, start: nat, n: nat, base: multiset<int>, freed: multiset<int>)
    requires start < |t.buckets|
    requires var bs := Sweep(t.buckets, Order(start, |t.buckets|), n); freed + AllVals(bs) == base + AllVals(t.buckets)
    ensures var bs := Sweep(t.buckets, Order(start, |t.buckets|), n); freed == base + (AllVals(t.buckets) - AllVals(bs))
  {
    hide Sweep, AllVals, Order;
    var bs := Sweep(t.buckets, Order(start, |t.buckets|), n);
    assert |Order(start, |t.buckets|)| == |t.buckets|;
    SweepCuts(t.buckets, Order(start, |t.buckets|), n);
    ValsOfPrefixes(bs, t.buckets);
    Difference(freed, AllVals(bs), base, AllVals(t.buckets));
  }

  lemma SweepNone(bs: seq<seq<Entry>>, order: seq<nat>)
    requires forall p :: 0 <= p < |order| ==> order[p] < |bs|
    ensures Sweep(bs, order, 0) == bs
  {
  }

  lemma SweepSkip(bs: seq<seq<Entry>>, order: seq<nat>, n: nat)
    requires forall p :: 0 <= p < |order| ==> order[p] < |bs|
    requires 0 < n <= Window(bs, order) && (order != [] ==> bs[order[0]] == [])
    ensures |order| > 1 && n <= Window(bs, order[1..]) && Sweep(bs, order[1..], n) == Sweep(bs, order, n)
  {
    assert bs[order[0] := bs[order[0]][..0]] == bs;
  }

  lemma DistinctTail(order: seq<nat>, p: nat)
    requires Distinct(order) && p <= |order|
    ensures Distinct(order[p..])
  {
  }

  // Cutting the first bucket is the first part of a sweep.
  lemma SweepCut(bs: seq<seq<Entry>>, order: seq<nat>, n: nat)
    requires forall p :: 0 <= p < |order| ==> order[p] < |bs|
    requires order != [] && Distinct(order) && n <= Window(bs, order)
    ensures var l := bs[order[0]];
      var k := if n <= |l| then n else |l|;
      var c := bs[order[0] := l[..|l| - k]];
      n - k <= Window(c, order) && Sweep(c, order, n - k) == Sweep(bs, order, n)
  {
    var at := order[0];
    var l := bs[at];
    var k := if n <= |l| then n else |l|;
    var c := bs[at := l[..|l| - k]];
    WindowFrame(bs, order[1..], at, c[at]);
    if n > k {
      assert c[at] == [] && c[at := c[at][..0]] == c;
    } else if n > 0 {
      SweepNone(c, order[1..]);
      SweepNone(c, order);
    } else {
      assert c[at] == bs[at];
      assert c == bs;
    }
  }
}
