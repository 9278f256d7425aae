// The attribute cache of src/attrs.c: a hash cache whose values are records of
// a file handle and attributes, written in place.
module AttrCache {
  import opened FtHash
  import opened ExpiringMap
  import opened HashCache

  datatype Attr = Attr(handle: int, fattr: int)

  // The value that a lookup of the key finds, expired or not
  function ValueOf(t: Table, h: Hash, key: int): int
    requires t.buckets != [] && HasKey(t, h, key)
  {
    var l := t.buckets[Slot(h, |t.buckets|, key)];
    l[FirstKey(l, key)].val
  }

  // Every value was inserted once: the users insert newly allocated records.
  ghost predicate Once(t: Table) {
    forall v :: t.inserted[v] <= 1
  }

  // ---- Different entries have different records --------------------------------------

  lemma DistinctVals(bs: seq<seq<Entry>>, b: nat, i: nat, c: nat, j: nat)
    requires b < |bs| && i < |bs[b]| && c < |bs| && j < |bs[c]| && (b, i) != (c, j)
    requires forall v :: AllVals(bs)[v] <= 1
    ensures bs[b][i].val != bs[c][j].val
  {
    hide Vals, AllVals;
    var v, rest := bs[b][i].val, Without(bs[b], i);
    var cs := bs[b := rest];
    ValsUpdate(bs, b, rest);
    ValsWithout(bs[b], i);
    assert (AllVals(cs) + Vals(bs[b]))[v] == (AllVals(bs) + Vals(rest))[v];
    InBucket(cs, c, bs[c][j]);
  }

  lemma StoredOnce(t: Table)
    requires Conserved(t) && Once(t)
    ensures forall v :: AllVals(t.buckets)[v] <= t.inserted[v] <= 1
  {
  }

  // ---- Other keys keep their records ----------------------------------------------------

  lemma FirstWithout(l: seq<Entry>, i: nat, k: int)
    requires i < |l| && k != l[i].key
    ensures KeyIn(Without(l, i), k) <==> KeyIn(l, k)
    ensures KeyIn(l, k) ==> Without(l, i)[FirstKey(Without(l, i), k)] == l[FirstKey(l, k)]
  {
    KeyWithout(l, i, k);
    if KeyIn(l, k) {
      var r, f, q := Without(l, i), FirstKey(l, k), FirstKey(Without(l, i), k);
      assert r[if f < i then f else f - 1].key == k;
      assert r[q] == l[if q < i then q else q + 1];
    }
  }

  lemma FirstFront(l: seq<Entry>, e: Entry, k: int)
    requires k != e.key
    ensures KeyIn([e] + l, k) <==> KeyIn(l, k)
    ensures KeyIn(l, k) ==> ([e] + l)[FirstKey([e] + l, k)] == l[FirstKey(l, k)]
  {
  }

  lemma LookupSpares(t: Table, h: Hash, key: int, now: int, k: int)
    requires t.buckets != [] && k != key
    ensures var t' := LookupStep(t, h, key, now).0;
      && t'.buckets != [] && (HasKey(t', h, k) <==> HasKey(t, h, k))
      && (HasKey(t, h, k) ==> ValueOf(t', h, k) == ValueOf(t, h, k))
  {
    hide Slot, FirstKey, Without;
    var b := Slot(h, |t.buckets|, key);
    var l := t.buckets[b];
    var i := FirstKey(l, key);
    if i < |l| {
      FirstWithout(l, i, k);
      FirstFront(Without(l, i), l[i].(used := t.stamp + 1), k);
    }
  }

  lemma InsertSpares(t: Table, h: Hash, key: int, val: int, now: int, memory: bool, k: int)
    requires t.buckets != [] && k != key
    ensures var t' := InsertStep(t, h, key, val, now, memory).0;
      && t'.buckets != [] && (HasKey(t', h, k) <==> HasKey(t, h, k))
      && (HasKey(t, h, k) ==> ValueOf(t', h, k) == ValueOf(t, h, k))
  {
  }

  lemma FetchSpares(t: Table, h: Hash, key: int, val: int, now: int, memory: bool, k: int)
    requires t.buckets != [] && k != key
    ensures var t' := Fetch(t, h, key, val, now, memory).0;
      && t'.buckets != [] && (HasKey(t', h, k) <==> HasKey(t, h, k))
      && (HasKey(t, h, k) ==> ValueOf(t', h, k) == ValueOf(t, h, k))
  {
    hide LookupStep, InsertStep, HasKey, ValueOf;
    LookupSpares(t, h, key, now, k);
    InsertSpares(LookupStep(t, h, key, now).0, h, key, val, now, memory, k);
  }

  // The key has the record that was returned.
  lemma FetchHas(t: Table, h: Hash, key: int, val: int, now: int, memory: bool)
    requires t.buckets != []
    ensures var (t', ent) := Fetch(t, h, key, val, now, memory);
      t'.buckets != [] && (ent.Some? ==> HasKey(t', h, key) && ValueOf(t', h, key) == ent.val)
  {
  }

  // The record that was returned belongs to no other key.
  lemma FetchApart(t: Table, h: Hash, key: int, val: int, now: int, memory: bool, k: int)
    requires t.buckets != [] && Conserved(t) && Once(t) && val !in t.inserted
    requires k != key && HasKey(t, h, k) && Fetch(t, h, key, val, now, memory).1.Some?
    ensures Fetch(t, h, key, val, now, memory).1.val != ValueOf(t, h, k)
  {
    hide Slot, FirstKey, Without, Conserved, AllVals, InsertStep;
    StoredOnce(t);
    var b, c := Slot(h, |t.buckets|, key), Slot(h, |t.buckets|, k);
    var i, j := FirstKey(t.buckets[b], key), FirstKey(t.buckets[c], k);
    InBucket(t.buckets, c, t.buckets[c][j]);
    if i < |t.buckets[b]| {
      DistinctVals(t.buckets, b, i, c, j);
    }
  }

  lemma FetchOnce(t: Table, h: Hash, key: int, val: int, now: int, memory: bool)
    requires t.buckets != [] && Once(t) && val !in t.inserted
    ensures Once(Fetch(t, h, key, val, now, memory).0)
  {
  }

  // attrs_Update changes the attributes of its key and of no other: after it the
  // key has the new ones, and every other key in the table those of before.
  lemma UpdateExactly(t: Table, h: Hash, key: int, val: int, now: int, memory: bool, attrs: map<int, Attr>, new_: Attr)
    requires t.buckets != [] && Conserved(t) && Once(t) && val !in t.inserted
    requires forall k :: HasKey(t, h, k) ==> ValueOf(t, h, k) in attrs
    ensures Once(Fetch(t, h, key, val, now, memory).0)
    ensures var (t', ent) := Fetch(t, h, key, val, now, memory);
      ent.Some? ==>
        var attrs' := attrs[ent.val := new_];
        forall k :: HasKey(t', h, k) ==>
          ValueOf(t', h, k) in attrs' && (k != key ==> HasKey(t, h, k))
          && attrs'[ValueOf(t', h, k)] == if k == key then new_ else attrs[ValueOf(t, h, k)]
  {
    hide Fetch, HasKey, ValueOf, Conserved;
    FetchOnce(t, h, key, val, now, memory);
    FetchHas(t, h, key, val, now, memory);
    var (t', ent) := Fetch(t, h, key, val, now, memory);
    if ent.Some? {
      forall k | k != key && HasKey(t', h, k)
        ensures HasKey(t, h, k) && ValueOf(t', h, k) == ValueOf(t, h, k) && ValueOf(t, h, k) != ent.val
      {
        FetchSpares(t, h, key, val, now, memory, k);
        FetchApart(t, h, key, val, now, memory, k);
      }
    }
  }

  class AttrTable {
    const cache: Cache
    var attrs: map<int, Attr> // the records, by value

    constructor (cache: Cache)
      ensures this.cache == cache && attrs == map[]
    {
      this.cache, attrs := cache, map[];
    }

    // attrs_Update: a record that is found is overwritten; after a miss a new
    // one, `val`, is filled and inserted.
    method Update(key: int, attr: Attr, val: int, now: int, memory: bool) returns (ent: Found)
      requires cache.Valid()
      modifies this, cache, cache.buckets
      ensures cache.Valid() && (cache.view, ent) == Fetch(old(cache.view), cache.hash, key, val, now, memory)
      ensures attrs == if ent.Some? then old(attrs)[ent.val := attr] else old(attrs)
    {
      hide LookupStep, InsertStep;
      ent := cache.Lookup2(key, now);
      if ent.Some? {
        attrs := attrs[ent.val := attr];
      } else {
        var ok := cache.Insert(key, val, now, memory);
        if ok {
          attrs, ent := attrs[val := attr], Some(val);
        }
      }
    }
  }
}
