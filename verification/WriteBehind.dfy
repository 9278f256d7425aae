// What a list of dirty buffers means: the file that the server will hold once
// every dirty byte has been stored, and how the single steps of src/wbuf.c
// change it.
module WriteBehind {
  import opened DirtyTable
  import opened ServerFile
  import opened WriteHeader

  ghost predicate WellFormed(b: Buffer) {
    b.offs >= 0 && b.offs % MBUFSIZE == 0 && Canonical(b.table) && |b.data| == MBUFSIZE
  }

  // Aligned buffers in ascending order, no block of the file twice.
  ghost predicate Sorted(bs: seq<Buffer>) {
    && (forall k :: 0 <= k < |bs| ==> WellFormed(bs[k]))
    && (forall j, k :: 0 <= j < k < |bs| ==> bs[j].offs + MBUFSIZE <= bs[k].offs)
  }

  // The dirty byte that a buffer, or a list of buffers, holds for file
  // position x; -1 if the position is clean.
  ghost function ByteIn(b: Buffer, x: int): int {
    if Covers(b.table, x - b.offs) && 0 <= x - b.offs < |b.data| then b.data[x - b.offs] else -1
  }

  ghost function Pending(bs: seq<Buffer>, x: int): int {
    if bs == [] then -1 else if ByteIn(bs[0], x) >= 0 then ByteIn(bs[0], x) else Pending(bs[1..], x)
  }

  // g is the server's file f overlaid with the dirty bytes of bs.
  ghost predicate Shows(f: seq<Byte>, bs: seq<Buffer>, g: seq<Byte>) {
    && |f| <= |g|
    && (|f| < |g| ==> Pending(bs, |g| - 1) >= 0)
    && (forall x :: if Pending(bs, x) >= 0 then x < |g| && At(g, x) == Pending(bs, x) else At(g, x) == At(f, x))
  }

  // The overlay is a function of the server's file and the buffers.
  lemma ShowsUnique(f: seq<Byte>, bs: seq<Buffer>, g: seq<Byte>, h: seq<Byte>)
    requires Shows(f, bs, g) && Shows(f, bs, h)
    ensures g == h
  {
    if |f| < |g| { assert Pending(bs, |g| - 1) >= 0; }
    if |f| < |h| { assert Pending(bs, |h| - 1) >= 0; }
    assert forall x :: At(g, x) == At(h, x);
    SameFile(g, h);
  }

  lemma ShowsNothing(f: seq<Byte>, g: seq<Byte>)
    ensures Shows(f, [], g) <==> f == g
  {
    if Shows(f, [], g) {
      assert forall x :: Pending([], x) == -1;
      SameFile(f, g);
    }
  }

  lemma {:induction false} PendingConcat(a: seq<Buffer>, c: seq<Buffer>, x: int)
    ensures Pending(a + c, x) == if Pending(a, x) >= 0 then Pending(a, x) else Pending(c, x)
  {
    if a == [] {
      assert a + c == c;
    } else {
      assert (a + c)[1..] == a[1..] + c;
      PendingConcat(a[1..], c, x);
    }
  }

  // The list around one buffer.
  lemma PendingAround(a: seq<Buffer>, b: Buffer, c: seq<Buffer>, x: int)
    ensures Pending(a + [b] + c, x)
      == if Pending(a, x) >= 0 then Pending(a, x) else if ByteIn(b, x) >= 0 then ByteIn(b, x) else Pending(c, x)
  {
    PendingConcat(a + [b], c, x);
    PendingConcat(a, [b], x);
    assert Pending([b], x) == ByteIn(b, x);
  }

  // A position before or after all blocks of the list is clean.
  lemma {:induction false} PendingOutside(bs: seq<Buffer>, x: int)
    requires Sorted(bs)
    requires forall k :: 0 <= k < |bs| ==> x < bs[k].offs || bs[k].offs + MBUFSIZE <= x
    ensures Pending(bs, x) == -1
  {
    if bs != [] {
      SortedParts([], bs[0], bs[1..], bs);
      PendingOutside(bs[1..], x);
    }
  }

  lemma InSorted(bs: seq<Buffer>, k: nat)
    requires Sorted(bs) && k < |bs|
    ensures WellFormed(bs[k])
  {
  }

  lemma SortedParts(a: seq<Buffer>, b: Buffer, c: seq<Buffer>, bs: seq<Buffer>)
    requires bs == a + [b] + c && Sorted(bs)
    ensures Sorted(a) && WellFormed(b) && Sorted(c)
    ensures forall k :: 0 <= k < |a| ==> a[k].offs + MBUFSIZE <= b.offs
    ensures forall k :: 0 <= k < |c| ==> b.offs + MBUFSIZE <= c[k].offs
  {
    var n := |a|;
    assert bs[n] == b;
    assert forall k :: 0 <= k < |a| ==> bs[k] == a[k];
    assert forall k :: 0 <= k < |c| ==> bs[n + 1 + k] == c[k];
  }

  lemma SortedJoin(a: seq<Buffer>, b: Buffer, c: seq<Buffer>)
    requires Sorted(a) && WellFormed(b) && Sorted(c)
    requires forall k :: 0 <= k < |a| ==> a[k].offs + MBUFSIZE <= b.offs
    requires forall k :: 0 <= k < |c| ==> b.offs + MBUFSIZE <= c[k].offs
    ensures Sorted(a + [b] + c)
  {
  }

  lemma ByteInFilled(b: Buffer, c: Buffer, o: int, d: seq<Byte>, x: int)
    requires WellFormed(b) && Filled(b, c, o, d)
    ensures ByteIn(c, x) == if b.offs + o <= x < b.offs + o + |d| then d[x - b.offs - o] else ByteIn(b, x)
  {
  }

  // Filling a buffer is writing through: the overlay changes exactly as the
  // file itself would have changed.
  lemma FillShows(f: seq<Byte>, a: seq<Buffer>, b: Buffer, b': Buffer, c: seq<Buffer>, g: seq<Byte>, o: int, d: seq<Byte>)
    requires Sorted(a + [b] + c) && Shows(f, a + [b] + c, g) && Filled(b, b', o, d)
    ensures b.offs + o >= 0
    ensures Sorted(a + [b'] + c)
    ensures Shows(f, a + [b'] + c, WriteAt(g, b.offs + o, d))
  {
    SortedParts(a, b, c, a + [b] + c);
    SortedJoin(a, b', c);
    var g' := WriteAt(g, b.offs + o, d);
    var bs, bs' := a + [b] + c, a + [b'] + c;
    forall x ensures Pending(bs', x)
      == if b.offs + o <= x < b.offs + o + |d| then d[x - b.offs - o] else Pending(bs, x)
    {
      PendingAround(a, b, c, x);
      PendingAround(a, b', c, x);
      ByteInFilled(b, b', o, d, x);
      if b.offs + o <= x < b.offs + o + |d| { PendingOutside(a, x); }
    }
    if |f| < |g'| && |g'| == |g| { assert Pending(bs, |g| - 1) >= 0; }
  }

  // A fresh buffer without dirty bytes changes nothing.
  lemma InsertShows(f: seq<Byte>, a: seq<Buffer>, b: Buffer, c: seq<Buffer>, g: seq<Byte>)
    requires Sorted(a + c) && Shows(f, a + c, g) && WellFormed(b) && b.table == []
    requires a != [] ==> a[|a| - 1].offs + MBUFSIZE <= b.offs
    requires c != [] ==> b.offs + MBUFSIZE <= c[0].offs
    ensures Sorted(a + [b] + c) && Shows(f, a + [b] + c, g)
  {
    InsertSorted(a, b, c);
    forall x ensures Pending(a + [b] + c, x) == Pending(a + c, x) {
      PendingAround(a, b, c, x);
      PendingConcat(a, c, x);
    }
  }

  lemma InsertSorted(a: seq<Buffer>, b: Buffer, c: seq<Buffer>)
    requires Sorted(a + c) && WellFormed(b)
    requires a != [] ==> a[|a| - 1].offs + MBUFSIZE <= b.offs
    requires c != [] ==> b.offs + MBUFSIZE <= c[0].offs
    ensures Sorted(a + [b] + c)
  {
    var bs := a + c;
    forall k | 0 <= k < |a| ensures WellFormed(a[k]) && a[k].offs + MBUFSIZE <= b.offs {
      assert bs[k] == a[k] && bs[|a| - 1] == a[|a| - 1];
    }
    forall k | 0 <= k < |c| ensures WellFormed(c[k]) && b.offs + MBUFSIZE <= c[k].offs {
      assert bs[|a| + k] == c[k] && bs[|a|] == c[0];
    }
    forall j, k | 0 <= j < k < |c| ensures c[j].offs + MBUFSIZE <= c[k].offs {
      assert bs[|a| + j] == c[j] && bs[|a| + k] == c[k];
    }
    forall j, k | 0 <= j < k < |a| ensures a[j].offs + MBUFSIZE <= a[k].offs {
      assert bs[j] == a[j] && bs[k] == a[k];
    }
    SortedJoin(a, b, c);
  }

  // Storing the first dirty range of the first buffer takes it off the overlay.
  lemma StoreShows(f: seq<Byte>, b: Buffer, rest: seq<Buffer>, g: seq<Byte>)
    requires Sorted([b] + rest) && Shows(f, [b] + rest, g) && b.table != []
    ensures WellFormed(b) && 0 <= b.table[0].from <= b.table[0].to < |b.data|
    ensures var r := b.table[0];
      && Sorted([b.(table := b.table[1..])] + rest)
      && Shows(WriteAt(f, b.offs + r.from, b.data[r.from..r.to + 1]), [b.(table := b.table[1..])] + rest, g)
  {
    FirstSorted(b, rest);
    var r, b' := b.table[0], b.(table := b.table[1..]);
    var f' := WriteAt(f, b.offs + r.from, b.data[r.from..r.to + 1]);
    forall x
      ensures Pending([b] + rest, x)
        == if b.offs + r.from <= x <= b.offs + r.to then b.data[x - b.offs] else Pending([b'] + rest, x)
      ensures b.offs + r.from <= x <= b.offs + r.to ==> Pending([b'] + rest, x) == -1
    {
      StorePending(b, rest, x);
    }
    assert Pending([b] + rest, b.offs + r.to) >= 0;
    if |f'| < |g| { assert Pending([b] + rest, |g| - 1) >= 0; }
  }

  lemma FirstSorted(b: Buffer, rest: seq<Buffer>)
    requires Sorted([b] + rest)
    ensures WellFormed(b) && Sorted(rest)
    ensures forall k :: 0 <= k < |rest| ==> b.offs + MBUFSIZE <= rest[k].offs
    ensures b.table != [] ==> Sorted([b.(table := b.table[1..])] + rest)
  {
    SortedParts([], b, rest, [b] + rest);
    if b.table != [] {
      var b' := b.(table := b.table[1..]);
      SortedJoin([], b', rest);
      assert [] + [b'] + rest == [b'] + rest;
    }
  }

  lemma StorePending(b: Buffer, rest: seq<Buffer>, x: int)
    requires WellFormed(b) && Sorted(rest) && b.table != []
    requires forall k :: 0 <= k < |rest| ==> b.offs + MBUFSIZE <= rest[k].offs
    ensures var r := b.table[0];
      && Pending([b] + rest, x) == (if b.offs + r.from <= x <= b.offs + r.to then b.data[x - b.offs]
                                    else Pending([b.(table := b.table[1..])] + rest, x))
      && (b.offs + r.from <= x <= b.offs + r.to ==> Pending([b.(table := b.table[1..])] + rest, x) == -1)
  {
    HeadCovers(b.table, x - b.offs);
    var r := b.table[0];
    if b.offs + r.from <= x <= b.offs + r.to { PendingOutside(rest, x); }
  }

  lemma HeadCovers(t: seq<Interval>, x: int)
    requires t != []
    ensures Covers(t, x) <==> t[0].from <= x <= t[0].to || Covers(t[1..], x)
  {
  }

  // A buffer whose ranges are all stored can be dropped.
  lemma DropShows(f: seq<Byte>, b: Buffer, rest: seq<Buffer>, g: seq<Byte>)
    requires Sorted([b] + rest) && Shows(f, [b] + rest, g) && b.table == []
    ensures Sorted(rest) && Shows(f, rest, g)
  {
  }
}
