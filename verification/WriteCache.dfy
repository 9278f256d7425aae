// The write-behind cache of one file handle (src/wbuf.c): a sorted list of
// buffer headers, filled by writes and replayed to the server by a flush.
module WriteCache {
  import opened BufferPool
  import opened DirtyTable
  import opened NfsTransfer
  import opened ServerFile
  import opened WriteBehind
  import opened WriteHeader
  import opened WriteStep

  // ---- Distinctness from conservation -----------------------------------------

  lemma OnceEach<T>(a: seq<T>, b: seq<T>, all: set<T>)
    requires multiset(a) + multiset(b) == multiset(all)
    ensures forall i, j :: 0 <= i < j < |a| ==> a[i] != a[j]
    ensures forall x :: x in a ==> x in all && x !in b
    ensures forall x :: x in b ==> x in all
  {
    forall x ensures multiset(a)[x] + multiset(b)[x] == (if x in all then 1 else 0) {
      assert (multiset(a) + multiset(b))[x] == multiset(all)[x];
    }
    forall x | x in b ensures x in all { assert x in multiset(b); }
    forall x | x in a ensures x in all && x !in b { assert x in multiset(a); }
    forall i, j | 0 <= i < j < |a| ensures a[i] != a[j] {
      assert a == a[..i] + [a[i]] + a[i + 1..j] + [a[j]] + a[j + 1..];
      assert multiset(a)[a[i]] >= if a[i] == a[j] then 2 else 1;
    }
  }

  lemma InsertOnce<T>(s: seq<T>, p: nat, x: T)
    requires p <= |s|
    ensures multiset(s[..p] + [x] + s[p..]) == multiset([x] + s)
  {
    assert s[..p] + s[p..] == s;
  }

  lemma InsertMatches(hs: seq<WBufHdr>, vs: seq<Buffer>, ds: seq<MBuf>, p: nat, h: WBufHdr)
    requires Matches(hs, vs, ds) && p <= |hs| && h.Ok()
    ensures Matches(hs[..p] + [h] + hs[p..], vs[..p] + [h.View()] + vs[p..], ds[..p] + [h.data] + ds[p..])
  {
  }

  function IndexOf(s: seq<WBufHdr>, x: WBufHdr): (i: nat)
    requires x in s
    ensures i < |s| && s[i] == x
  {
    if s[0] == x then 0 else 1 + IndexOf(s[1..], x)
  }

  // Headers, their values and their data buffers, side by side.
  ghost predicate Matches(hs: seq<WBufHdr>, vs: seq<Buffer>, ds: seq<MBuf>)
    reads hs, set h | h in hs :: h.info, set h | h in hs :: h.data
  {
    && |vs| == |hs| == |ds|
    && forall k :: 0 <= k < |hs| ==> hs[k].Ok() && hs[k].data == ds[k] && hs[k].View() == vs[k]
  }

  ghost predicate Arrays(hdrs: set<WBufHdr>, mbufs: set<MBuf>) {
    && (forall h :: h in hdrs ==> h.info.Length == WBUFHDRINFOSIZE)
    && (forall h, k :: h in hdrs && k in hdrs && h != k ==> h.info != k.info)
    && (forall m :: m in mbufs ==> m.Length == MBUFSIZE)
  }

  // Conservation: each header and each data buffer is in `hand` or on a free
  // list, exactly once.
  ghost predicate Owned(g: Pool, hand: seq<WBufHdr>, ds: seq<MBuf>, hdrs: set<WBufHdr>, mbufs: set<MBuf>)
    reads g
  {
    && g.Counted() && Arrays(hdrs, mbufs)
    && multiset(hand) + multiset(g.freeHdrs) == multiset(hdrs)
    && multiset(ds) + multiset(g.freeMBufs) == multiset(mbufs)
  }

  type Positive = x: int | x > 0 witness 1

  ghost predicate AllRoomy(vs: seq<Buffer>) {
    forall k :: 0 <= k < |vs| ==> Roomy(vs[k].table)
  }

  class Cluster {
    const g: Pool
    const srv: Server
    const maxWriteSize: Positive
    var maxBufs: nat
    var bufs: seq<WBufHdr>
    var posData: WBufHdr?
    var wbcFilePos: nat
    var filePos: nat
    var fileLen: nat

    // The values of the buffers, and their data buffers.
    ghost var view: seq<Buffer>
    ghost var datas: seq<MBuf>
    // All headers and data buffers that this cluster and the free lists hold.
    ghost var hdrs: set<WBufHdr>
    ghost var mbufs: set<MBuf>
    // The file as it would be had every write gone straight to the server.
    ghost var direct: seq<Byte>

    ghost predicate Overlay()
      reads this, srv
    {
      Sorted(view) && Shows(srv.file, view, direct)
    }

    // Invariant inside a write, when one table may be full.
    ghost predicate Loose()
      reads this, g, srv, bufs, set h | h in bufs :: h.info, set h | h in bufs :: h.data
    {
      Owned(g, bufs, datas, hdrs, mbufs) && Matches(bufs, view, datas) && Overlay()
    }

    // Invariant between writes.
    ghost predicate Structured()
      reads this, g, srv, bufs, set h | h in bufs :: h.info, set h | h in bufs :: h.data
    {
      Loose() && AllRoomy(view)
    }

    constructor (g0: Pool, srv0: Server, maxWriteSize0: Positive, maxBufs0: nat)
      requires g0.Counted()
      requires forall i, j :: 0 <= i < j < |g0.freeHdrs| ==> g0.freeHdrs[i] != g0.freeHdrs[j] && g0.freeHdrs[i].info != g0.freeHdrs[j].info
      requires forall i, j :: 0 <= i < j < |g0.freeMBufs| ==> g0.freeMBufs[i] != g0.freeMBufs[j]
      requires forall h :: h in g0.freeHdrs ==> h.info.Length == WBUFHDRINFOSIZE
      requires forall m :: m in g0.freeMBufs ==> m.Length == MBUFSIZE
      ensures g == g0 && srv == srv0 && maxBufs == maxBufs0
      ensures Structured() && bufs == [] && direct == srv.file && fileLen == |direct| && filePos == 0
    {
      g, srv, maxWriteSize, maxBufs := g0, srv0, maxWriteSize0, maxBufs0;
      bufs, posData, wbcFilePos, filePos, fileLen := [], null, 0, 0, |srv0.file|;
      hdrs, mbufs := (set h | h in g0.freeHdrs), (set m | m in g0.freeMBufs);
      direct, view, datas := srv0.file, [], [];
      new;
      DistinctOnce(g0.freeHdrs);
      DistinctOnce(g0.freeMBufs);
      ShowsNothing(srv.file, direct);
      forall h, k | h in hdrs && k in hdrs && h != k ensures h.info != k.info {
        var i :| 0 <= i < |g0.freeHdrs| && g0.freeHdrs[i] == h;
        var j :| 0 <= j < |g0.freeHdrs| && g0.freeHdrs[j] == k;
      }
    }

    // One dirty range goes out through nfs_MWrite.
    method Store(offset: nat, d: seq<Byte>) returns (len: int)
      requires d != []
      modifies srv
      ensures srv.lost == old(srv.lost) + if len < 0 then 1 else 0
      ensures len >= 0 ==> srv.file == WriteAt(old(srv.file), offset, d)
    {
      var size;
      len, size := MWrite(srv, offset, d, maxWriteSize);
    }

    // What is left of a buffer once its first i ranges are stored, over the
    // buffers behind it.
    ghost predicate Showing(b: Buffer, i: nat, rest: seq<Buffer>)
      reads this, srv
    {
      && i <= |b.table|
      && Sorted([b.(table := b.table[i..])] + rest)
      && Shows(srv.file, [b.(table := b.table[i..])] + rest, direct)
    }

    method StoreRange(wbh: WBufHdr, i: nat, ghost b: Buffer, ghost rest: seq<Buffer>) returns (len: int)
      requires wbh.Ok() && b == wbh.View() && i < wbh.numInfo && Showing(b, i, rest)
      modifies srv
      ensures srv.lost == old(srv.lost) + if len < 0 then 1 else 0
      ensures len >= 0 ==> Showing(b, i + 1, rest)
    {
      hide Shows, Sorted, WriteAt, Canonical;
      StoreShows(srv.file, b.(table := b.table[i..]), rest, direct);
      assert b.table[i..][0] == b.table[i] && b.table[i..][1..] == b.table[i + 1..];
      var r := wbh.info[i];
      assert wbh.data[r.from..r.to + 1] == b.data[r.from..r.to + 1];
      len := Store(wbh.fileOffs + r.from, wbh.data[r.from..r.to + 1]);
    }

    // Every dirty range of one header, in table order.
    method StoreRanges(wbh: WBufHdr, ghost b: Buffer, ghost rest: seq<Buffer>) returns (ok: bool)
      requires wbh.Ok() && b == wbh.View()
      requires Sorted([b] + rest) && Shows(srv.file, [b] + rest, direct)
      modifies srv
      ensures srv.lost == old(srv.lost) + if !ok then 1 else 0
      ensures ok ==> Sorted(rest) && Shows(srv.file, rest, direct)
    {
      var i := 0;
      while i < wbh.numInfo
        invariant 0 <= i <= wbh.numInfo && Showing(b, i, rest) && srv.lost == old(srv.lost)
      {
        var len := StoreRange(wbh, i, b, rest);
        if len < 0 {
          return false;
        }
        i := i + 1;
      }
      DropShows(srv.file, b.(table := b.table[i..]), rest, direct);
      return true;
    }

    // ReleaseWBuf for the header `wbh`, which was just unlinked.
    method Release(wbh: WBufHdr, ghost rest: seq<WBufHdr>, ghost ds: seq<MBuf>)
      requires Owned(g, [wbh] + rest, [wbh.data] + ds, hdrs, mbufs)
      modifies g
      ensures Owned(g, rest, ds, hdrs, mbufs)
      ensures g.freeHdrs == [wbh] + old(g.freeHdrs) && g.freeMBufs == [wbh.data] + old(g.freeMBufs)
    {
      g.ReleaseWBuf(wbh);
    }

    // WBufRemHead
    method RemHead() returns (wbh: WBufHdr)
      requires Owned(g, bufs, datas, hdrs, mbufs) && Matches(bufs, view, datas) && bufs != []
      modifies this`bufs, this`view, this`datas
      ensures bufs == old(bufs)[1..] && view == old(view)[1..] && wbh == old(bufs)[0]
      ensures Owned(g, [wbh] + bufs, [wbh.data] + datas, hdrs, mbufs)
      ensures wbh.Ok() && old(view) == [wbh.View()] + view
      ensures Matches(bufs, view, datas)
    {
      hide Arrays;
      wbh := bufs[0];
      assert bufs == [wbh] + bufs[1..] && datas == [wbh.data] + datas[1..];
      bufs := bufs[1..];
      view := view[1..];
      datas := datas[1..];
    }

    // The error exit of iwc_FlushCache: all remaining buffers are given up.
    method DropAll()
      requires Owned(g, bufs, datas, hdrs, mbufs) && Matches(bufs, view, datas)
      modifies this`bufs, this`view, this`datas, g
      ensures bufs == [] && view == [] && datas == [] && Owned(g, [], [], hdrs, mbufs)
      ensures |g.freeHdrs| == old(|g.freeHdrs| + |bufs|) && |g.freeMBufs| == old(|g.freeMBufs| + |bufs|)
    {
      while bufs != []
        invariant Owned(g, bufs, datas, hdrs, mbufs) && Matches(bufs, view, datas)
        invariant |g.freeHdrs| + |bufs| == old(|g.freeHdrs| + |bufs|)
        invariant |g.freeMBufs| + |bufs| == old(|g.freeMBufs| + |bufs|)
        decreases |bufs|
      {
        var wbh := RemHead();
        Release(wbh, bufs, datas);
      }
    }

    // One round of the flush loop.
    method FlushFirst() returns (ok: bool)
      requires Loose() && bufs != []
      modifies this`bufs, this`view, this`datas, g, srv
      ensures srv.lost == old(srv.lost) + if !ok then 1 else 0
      ensures bufs == old(bufs)[1..] && Owned(g, bufs, datas, hdrs, mbufs) && Matches(bufs, view, datas)
      ensures ok ==> Sorted(view) && Shows(srv.file, view, direct)
      ensures view == old(view)[1..]
      ensures |g.freeHdrs| == old(|g.freeHdrs|) + 1 && |g.freeMBufs| == old(|g.freeMBufs|) + 1
    {
      hide Matches, Shows, Sorted;
      var wbh := RemHead();
      ok := StoreRanges(wbh, wbh.View(), view);
      Release(wbh, bufs, datas);
    }

    // wc_FlushCache: on success the server alone holds the whole file, and on
    // failure too every buffer is back on the free lists.
    method FlushCache() returns (ok: bool)
      requires Loose()
      modifies this`bufs, this`view, this`datas, g, srv
      ensures srv.lost == old(srv.lost) + if !ok then 1 else 0
      ensures bufs == [] && view == [] && datas == [] && Owned(g, [], [], hdrs, mbufs)
      ensures ok ==> Structured() && srv.file == direct
      ensures |g.freeHdrs| == old(|g.freeHdrs| + |bufs|) && |g.freeMBufs| == old(|g.freeMBufs| + |bufs|)
    {
      while bufs != []
        invariant Loose() && srv.lost == old(srv.lost)
        invariant |g.freeHdrs| + |bufs| == old(|g.freeHdrs| + |bufs|)
        invariant |g.freeMBufs| + |bufs| == old(|g.freeMBufs| + |bufs|)
        decreases |bufs|
      {
        ok := FlushFirst();
        if !ok {
          DropAll();
          return;
        }
      }
      ShowsNothing(srv.file, direct);
      return true;
    }

    lemma FirstFree()
      requires Owned(g, bufs, datas, hdrs, mbufs)
      ensures g.freeHdrs != [] ==> g.freeHdrs[0] in hdrs && g.freeHdrs[0] !in bufs && g.freeHdrs[0].info.Length == WBUFHDRINFOSIZE
      ensures g.freeMBufs != [] ==> g.freeMBufs[0] !in datas && g.freeMBufs[0].Length == MBUFSIZE
    {
      OnceEach(g.freeHdrs, bufs, hdrs);
      OnceEach(g.freeMBufs, datas, mbufs);
      if g.freeHdrs != [] { assert g.freeHdrs[0] in g.freeHdrs; }
      if g.freeMBufs != [] { assert g.freeMBufs[0] in g.freeMBufs; }
    }

    // ObtainWBuf, aligned to the block of `pos`; not linked yet.
    method TakeBuffer(pos: nat) returns (wbh: WBufHdr?)
      requires Owned(g, bufs, datas, hdrs, mbufs) && Matches(bufs, view, datas)
      modifies g, hdrs
      ensures Matches(bufs, view, datas)
      ensures wbh == null <==> old(g.numFreeHdrs == 0 || g.numFreeMBufs == 0)
      ensures wbh == null ==> Owned(g, bufs, datas, hdrs, mbufs) && g.freeHdrs == old(g.freeHdrs) && g.freeMBufs == old(g.freeMBufs)
      ensures wbh != null ==> Owned(g, [wbh] + bufs, [wbh.data] + datas, hdrs, mbufs)
      ensures wbh != null ==> wbh.Ok() && wbh.fileOffs == Align(pos) && wbh.numInfo == 0
      ensures wbh != null ==> Avail() == old(Avail()) - 1
    {
      hide Arrays, Align;
      FirstFree();
      wbh := Obtain(pos);
      if wbh != null {
        assert wbh == old(g.freeHdrs)[0];
      }
    }

    // ObtainWBuf and the alignment of the new header
    method Obtain(pos: nat) returns (wbh: WBufHdr?)
      requires g.Counted()
      modifies g, if g.freeHdrs == [] then {} else {g.freeHdrs[0]}
      ensures g.Counted() && (wbh == null <==> old(g.numFreeHdrs == 0 || g.numFreeMBufs == 0))
      ensures wbh == null ==> g.freeHdrs == old(g.freeHdrs) && g.freeMBufs == old(g.freeMBufs)
      ensures wbh != null ==> [wbh] + g.freeHdrs == old(g.freeHdrs) && [wbh.data] + g.freeMBufs == old(g.freeMBufs)
      ensures wbh != null ==> wbh.fileOffs == Align(pos) && wbh.numInfo == 0
    {
      hide Align;
      wbh := g.ObtainWBuf();
      if wbh != null {
        wbh.fileOffs, wbh.numInfo := Align(pos), 0;
      }
    }

    // WBufInsert / WBufAddHead: the fresh header becomes number p of the list.
    method LinkBuffer(p: nat, wbh: WBufHdr)
      requires Owned(g, [wbh] + bufs, [wbh.data] + datas, hdrs, mbufs) && Matches(bufs, view, datas) && p <= |bufs|
      requires wbh.Ok()
      modifies this`bufs, this`view, this`datas, this`posData
      ensures Owned(g, bufs, datas, hdrs, mbufs) && Matches(bufs, view, datas) && posData == wbh
      ensures bufs == old(bufs)[..p] + [wbh] + old(bufs)[p..]
      ensures view == old(view)[..p] + [wbh.View()] + old(view)[p..]
    {
      hide Arrays;
      InsertOnce(bufs, p, wbh);
      InsertOnce(datas, p, wbh.data);
      InsertMatches(bufs, view, datas, p, wbh);
      posData := wbh;
      bufs := bufs[..p] + [wbh] + bufs[p..];
      view := view[..p] + [wbh.View()] + view[p..];
      datas := datas[..p] + [wbh.data] + datas[p..];
    }

    // A fresh buffer for the block of `pos`, as number p of the list.
    method AddBuffer(p: nat, pos: nat) returns (wbh: WBufHdr?)
      requires Structured() && p <= |bufs| && Fits(view, p, Align(pos))
      modifies this`bufs, this`view, this`datas, this`posData, g, hdrs
      ensures Structured()
      ensures wbh == null <==> old(g.numFreeHdrs == 0 || g.numFreeMBufs == 0)
      ensures wbh == null ==> bufs == old(bufs) && view == old(view) && posData == old(posData)
      ensures wbh == null ==> g.freeHdrs == old(g.freeHdrs) && g.freeMBufs == old(g.freeMBufs)
      ensures wbh != null ==> posData == wbh && bufs == old(bufs)[..p] + [wbh] + old(bufs)[p..]
      ensures wbh != null ==> InsertedAt(old(view), view, p, Align(pos))
      ensures wbh != null ==> Avail() == old(Avail()) - 1
    {
      wbh := TakeBuffer(pos);
      if wbh != null {
        InsertFresh(srv.file, view, p, wbh.View(), direct);
        LinkBuffer(p, wbh);
      }
    }

    // WBufsAvail
    function Avail(): int
      reads g
    {
      Min(g.numFreeMBufs, g.numFreeHdrs)
    }

    ghost predicate NoneFree()
      reads g
    {
      g.numFreeHdrs == 0 || g.numFreeMBufs == 0
    }

    // Must a new buffer be preceded by a flush?
    ghost predicate Full()
      reads this, g
    {
      |bufs| >= maxBufs || NoneFree()
    }

    // New buffers are taken only up to the number allowed; there is always room for one.
    ghost predicate InLimit(before: nat)
      reads this
    {
      |bufs| <= before || |bufs| <= maxBufs || |bufs| == 1
    }

    // A buffer for an empty list.
    method AddFirst(pos: nat) returns (wbh: WBufHdr?)
      requires Structured() && bufs == []
      modifies this`bufs, this`view, this`datas, this`posData, g, hdrs
      ensures Structured()
      ensures wbh == null <==> old(NoneFree())
      ensures wbh == null ==> bufs == []
      ensures wbh != null ==> posData == wbh && bufs == [wbh] && InsertedAt([], view, 0, Align(pos))
    {
      wbh := AddBuffer(0, pos);
    }

    // Flush, then take a buffer. -1: the flush failed, 0: no memory, 1: done.
    method FlushAndAdd(pos: nat) returns (status: int)
      requires Structured()
      modifies this`bufs, this`view, this`datas, this`posData, g, srv, hdrs
      ensures srv.lost == old(srv.lost) + if status == -1 then 1 else 0
      ensures InLimit(old(|bufs|))
      ensures status == -1 ==> bufs == [] && view == [] && Owned(g, [], [], hdrs, mbufs)
      ensures status == 0 ==> old(bufs) == [] && Structured() && bufs == [] && old(Avail()) == 0
      ensures status == 1 ==> Structured() && posData != null
      ensures status == 1 ==> bufs == [posData] && InsertedAt([], view, 0, Align(pos))
      ensures status == -1 || status == 0 || status == 1
    {
      var ok := FlushCache();
      if !ok {
        return -1;
      }
      var wbh := AddFirst(pos);
      return if wbh == null then 0 else 1;
    }

    // The allocation sequence of src/wbuf.c: flush first when the cache is
    // full, and flush when no buffer is free.
    method NewBuffer(p: nat, pos: nat) returns (status: int)
      requires Structured() && Fits(view, p, Align(pos))
      modifies this`bufs, this`view, this`datas, this`posData, g, srv, hdrs
      ensures srv.lost == old(srv.lost) + if status == -1 then 1 else 0
      ensures InLimit(old(|bufs|))
      ensures status == -1 ==> bufs == [] && view == [] && Owned(g, [], [], hdrs, mbufs)
      ensures status == 0 ==> old(bufs) == [] && Structured() && bufs == [] && old(Avail()) == 0
      ensures status == 1 ==> Structured() && posData != null
      ensures status == 1 && !old(Full()) ==> bufs == old(bufs)[..p] + [posData] + old(bufs)[p..]
      ensures status == 1 && !old(Full()) ==> InsertedAt(old(view), view, p, Align(pos)) && Avail() == old(Avail()) - 1
      ensures status == 1 && old(Full()) ==> bufs == [posData] && InsertedAt([], view, 0, Align(pos))
      ensures status == -1 || status == 0 || status == 1
    {
      hide Shows, Sorted, AllRoomy, Align, InsertedAt, Arrays;
      if |bufs| >= maxBufs {
        status := FlushAndAdd(pos);
        return;
      }
      var wbh := AddBuffer(p, pos);
      if wbh != null {
        return 1;
      }
      if bufs == [] {
        return 0;
      }
      status := FlushAndAdd(pos);
    }

    // PosData is number p of the list and meets the requirement of WBufWrite.
    ghost predicate Meets(p: nat, pos: int)
      reads this
    {
      p < |bufs| == |view| && posData == bufs[p] && Placed(view, p, pos)
    }

    ghost predicate IsPos(p: nat)
      reads this
    {
      p < |bufs| == |view| && posData == bufs[p]
    }

    // PosData lies before the buffer that was filled last.
    ghost predicate GoneAstray()
      reads this
    {
      exists p: nat :: IsPos(p) && Stray(view, p, wbcFilePos)
    }

    ghost predicate PosMeets(pos: int)
      reads this
    {
      exists p: nat :: Meets(p, pos)
    }

    // The scan of WBufSeekAndPrepare over a list that spans newPos.
    method Scan(newPos: nat) returns (p: nat)
      requires Structured() && bufs != []
      requires bufs[0].fileOffs <= newPos < bufs[|bufs| - 1].fileOffs + MBUFSIZE
      ensures p < |bufs| && bufs[p].fileOffs <= newPos
      ensures p + 1 < |bufs| ==> newPos < view[p + 1].offs + MBUFSIZE
      ensures newPos <= bufs[p].fileOffs + MBUFSIZE || p + 1 == |bufs| || newPos < view[p + 1].offs
      ensures p > 0 ==> view[p - 1].offs + MBUFSIZE < newPos
    {
      hide Shows, Owned, AllRoomy, Canonical;
      var pos, i := newPos - MBUFSIZE, 0;
      assert forall k :: 0 <= k < |bufs| ==> bufs[k].fileOffs == view[k].offs;
      while bufs[i].fileOffs < pos
        invariant 0 <= i < |bufs|
        invariant i > 0 ==> bufs[i - 1].fileOffs < pos
        decreases |bufs| - i
      {
        i := i + 1;
      }
      assert i + 1 < |bufs| ==> view[i].offs + MBUFSIZE <= view[i + 1].offs;
      return if bufs[i].fileOffs > newPos then i - 1 else i;
    }

    // The ADDHEAD case of WBufSeekAndPrepare: a first buffer, or one before all others.
    method PrepareHead(newPos: nat) returns (status: int)
      requires Structured() && (view != [] ==> newPos < view[0].offs)
      modifies this`bufs, this`view, this`datas, this`posData, g, srv, hdrs
      ensures srv.lost == old(srv.lost) + if status == -1 then 1 else 0
      ensures InLimit(old(|bufs|))
      ensures status == -1 ==> bufs == [] && view == [] && Owned(g, [], [], hdrs, mbufs)
      ensures status == 0 ==> old(bufs) == [] && Structured() && bufs == [] && old(Avail()) == 0
      ensures status == 1 ==> Structured() && PosMeets(newPos)
      ensures status == 1 ==> New(old(view), view, Align(newPos), old(Full()), old(Avail()), Avail())
      ensures status == 1 ==> AtBlock(Align(newPos)) && TableAt(view, Align(newPos)) == []
      ensures !old(HasBlock(view, Align(newPos))) && (status == 1 ==> view != old(view))
      ensures status == -1 || status == 0 || status == 1
    {
      hide New, Grown, Canonical, Shows, Owned, AllRoomy, TableAt, Align;
      if view != [] { AlignBelow(newPos, view[0]); }
      status := NewBuffer(0, newPos);
      if status == 1 {
        HeadMade(old(view), view, Align(newPos), old(Full()), old(Avail()), Avail());
        assert posData == bufs[0] && view[0].offs == Align(newPos);
        assert Meets(0, newPos) by {
          if |bufs| > 1 { assert view[0].offs + MBUFSIZE <= view[1].offs; }
        }
      }
    }

    // WBufSeekAndPrepare. -1: failure, 0: no memory, 1: done.
    method SeekAndPrepare(newPos: nat) returns (status: int)
      requires Structured()
      modifies this`bufs, this`view, this`datas, this`posData, this`wbcFilePos, g, srv, hdrs
      ensures srv.lost == old(srv.lost) + if status == -1 then 1 else 0
      ensures InLimit(old(|bufs|))
      ensures status == -1 ==> bufs == [] && view == [] && Owned(g, [], [], hdrs, mbufs)
      ensures status == 0 ==> old(bufs) == [] && Structured() && bufs == [] && old(Avail()) == 0
      ensures status == 1 ==> Structured() && PosMeets(newPos) && wbcFilePos == newPos
      ensures status == -1 || status == 0 || status == 1
      ensures status == 1 ==> Sought(newPos, old(view), view, old(Full()), old(Avail()))
      ensures status == 1 && view == old(view) ==> bufs == old(bufs) && Avail() == old(Avail())
    {
      hide Sorted, Shows, Owned, AllRoomy, New, TableAt, HasBlock, Align;
      wbcFilePos := newPos;
      status := Prepare(newPos);
    }

    method Prepare(newPos: nat) returns (status: int)
      requires Structured()
      modifies this`bufs, this`view, this`datas, this`posData, g, srv, hdrs
      ensures srv.lost == old(srv.lost) + if status == -1 then 1 else 0
      ensures InLimit(old(|bufs|))
      ensures status == -1 ==> bufs == [] && view == [] && Owned(g, [], [], hdrs, mbufs)
      ensures status == 0 ==> old(bufs) == [] && Structured() && bufs == [] && old(Avail()) == 0
      ensures status == 1 ==> Structured() && PosMeets(newPos)
      ensures status == -1 || status == 0 || status == 1
      ensures status == 1 ==> Sought(newPos, old(view), view, old(Full()), old(Avail()))
      ensures status == 1 && view == old(view) ==> bufs == old(bufs) && Avail() == old(Avail())
    {
      hide Sorted, Shows, Owned, AllRoomy, New, TableAt, HasBlock, Align;
      if bufs == [] || newPos < bufs[0].fileOffs {
        assert bufs != [] ==> view[0].offs == bufs[0].fileOffs;
        status := PrepareHead(newPos);
      } else {
        SeekWithin(newPos);
        status := 1;
      }
    }

    // The three ways WBufSeekAndPrepare leaves the list ready for newPos.
    ghost predicate Sought(newPos: nat, vs: seq<Buffer>, ws: seq<Buffer>, full: bool, avail: int)
      reads this, g
    {
      var B := Align(newPos);
      if HasBlock(vs, B) then
        ws == vs && (AtBlock(B) <==> !(newPos == B && HasBlock(vs, B - MBUFSIZE)))
      else
        ws == vs || (New(vs, ws, B, full, avail, Avail()) && AtBlock(B) && TableAt(ws, B) == [])
    }

    // The ADDTAIL and INSERT cases: only PosData moves.
    method SeekWithin(newPos: nat)
      requires Structured() && bufs != [] && bufs[0].fileOffs <= newPos
      modifies this`posData
      ensures Structured() && PosMeets(newPos)
      ensures HasBlock(view, Align(newPos)) ==>
        (AtBlock(Align(newPos)) <==> !(newPos == Align(newPos) && HasBlock(view, Align(newPos) - MBUFSIZE)))
    {
      var p := |bufs| - 1;
      if newPos < bufs[p].fileOffs + MBUFSIZE {
        p := Scan(newPos);
      } else {
        assert bufs[p].fileOffs == view[p].offs;
        assert p > 0 ==> view[p - 1].offs + MBUFSIZE <= view[p].offs;
      }
      SetPos(p, newPos);
      if HasBlock(view, Align(newPos)) { MeetsBlock(newPos); }
    }

    // How PosData stands to the block of pos once it meets the requirement.
    lemma MeetsBlock(pos: nat)
      requires Structured() && PosMeets(pos) && HasBlock(view, Align(pos))
      ensures AtBlock(Align(pos)) <==> !(pos == Align(pos) && HasBlock(view, Align(pos) - MBUFSIZE))
    {
    }

    method SetPos(p: nat, newPos: nat)
      requires Structured() && p < |bufs|
      requires bufs[p].fileOffs <= newPos
      requires p + 1 < |bufs| ==> newPos < view[p + 1].offs + MBUFSIZE
      requires newPos <= bufs[p].fileOffs + MBUFSIZE || p + 1 == |bufs| || newPos < view[p + 1].offs
      requires p > 0 ==> view[p - 1].offs + MBUFSIZE < newPos
      modifies this`posData
      ensures Structured() && PosMeets(newPos)
    {
      assert view[p].offs == bufs[p].fileOffs;
      posData := bufs[p];
      assert Meets(p, newPos);
    }

    // The arrays of one header belong to no other header of the list.
    lemma OwnArrays(k: nat)
      requires Owned(g, bufs, datas, hdrs, mbufs) && Matches(bufs, view, datas) && k < |bufs|
      ensures bufs[k] in hdrs && bufs[k].data in mbufs
      ensures forall j :: 0 <= j < |bufs| && j != k ==>
        bufs[j] != bufs[k] && bufs[j].info != bufs[k].info && bufs[j].data != bufs[k].data
    {
      OnceEach(bufs, g.freeHdrs, hdrs);
      OnceEach(datas, g.freeMBufs, mbufs);
    }

    // CopyMem and WBufUpdateInfo on number k of the list.
    method FillBuffer(wbh: WBufHdr, ghost k: nat, offs: nat, d: seq<Byte>)
      requires Owned(g, bufs, datas, hdrs, mbufs) && Matches(bufs, view, datas)
      requires k < |bufs| && bufs[k] == wbh && WellFormed(view[k]) && Roomy(view[k].table)
      requires d != [] && offs + |d| <= MBUFSIZE
      modifies this`view, wbh`numInfo, wbh.info, wbh.data
      ensures Owned(g, bufs, datas, hdrs, mbufs) && Matches(bufs, view, datas)
      ensures view == old(view)[k := view[k]] && Filled(old(view)[k], view[k], offs, d)
    {
      OwnArrays(k);
      wbh.Fill(offs, d);
      view := view[k := wbh.View()];
    }

    // Number k of the list holds the block of pos and is PosData, or comes
    // right after it and is entered at its first byte.
    ghost predicate Targets(k: nat, pos: nat)
      reads this
    {
      && k < |bufs| == |view| && view[k].offs == Align(pos)
      && (posData == bufs[k] || (k > 0 && posData == bufs[k - 1] && pos == view[k].offs))
    }

    // The buffer at or right after PosData, number p, that holds the block of
    // wbcFilePos, or null and the place for a new one.
    method FindTarget() returns (wbh: WBufHdr?, k: nat, ghost p: nat)
      requires Structured() && PosMeets(wbcFilePos)
      ensures IsPos(p) && Ready(view, p, wbcFilePos) && k == Target(view, p, wbcFilePos)
      ensures wbh == null <==> Inserts(view, p, wbcFilePos)
      ensures wbh != null ==> Targets(k, wbcFilePos) && wbh == bufs[k]
      ensures wbh == null ==> bufs != [] && Fits(view, k, Align(wbcFilePos)) && !HasBlock(view, Align(wbcFilePos))
    {
      hide Shows, Owned, AllRoomy, Canonical;
      p :| Meets(p, wbcFilePos);
      BlockOf(view, p, wbcFilePos);
      OwnArrays(p);
      assert bufs[p].fileOffs == view[p].offs;
      k := IndexOf(bufs, posData);
      if wbcFilePos < bufs[k].fileOffs + MBUFSIZE {
        return bufs[k], k, p;
      }
      k := k + 1;
      if k < |bufs| {
        assert bufs[k].fileOffs == view[k].offs;
        if bufs[k].fileOffs <= wbcFilePos <= bufs[k].fileOffs + MBUFSIZE - 1 {
          return bufs[k], k, p;
        }
      }
      return null, k, p;
    }

    lemma AtTarget(p: nat, k: nat, pos: nat)
      requires Structured() && IsPos(p) && Targets(k, pos)
      ensures p == k || (p + 1 == k && pos == Align(pos))
      ensures HasBlock(view, Align(pos))
    {
    }

    // The same, together with the write-through in `direct`.
    method FillThrough(wbh: WBufHdr, ghost k: nat, offs: nat, d: seq<Byte>, ghost pos: nat)
      requires Loose() && k < |bufs| && bufs[k] == wbh && Roomy(view[k].table) && pos == view[k].offs + offs
      requires d != [] && offs + |d| <= MBUFSIZE
      modifies this`view, this`direct, wbh`numInfo, wbh.info, wbh.data
      ensures Loose()
      ensures k < |view| && view == old(view)[k := view[k]] && Filled(old(view)[k], view[k], offs, d)
      ensures direct == WriteAt(old(direct), pos, d)
    {
      hide Shows, Filled, Roomy, WriteAt, Owned;
      FillBuffer(wbh, k, offs, d);
      ghost var g' := WriteAt(direct, pos, d);
      FillAt(srv.file, old(view), view, k, direct, offs, d, pos, g');
      direct := g';
    }

    // Fill number k of the list with as much of d as its block takes.
    method FillTarget(wbh: WBufHdr, ghost k: nat, pos: nat, d: seq<Byte>) returns (cnt: nat)
      requires Structured() && k < |bufs| && bufs[k] == wbh && view[k].offs == Align(pos) && d != []
      modifies this`view, this`direct, wbh`numInfo, wbh.info, wbh.data
      ensures Loose() && cnt == ChunkLen(pos, |d|)
      ensures direct == WriteAt(old(direct), pos, d[..cnt])
      ensures k < |view| && view == old(view)[k := view[k]]
      ensures Filled(old(view)[k], view[k], pos - Align(pos), d[..cnt])
      ensures WellFormed(old(view)[k])
    {
      hide Shows, Sorted, Filled, Roomy, WriteAt, Owned, Align, WellFormed;
      InSorted(view, k);
      assert wbh.fileOffs == view[k].offs && Roomy(view[k].table);
      var offs := pos - wbh.fileOffs;
      var bufSize := MBUFSIZE - offs;
      cnt := if bufSize <= |d| then bufSize else |d|;
      FillThrough(wbh, k, offs, d[..cnt], pos);
    }

    // The end of WBufWrite: flush when the table of PosData is nearly full.
    method CheckTable(ghost p: nat) returns (ok: bool, full: bool)
      requires Loose() && p < |bufs| && posData == bufs[p]
      requires |view[p].table| + 1 < WBUFHDRINFOSIZE ==> AllRoomy(view)
      modifies this`bufs, this`view, this`datas, g, srv
      ensures srv.lost == old(srv.lost) + if !ok then 1 else 0
      ensures full <==> |old(view)[p].table| + 1 >= WBUFHDRINFOSIZE
      ensures !ok ==> bufs == [] && view == [] && Owned(g, [], [], hdrs, mbufs)
      ensures ok ==> Structured()
      ensures full ==> bufs == [] && view == []
      ensures !full ==> ok && bufs == old(bufs) && view == old(view) && Avail() == old(Avail())
    {
      assert posData.View() == view[p];
      hide Shows, Sorted, AllRoomy, Owned;
      ok, full := true, posData.numInfo + 1 >= WBUFHDRINFOSIZE;
      if full {
        ok := FlushCache();
      }
    }

    // The second half of WBufWrite; PosData is number p.
    method FillAndCheck(wbh: WBufHdr, ghost k: nat, ghost p: nat, pos: nat, d: seq<Byte>) returns (cnt: int, ghost full: bool)
      requires Structured() && k < |bufs| && bufs[k] == wbh && view[k].offs == Align(pos) && d != []
      requires p < |bufs| && posData == bufs[p] && (p == k || pos == Align(pos))
      modifies this`bufs, this`view, this`datas, this`direct, g, srv, wbh`numInfo, wbh.info, wbh.data
      ensures srv.lost == old(srv.lost) + if cnt == -1 then 1 else 0
      ensures InLimit(old(|bufs|))
      ensures cnt == -1 || cnt == ChunkLen(pos, |d|)
      ensures cnt == -1 ==> bufs == [] && view == [] && Owned(g, [], [], hdrs, mbufs)
      ensures cnt != -1 ==> Structured() && direct == WriteAt(old(direct), pos, d[..cnt])
      ensures cnt != -1 && full ==> bufs == [] && view == []
      ensures cnt != -1 && !full ==> bufs == old(bufs) && SameBlocks(old(view), view) && Avail() == old(Avail())
      ensures cnt != -1 && p == k ==> (full <==> Crowded(old(view)[k].table, pos, cnt))
      ensures cnt != -1 ==> 0 <= pos - Align(pos) && pos - Align(pos) + cnt <= |old(view)[k].data| && cnt <= |d|
      ensures cnt != -1 && !full ==> view == old(view)[k := Put(old(view)[k], pos - Align(pos), d[..cnt])]
    {
      hide Shows, Sorted, Filled, Roomy, WriteAt, Owned, Align, Canonical, SameBlocks, ChunkLen, Merged;
      cnt := FillTarget(wbh, k, pos, d);
      FilledIsPut(old(view)[k], view[k], pos - Align(pos), d[..cnt]);
      hide AllRoomy, WellFormed;
      if |view[p].table| + 1 < WBUFHDRINFOSIZE {
        RoomyAfter(old(view), view, k, p, pos - Align(pos), d[..cnt]);
      }
      var ok, nearlyFull := CheckTable(p);
      full := nearlyFull;
      if !ok {
        cnt := -1;
      }
    }

    // The first half of WBufWrite: the buffer, number k, that takes the byte at
    // wbcFilePos, a new one when the block has none; PosData was number p0 and
    // is number p. -1: a flush failed.
    method TargetBuffer() returns (status: int, wbh: WBufHdr?, ghost k: nat, ghost p0: nat, ghost p: nat)
      requires Structured() && PosMeets(wbcFilePos)
      modifies this`bufs, this`view, this`datas, this`posData, g, srv, hdrs
      ensures srv.lost == old(srv.lost) + if status == -1 then 1 else 0
      ensures InLimit(old(|bufs|))
      ensures status == -1 || status == 1
      ensures status == -1 ==> bufs == [] && view == [] && Owned(g, [], [], hdrs, mbufs)
      ensures status == 1 ==> Structured() && k < |bufs| == |view| && wbh == bufs[k] && view[k].offs == Align(wbcFilePos)
      ensures status == 1 ==> p < |bufs| && posData == bufs[p] && (p == k || (p + 1 == k && wbcFilePos == Align(wbcFilePos)))
      ensures old(IsPos(p0)) && Ready(old(view), p0, wbcFilePos)
      ensures status == 1 && (old(HasBlock(view, Align(wbcFilePos))) || !old(Full())) ==>
        view == Prepared(old(view), p0, wbcFilePos, view[k].data)
        && k == Target(old(view), p0, wbcFilePos) && p == PosAfter(old(view), p0, wbcFilePos)
      ensures status == 1 && old(HasBlock(view, Align(wbcFilePos))) ==>
        view == old(view) && bufs == old(bufs) && posData == old(posData) && Avail() == old(Avail())
      ensures status == 1 && !old(HasBlock(view, Align(wbcFilePos))) ==>
        p == k && view[k].table == [] && New(old(view), view, Align(wbcFilePos), old(Full()), old(Avail()), Avail())
    {
      hide Shows, Sorted, Filled, Roomy, WriteAt, Align, Canonical, AllRoomy, Owned, Grown;
      k, p := 0, 0;
      var i;
      wbh, i, p0 := FindTarget();
      if wbh != null {
        k, p := i, p0;
        AtTarget(p0, k, wbcFilePos);
        return 1, wbh, k, p0, p;
      }
      ghost var full := Full();
      status := NewBuffer(i, wbcFilePos);
      wbh := posData;
      k := if full then 0 else i;
      p := k;
      if status == 1 && !full {
        InsertGrows(old(view), view, i, Align(wbcFilePos));
      }
    }

    // WBufWrite: store the first part of d, as much as fits into one buffer.
    // The source's third outcome, no memory, cannot occur: PosData is in the
    // list, and a flush returns at least its buffer. `via`: the buffer was
    // entered from PosData before it; `full`: the final check flushed; PosData
    // was number p of the list and is number q.
    method WBufWrite(d: seq<Byte>) returns (cnt: int, ghost via: bool, ghost full: bool, ghost p: nat, ghost q: nat)
      requires Structured() && PosMeets(wbcFilePos) && d != []
      modifies this`bufs, this`view, this`datas, this`posData, this`wbcFilePos, this`direct, g, srv
      modifies hdrs, mbufs, set h | h in hdrs :: h.info
      ensures srv.lost == old(srv.lost) + if cnt == -1 then 1 else 0
      ensures InLimit(old(|bufs|))
      ensures cnt == -1 || cnt == ChunkLen(old(wbcFilePos), |d|)
      ensures cnt == -1 ==> bufs == [] && view == [] && Owned(g, [], [], hdrs, mbufs)
      ensures cnt != -1 ==> Structured() && wbcFilePos == old(wbcFilePos) + cnt
      ensures cnt != -1 ==> direct == WriteAt(old(direct), old(wbcFilePos), d[..cnt])
      // ready for the next block, if there is one, exactly when PosData was filled and survives
      ensures cnt != -1 && wbcFilePos == Align(old(wbcFilePos)) + MBUFSIZE ==>
        (NextBlockReady() <==> !via && !full)
      ensures cnt != -1 && !old(HasBlock(view, Align(wbcFilePos))) ==>
        !via && !full && New(old(view), view, Align(old(wbcFilePos)), old(Full()), old(Avail()), Avail())
      ensures cnt != -1 && old(HasBlock(view, Align(wbcFilePos))) ==>
        (via <==> !old(AtBlock(Align(wbcFilePos))))
      ensures cnt != -1 && old(HasBlock(view, Align(wbcFilePos))) && !via ==>
        (full <==> Crowded(TableAt(old(view), Align(old(wbcFilePos))), old(wbcFilePos), cnt))
      ensures cnt != -1 && old(HasBlock(view, Align(wbcFilePos))) && !full ==>
        SameBlocks(old(view), view) && Avail() == old(Avail())
      // if no flush intervenes, this is the step on values
      ensures old(IsPos(p)) && Ready(old(view), p, old(wbcFilePos))
      ensures cnt != -1 && !full && (old(HasBlock(view, Align(wbcFilePos))) || !old(Full())) ==>
        IsPos(q) && Stepped(old(view), p, old(wbcFilePos), d, view, q)
      // a PosData that is not ready is gone with the list, or behind
      ensures cnt != -1 && wbcFilePos == Align(old(wbcFilePos)) + MBUFSIZE && !NextBlockReady() ==> bufs == [] || GoneAstray()
    {
      hide Shows, Filled, Roomy, WriteAt, Canonical, SameBlocks, ChunkLen, AllRoomy, Owned, Matches, Sorted,
        Crowded, TableAt, HasBlock, New, Align, PosMeets, Ready, Prepared, Target, PosAfter, Put, Stepped;
      var pos := wbcFilePos;
      var status, wbh;
      ghost var k;
      status, wbh, k, p, q := TargetBuffer();
      via, full := q != k, false;
      if status != 1 {
        return status, via, full, p, q;
      }
      OwnArrays(k);
      InSorted(view, k);
      TableAtIs(view, k);
      AtBlockIs(q, Align(pos));
      Distinct(view, k, q);
      ghost var mid := view;
      cnt, full := FillAndCheck(wbh, k, q, pos, d);
      if cnt != -1 {
        Advance(cnt);
        if mid[k].table == [] { EmptyNotCrowded(pos, cnt); }
        if !full {
          ReadyIs(q);
          Steppers(old(view), p, pos, d, mid, k, view, q);
          SameBlocksTransfer(old(view), mid, view, Align(pos), old(Full()), old(Avail()), Avail());
        }
      }
    }

    method Advance(cnt: nat)
      requires Structured()
      modifies this`wbcFilePos
      ensures Structured() && wbcFilePos == old(wbcFilePos) + cnt
      ensures Avail() == old(Avail())
    {
      hide Matches, Shows, Sorted, AllRoomy, Owned;
      wbcFilePos := wbcFilePos + cnt;
    }

    // FlushCacheAndWrite: past the cache.
    method FlushAndWrite(d: seq<Byte>) returns (res: int)
      requires Structured() && d != []
      modifies this`bufs, this`view, this`datas, this`fileLen, this`direct, g, srv
      ensures srv.lost == old(srv.lost) + if res == -1 then 1 else 0
      ensures res == -1 || res == |d|
      ensures bufs == [] && view == [] && Owned(g, [], [], hdrs, mbufs)
      ensures res != -1 ==> Structured() && direct == WriteAt(old(direct), filePos, d) && fileLen == |direct|
    {
      hide Shows, Sorted, WriteAt;
      var ok := FlushCache();
      if !ok {
        return -1;
      }
      var size;
      res, size := MWrite(srv, filePos, d, maxWriteSize);
      if res != -1 {
        fileLen := size;
        direct := srv.file;
        ShowsNothing(srv.file, direct);
      }
    }

    // WBufWrite keeps its own requirement alive for the next block of the same
    // write as long as it filled PosData itself and did not flush.
    function NextBlockReady(): bool
      reads this, bufs
    {
      posData != null && posData in bufs && posData.fileOffs + MBUFSIZE == wbcFilePos
    }

    lemma FullIs()
      requires Structured()
      ensures |bufs| == |view| && (Full() <==> |view| >= maxBufs || Avail() <= 0)
    {
    }

    lemma AtHas(B: int)
      requires AtBlock(B)
      ensures HasBlock(view, B)
    {
    }

    // PosData is the buffer of block B.
    ghost predicate AtBlock(B: int)
      reads this
    {
      exists p :: 0 <= p < |bufs| == |view| && posData == bufs[p] && view[p].offs == B
    }

    lemma AtBlockIs(p: nat, B: int)
      requires Structured() && p < |bufs| && posData == bufs[p]
      ensures AtBlock(B) <==> view[p].offs == B
    {
    }

    lemma ReadyIs(p: nat)
      requires Matches(bufs, view, datas) && p < |bufs| && posData == bufs[p]
      ensures NextBlockReady() <==> view[p].offs + MBUFSIZE == wbcFilePos
    {
    }

    lemma ReadyMeets()
      requires Structured() && NextBlockReady()
      ensures PosMeets(wbcFilePos)
    {
      var p :| 0 <= p < |bufs| && bufs[p] == posData;
      assert view[p].offs == posData.fileOffs;
      assert p + 1 < |bufs| ==> view[p].offs + MBUFSIZE <= view[p + 1].offs;
      assert p > 0 ==> view[p - 1].offs + MBUFSIZE <= view[p].offs;
      assert Meets(p, wbcFilePos);
    }

    // The first block of a buffered write.
    method FirstChunk(d: seq<Byte>) returns (cnt: int)
      requires Structured() && d != [] && |bufs| + Avail() > 0
      modifies this`bufs, this`view, this`datas, this`posData, this`wbcFilePos, this`direct, g, srv
      modifies hdrs, mbufs, set h | h in hdrs :: h.info
      ensures srv.lost == old(srv.lost) + if cnt == -1 then 1 else 0
      ensures InLimit(old(|bufs|))
      ensures cnt == -1 || cnt == ChunkLen(filePos, |d|)
      ensures cnt == -1 ==> bufs == [] && view == [] && Owned(g, [], [], hdrs, mbufs)
      ensures cnt != -1 ==> Structured() && wbcFilePos == filePos + cnt
      ensures cnt != -1 ==> direct == WriteAt(old(direct), filePos, d[..cnt])
      ensures cnt != -1 && wbcFilePos == Align(filePos) + MBUFSIZE ==>
        (NextBlockReady() <==> !LosesFirst(old(view), filePos)) && (NextBlockReady() || bufs == [] || GoneAstray())
      ensures cnt != -1 && NextBlockReady() && wbcFilePos == Align(filePos) + MBUFSIZE ==>
        Advanced(old(view), view, maxBufs, old(Avail()), Avail(), Align(filePos), 1)
    {
      hide Shows, Sorted, WriteAt, Align, AllRoomy, Owned, Matches, TableAt, HasBlock, New, Grown, Fit, Advanced,
        Crowded, SameBlocks, AtBlock, NextBlockReady, PosMeets, GoneAstray, IsPos, Ready, Stepped;
      FullIs();
      var status := SeekAndPrepare(filePos);
      if status == -1 {
        return -1;
      }
      ghost var sought, B := view, Align(filePos);
      if AtBlock(B) { AtHas(B); }
      EmptyNotCrowded(filePos, ChunkLen(filePos, |d|));
      FullIs();
      ghost var via, full, p, q;
      cnt, via, full, p, q := WBufWrite(d);
      if cnt != -1 && !via && !full {
        if HasBlock(old(view), B) {
          AdvanceSame(old(view), view, maxBufs, old(Avail()), B);
        } else {
          if HasBlock(sought, B) {
            SameBlocksTransfer(old(view), sought, view, B, old(Full()), old(Avail()), Avail());
          }
          AdvanceFirst(old(view), view, maxBufs, old(Avail()), Avail(), B, old(Full()));
        }
      }
    }

    lemma ReadyNotAt()
      requires Structured() && NextBlockReady()
      ensures PosMeets(wbcFilePos) && !AtBlock(wbcFilePos)
    {
      ReadyMeets();
      var p :| 0 <= p < |bufs| && bufs[p] == posData;
      AtBlockIs(p, wbcFilePos);
      ReadyIs(p);
    }

    // Every further block; `vs` and `avail` are the list and the free buffers
    // at the start of the write, B its first block, j the number of this one.
    method NextChunk(d: seq<Byte>, ghost vs: seq<Buffer>, ghost avail: int, ghost B: nat, ghost j: nat) returns (cnt: int)
      requires Structured() && NextBlockReady() && d != [] && j >= 1
      requires wbcFilePos == B + j * MBUFSIZE && B % MBUFSIZE == 0
      requires Advanced(vs, view, maxBufs, avail, Avail(), B, j)
      modifies this`bufs, this`view, this`datas, this`posData, this`wbcFilePos, this`direct, g, srv
      modifies hdrs, mbufs, set h | h in hdrs :: h.info
      ensures srv.lost == old(srv.lost) + if cnt == -1 then 1 else 0
      ensures InLimit(old(|bufs|))
      ensures cnt == -1 || cnt == ChunkLen(old(wbcFilePos), |d|)
      ensures cnt == -1 ==> bufs == [] && view == [] && Owned(g, [], [], hdrs, mbufs)
      ensures cnt != -1 ==> Structured() && wbcFilePos == old(wbcFilePos) + cnt
      ensures cnt != -1 ==> direct == WriteAt(old(direct), old(wbcFilePos), d[..cnt])
      ensures cnt != -1 && wbcFilePos == old(wbcFilePos) + MBUFSIZE ==>
        (NextBlockReady() <==> !LosesNext(vs, maxBufs, avail, B, j)) && (NextBlockReady() || bufs == [] || GoneAstray())
      ensures cnt != -1 && NextBlockReady() && wbcFilePos == old(wbcFilePos) + MBUFSIZE ==>
        Advanced(vs, view, maxBufs, avail, Avail(), B, j + 1)
    {
      hide Shows, Sorted, WriteAt, Align, AllRoomy, Owned, Matches, TableAt, HasBlock, New, Grown, Fit, Advanced,
        Crowded, SameBlocks, AtBlock, NextBlockReady, PosMeets, GoneAstray, IsPos, Ready, Stepped;
      FullIs();
      ReadyNotAt();
      AlignIs(wbcFilePos, B, j);
      AdvancedHas(vs, view, maxBufs, avail, Avail(), B, j);
      ghost var via, full, p, q;
      cnt, via, full, p, q := WBufWrite(d);
      if cnt != -1 && !via && !full {
        AdvanceNext(vs, old(view), view, maxBufs, avail, old(Avail()), Avail(), B, j, old(Full()));
      }
    }

    // The buffered branch of wc_WriteCache. LOST is reported exactly when some
    // block but the last leaves PosData unusable for the one after it.
    method WriteBuffered(d: seq<Byte>) returns (res: int)
      requires Structured() && d != [] && |bufs| + Avail() > 0
      modifies this`bufs, this`view, this`datas, this`posData, this`wbcFilePos, this`direct, g, srv
      modifies hdrs, mbufs, set h | h in hdrs :: h.info
      ensures srv.lost == old(srv.lost) + if res == -1 then 1 else 0
      ensures InLimit(old(|bufs|))
      ensures res == LOST || res == -1 || res == |d|
      ensures res != -1 ==> (res == LOST <==> Loses(old(view), maxBufs, old(Avail()), filePos, |d|))
      ensures res == -1 ==> bufs == [] && view == [] && Owned(g, [], [], hdrs, mbufs)
      ensures res >= 0 ==> Structured() && direct == WriteAt(old(direct), filePos, d) && wbcFilePos == filePos + |d|
      ensures res == LOST ==> Structured() && filePos < wbcFilePos < filePos + |d|
      ensures res == LOST ==> direct == WriteAt(old(direct), filePos, d[..wbcFilePos - filePos])
      ensures res == LOST ==> bufs == [] || GoneAstray()
    {
      hide Shows, Sorted, WriteAt, AllRoomy, Owned, Matches, TableAt, HasBlock, New, Grown, Fit, Advanced,
        Crowded, SameBlocks, AtBlock, NextBlockReady, PosMeets, LosesFirst, LosesNext, Align, GoneAstray;
      ghost var vs, avail, B, j := view, Avail(), Align(filePos), 1;
      var done := FirstChunk(d);
      if done == -1 {
        return -1;
      }
      while done < |d|
        invariant 0 < done <= |d| && Structured() && wbcFilePos == filePos + done && j >= 1 && srv.lost == old(srv.lost)
        invariant InLimit(old(|bufs|))
        invariant direct == WriteAt(old(direct), filePos, d[..done])
        invariant forall i: nat :: i + 1 < j ==> !LosesAt(vs, maxBufs, avail, filePos, i)
        invariant done < |d| ==> wbcFilePos == B + j * MBUFSIZE
        invariant done < |d| ==> (NextBlockReady() <==> !LosesAt(vs, maxBufs, avail, filePos, j - 1))
        invariant done < |d| && !NextBlockReady() ==> bufs == [] || GoneAstray()
        invariant done < |d| && NextBlockReady() ==> Advanced(vs, view, maxBufs, avail, Avail(), B, j)
        invariant done == |d| ==> filePos + |d| <= B + j * MBUFSIZE
      {
        if !NextBlockReady() {
          return LOST;
        }
        var cnt := NextPart(d, done, old(direct), vs, avail, B, j);
        if cnt == -1 {
          return -1;
        }
        done := done + cnt;
        j := j + 1;
      }
      assert d[..done] == d;
      return |d|;
    }

    // One round of that loop
    method NextPart(d: seq<Byte>, done: nat, ghost before: seq<Byte>, ghost vs: seq<Buffer>, ghost avail: int, ghost B: nat, ghost j: nat)
      returns (cnt: int)
      requires Structured() && NextBlockReady() && 0 < done < |d| && wbcFilePos == filePos + done && j >= 1
      requires direct == WriteAt(before, filePos, d[..done])
      requires B == Align(filePos) && wbcFilePos == B + j * MBUFSIZE
      requires Advanced(vs, view, maxBufs, avail, Avail(), B, j)
      modifies this`bufs, this`view, this`datas, this`posData, this`wbcFilePos, this`direct, g, srv
      modifies hdrs, mbufs, set h | h in hdrs :: h.info
      ensures srv.lost == old(srv.lost) + if cnt == -1 then 1 else 0
      ensures InLimit(old(|bufs|))
      ensures cnt == -1 ==> bufs == [] && view == [] && Owned(g, [], [], hdrs, mbufs)
      ensures cnt != -1 ==> 0 < cnt && done + cnt <= |d| && Structured() && wbcFilePos == filePos + done + cnt
      ensures cnt != -1 ==> direct == WriteAt(before, filePos, d[..done + cnt])
      ensures cnt != -1 && done + cnt < |d| ==> wbcFilePos == B + (j + 1) * MBUFSIZE
      ensures cnt != -1 && done + cnt < |d| ==>
        (NextBlockReady() <==> !LosesNext(vs, maxBufs, avail, B, j)) && (NextBlockReady() || bufs == [] || GoneAstray())
      ensures cnt != -1 && done + cnt < |d| && NextBlockReady() ==> Advanced(vs, view, maxBufs, avail, Avail(), B, j + 1)
      ensures cnt != -1 && done + cnt == |d| ==> filePos + |d| <= B + (j + 1) * MBUFSIZE
    {
      hide Shows, Sorted, WriteAt, AllRoomy, Owned, Matches, TableAt, HasBlock, New, Grown, Fit, Advanced,
        Crowded, SameBlocks, AtBlock, NextBlockReady, PosMeets, LosesNext, Align;
      AlignIs(wbcFilePos, B, j);
      ghost var part := d[done..][..ChunkLen(wbcFilePos, |d| - done)];
      WriteSplit(before, filePos, d[..done], part);
      assert d[..done] + part == d[..done + |part|];
      cnt := NextChunk(d[done..], vs, avail, B, j);
    }

    // wc_WriteCache: buffer the write, or flush and go past the cache when it
    // is too long or needs more buffers than there can be.
    method WriteThroughCache(d: seq<Byte>, writeBufferLimit: nat) returns (res: int)
      requires Structured() && fileLen == |direct| && d != []
      modifies this`bufs, this`view, this`datas, this`posData, this`wbcFilePos, this`direct, this`fileLen, g, srv
      modifies hdrs, mbufs, set h | h in hdrs :: h.info
      ensures srv.lost == old(srv.lost) + if res == -1 then 1 else 0
      ensures InLimit(old(|bufs|))
      ensures res == LOST || res == -1 || res == |d|
      ensures res == LOST ==> old(Loses(view, maxBufs, Avail(), filePos, |d|))
      ensures res == |d| ==> Structured() && fileLen == |direct| && direct == WriteAt(old(direct), filePos, d)
      ensures res == |d| && old(Bypasses(|d|, writeBufferLimit)) ==> bufs == []
      ensures res == |d| && !old(Bypasses(|d|, writeBufferLimit)) ==> !old(Loses(view, maxBufs, Avail(), filePos, |d|))
      ensures res == -1 ==> bufs == [] && view == [] && Owned(g, [], [], hdrs, mbufs)
    {
      hide Shows, Sorted, AllRoomy, Owned, Matches, Loses;
      if Bypasses(|d|, writeBufferLimit) {
        res := FlushAndWrite(d);
      } else {
        res := WriteBuffered(d);
        if res >= 0 && wbcFilePos > fileLen {
          fileLen := wbcFilePos;
        }
      }
    }

    // The three conditions under which wc_WriteCache does not buffer: the write
    // is over the limit, or the buffers allowed, or those there are do not hold it.
    predicate Bypasses(num: nat, writeBufferLimit: nat): (r: bool)
      reads this, g
      ensures r <==> num > writeBufferLimit || num > maxBufs * MBUFSIZE || num > (|bufs| + Avail()) * MBUFSIZE
    {
      var needed := (num + MBUFSIZE - 1) / MBUFSIZE;
      num > writeBufferLimit || needed > maxBufs || needed > |bufs| + Avail()
    }

    // act_WRITE and act_SEEK on a handle opened for writing, act_FLUSH and
    // act_END: any run of seeks and writes, then a flush. If no server write
    // fails and no write loses PosData, the server ends up with the file that
    // the same calls produce when each write goes straight to it; and a run of
    // writes within single blocks never loses PosData.
    method Session(ops: seq<Op>, writeBufferLimit: nat) returns (outcome: int)
      requires Structured() && fileLen == |direct|
      modifies this, g, srv, hdrs, mbufs, set h | h in hdrs :: h.info
      ensures srv.lost == old(srv.lost) + if outcome == -1 then 1 else 0
      ensures outcome == 0 || outcome == -1 || outcome == LOST
      ensures outcome == 0 ==> bufs == [] && Structured()
      ensures outcome == 0 ==> (srv.file, filePos) == Play(old(direct), old(filePos), ops)
      ensures outcome == LOST ==> !OneBlockEach(old(direct), old(filePos), ops)
    {
      hide Shows, Sorted, AllRoomy, Owned, Matches, Loses, WriteAt;
      var i := 0;
      while i < |ops|
        invariant 0 <= i <= |ops| && Structured() && fileLen == |direct|
        invariant hdrs == old(hdrs) && mbufs == old(mbufs) && srv.lost == old(srv.lost)
        invariant Play(direct, filePos, ops[i..]) == Play(old(direct), old(filePos), ops)
        invariant OneBlockEach(old(direct), old(filePos), ops) ==> OneBlockEach(direct, filePos, ops[i..])
        decreases |ops| - i
      {
        assert ops[i..] == [ops[i]] + ops[i + 1..];
        var res := OneOp(ops[i], ops[i + 1..], writeBufferLimit);
        if res < 0 {
          return res;
        }
        i := i + 1;
      }
      var ok := FlushCache();
      return if ok then 0 else -1;
    }

    // One seek or write; `rest` is what comes after it.
    method OneOp(op: Op, ghost rest: seq<Op>, writeBufferLimit: nat) returns (res: int)
      requires Structured() && fileLen == |direct|
      modifies this`bufs, this`view, this`datas, this`posData, this`wbcFilePos, this`direct, this`fileLen, this`filePos, g, srv
      modifies hdrs, mbufs, set h | h in hdrs :: h.info
      ensures srv.lost == old(srv.lost) + if res == -1 then 1 else 0
      ensures res >= 0 || res == -1 || res == LOST
      ensures res >= 0 ==> Structured() && fileLen == |direct|
      ensures res >= 0 ==> Play(direct, filePos, rest) == Play(old(direct), old(filePos), [op] + rest)
      ensures OneBlockEach(old(direct), old(filePos), [op] + rest) ==>
        res != LOST && (res >= 0 ==> OneBlockEach(direct, filePos, rest))
    {
      hide Shows, Sorted, AllRoomy, Owned, Matches, Loses, WriteAt, Align;
      if op.Write? {
        OneBlockNeverLoses(view, maxBufs, Avail(), filePos, |op.d|);
      }
      assert ([op] + rest)[1..] == rest;
      res := 0;
      match op {
        case Seek(newPos) =>
          if newPos <= fileLen {
            filePos := newPos;
          }
        case Write(d) =>
          if d != [] {
            res := WriteThroughCache(d, writeBufferLimit);
            if res >= 0 {
              filePos := filePos + res;
            }
          } else {
            WriteNothing(direct, filePos);
            var ok := FlushCache();
            res := if ok then 0 else -1;
          }
      }
    }
  }

  datatype Op = Seek(newPos: nat) | Write(d: seq<Byte>)

  // The same calls without a cache: every write is stored at once.
  ghost function Play(f: seq<Byte>, pos: nat, ops: seq<Op>): (seq<Byte>, nat)
    decreases |ops|
  {
    if ops == [] then (f, pos)
    else match ops[0]
      case Seek(newPos) => Play(f, if newPos <= |f| then newPos else pos, ops[1..])
      case Write(d) => Play(WriteAt(f, pos, d), pos + |d|, ops[1..])
  }

  // No write of the run leaves the 8 KB block it starts in.
  ghost predicate OneBlockEach(f: seq<Byte>, pos: nat, ops: seq<Op>)
    decreases |ops|
  {
    if ops == [] then true
    else match ops[0]
      case Seek(newPos) => OneBlockEach(f, if newPos <= |f| then newPos else pos, ops[1..])
      case Write(d) => pos + |d| <= Align(pos) + MBUFSIZE && OneBlockEach(WriteAt(f, pos, d), pos + |d|, ops[1..])
  }

  // A write that stays inside one block meets the requirement from start to end.
  lemma OneBlockNeverLoses(vs: seq<Buffer>, max: int, avail: int, pos: nat, num: nat)
    ensures pos + num <= Align(pos) + MBUFSIZE ==> !Loses(vs, max, avail, pos, num)
  {
  }

  // ---- Writes over several blocks ----------------------------------------------

  // n new buffers fit without a flush.
  ghost predicate Fit(n: int, used: int, max: int, avail: int) {
    n == 0 || (used + n <= max && n <= avail)
  }

  // New buffers made by the first j blocks of a write that starts in block B.
  ghost function NewCount(vs: seq<Buffer>, B: int, j: int): int {
    (if HasBlock(vs, B) then 0 else 1) + j - 1
  }

  // The list after j blocks of a write, as far as the next blocks see it.
  ghost predicate Advanced(vs: seq<Buffer>, ws: seq<Buffer>, max: int, avail: int, avail': int, B: int, j: int) {
    if Fit(NewCount(vs, B, j), |vs|, max, avail) then
      && |ws| == |vs| + NewCount(vs, B, j) && avail' == avail - NewCount(vs, B, j)
      && forall x {:trigger HasBlock(ws, x)} :: x >= B + j * MBUFSIZE ==> (HasBlock(ws, x) <==> HasBlock(vs, x))
    else
      forall x {:trigger HasBlock(ws, x)} :: x >= B + j * MBUFSIZE ==> !HasBlock(ws, x)
  }

  // A write from pos to the end of its block leaves PosData unusable for the
  // next block: it enters a buffer from the one before it, or fills the table.
  ghost predicate LosesFirst(vs: seq<Buffer>, pos: nat) {
    var B := Align(pos);
    HasBlock(vs, B) && ((pos == B && HasBlock(vs, B - MBUFSIZE)) || Crowded(TableAt(vs, B), pos, B + MBUFSIZE - pos))
  }

  // Block j of a write enters a buffer from the one before it: it was in the
  // list from the start, and no flush has come in between.
  ghost predicate LosesNext(vs: seq<Buffer>, max: int, avail: int, B: int, j: int) {
    HasBlock(vs, B + j * MBUFSIZE) && Fit(NewCount(vs, B, j), |vs|, max, avail)
  }

  ghost predicate LosesAt(vs: seq<Buffer>, max: int, avail: int, pos: nat, j: nat) {
    if j == 0 then LosesFirst(vs, pos) else LosesNext(vs, max, avail, Align(pos), j)
  }

  // Some block of the write, but not the last, leaves PosData unusable.
  ghost predicate Loses(vs: seq<Buffer>, max: int, avail: int, pos: nat, num: nat) {
    exists j: nat :: Align(pos) + (j + 1) * MBUFSIZE < pos + num && LosesAt(vs, max, avail, pos, j)
  }

  lemma AlignIs(pos: nat, B: nat, j: nat)
    requires pos == B + j * MBUFSIZE && B % MBUFSIZE == 0
    ensures Align(pos) == pos
  {
  }

  lemma AdvancedHas(vs: seq<Buffer>, ws: seq<Buffer>, max: int, avail: int, a: int, B: int, j: int)
    requires Advanced(vs, ws, max, avail, a, B, j)
    ensures HasBlock(ws, B + j * MBUFSIZE) <==> LosesNext(vs, max, avail, B, j)
  {
  }

  lemma AdvanceFirst(vs: seq<Buffer>, ws: seq<Buffer>, max: int, avail: int, avail': int, B: int, full: bool)
    requires !HasBlock(vs, B) && New(vs, ws, B, full, avail, avail')
    requires full <==> |vs| >= max || avail <= 0
    ensures Advanced(vs, ws, max, avail, avail', B, 1)
  {
  }

  lemma AdvanceSame(vs: seq<Buffer>, ws: seq<Buffer>, max: int, avail: int, B: int)
    requires HasBlock(vs, B) && SameBlocks(vs, ws)
    ensures Advanced(vs, ws, max, avail, avail, B, 1)
  {
  }

  lemma AdvanceNext(vs: seq<Buffer>, ws: seq<Buffer>, xs: seq<Buffer>, max: int, avail: int, a: int, a': int, B: int, j: int, full: bool)
    requires j >= 1 && Advanced(vs, ws, max, avail, a, B, j) && New(ws, xs, B + j * MBUFSIZE, full, a, a')
    requires full <==> |ws| >= max || a <= 0
    ensures Advanced(vs, xs, max, avail, a', B, j + 1)
  {
  }

  // Reported instead of what the source does once PosData no longer meets the
  // requirement of WBufWrite.
  const LOST := -2

  ghost predicate SameBlocks(vs: seq<Buffer>, ws: seq<Buffer>) {
    |ws| == |vs| && forall j :: 0 <= j < |ws| ==> ws[j].offs == vs[j].offs
  }

  // The two halves of a step on values.
  lemma Steppers(vs: seq<Buffer>, p: nat, pos: nat, d: seq<Byte>, mid: seq<Buffer>, k: nat, ws: seq<Buffer>, q: nat)
    requires Ready(vs, p, pos) && d != [] && k < |mid| && |mid[k].data| == MBUFSIZE
    requires ws == mid[k := Put(mid[k], pos - Align(pos), d[..ChunkLen(pos, |d|)])]
    ensures mid == Prepared(vs, p, pos, mid[k].data) && k == Target(vs, p, pos) && q == PosAfter(vs, p, pos) ==>
      Stepped(vs, p, pos, d, ws, q)
  {
  }

  lemma HeadMade(vs: seq<Buffer>, ws: seq<Buffer>, B: int, full: bool, a: int, a': int)
    requires if full then InsertedAt([], ws, 0, B) else InsertedAt(vs, ws, 0, B) && a' == a - 1
    ensures New(vs, ws, B, full, a, a') && ws != [] && ws[0].offs == B && TableAt(ws, B) == []
  {
    if !full { InsertGrows(vs, ws, 0, B); }
  }

  lemma Distinct(vs: seq<Buffer>, k: nat, p: nat)
    requires Sorted(vs) && k < |vs| && p < |vs|
    ensures vs[k].offs == vs[p].offs <==> k == p
  {
  }

  lemma EmptyNotCrowded(pos: nat, cnt: int)
    ensures !Crowded([], pos, cnt)
  {
  }

  lemma SameHas(vs: seq<Buffer>, ws: seq<Buffer>)
    requires SameBlocks(vs, ws)
    ensures forall x {:trigger HasBlock(ws, x)} :: HasBlock(ws, x) <==> HasBlock(vs, x)
  {
  }

  lemma SameBlocksTransfer(vs: seq<Buffer>, ms: seq<Buffer>, ws: seq<Buffer>, B: int, full: bool, a: int, a': int)
    requires SameBlocks(ms, ws)
    ensures |ws| == |ms| && forall j :: 0 <= j < |ms| ==> ws[j].offs == ms[j].offs
    ensures New(vs, ms, B, full, a, a') ==> New(vs, ws, B, full, a, a')
  {
    SameHas(ms, ws);
  }

  lemma FilledIsPut(b: Buffer, c: Buffer, o: int, d: seq<Byte>)
    requires WellFormed(b) && Filled(b, c, o, d)
    ensures c == Put(b, o, d)
  {
    hide Merged, Covers, GrowsByOne;
    MergedIsUnion(b.table, o, o + |d| - 1);
    CanonicalUnique(c.table, Merged(b.table, o, o + |d| - 1));
  }

  // Does a write of cnt bytes at pos fill the table t up to the flush mark?
  ghost predicate Crowded(t: seq<Interval>, pos: nat, cnt: int) {
    |Merged(t, pos - Align(pos), pos - Align(pos) + cnt - 1)| + 1 >= WBUFHDRINFOSIZE
  }

  // ws is vs plus the block B.
  ghost predicate Grown(vs: seq<Buffer>, ws: seq<Buffer>, B: int) {
    && |ws| == |vs| + 1
    && forall x {:trigger HasBlock(ws, x)} :: HasBlock(ws, x) <==> HasBlock(vs, x) || x == B
  }

  // What a new buffer for block B does to a list: it is added and takes one
  // free buffer, or it is all that remains after a flush.
  ghost predicate New(vs: seq<Buffer>, ws: seq<Buffer>, B: int, full: bool, avail: int, avail': int) {
    if full then |ws| == 1 && ws[0].offs == B else Grown(vs, ws, B) && avail' == avail - 1
  }

  lemma InsertGrows(vs: seq<Buffer>, ws: seq<Buffer>, p: nat, B: int)
    requires InsertedAt(vs, ws, p, B)
    ensures Grown(vs, ws, B)
  {
    forall x ensures HasBlock(ws, x) <==> HasBlock(vs, x) || x == B {
      if HasBlock(vs, x) {
        var k :| 0 <= k < |vs| && vs[k].offs == x;
        assert ws[if k < p then k else k + 1] == vs[k];
      }
      if HasBlock(ws, x) && x != B {
        var k :| 0 <= k < |ws| && ws[k].offs == x;
        assert ws[k] == vs[if k < p then k else k - 1];
      }
      assert ws[p].offs == B;
    }
  }

  // The table of the block at B, empty when there is none.
  ghost function TableAt(vs: seq<Buffer>, B: int): seq<Interval> {
    if vs == [] then [] else if vs[0].offs == B then vs[0].table else TableAt(vs[1..], B)
  }

  lemma {:induction false} TableAtIs(vs: seq<Buffer>, k: nat)
    requires Sorted(vs) && k < |vs|
    ensures TableAt(vs, vs[k].offs) == vs[k].table
  {
    if k > 0 {
      assert vs[0].offs + MBUFSIZE <= vs[k].offs;
      FirstSorted(vs[0], vs[1..]);
      assert vs == [vs[0]] + vs[1..];
      TableAtIs(vs[1..], k - 1);
    }
  }

  // PosData is number p: it is checked after the fill, and a buffer right after
  // it was entered at its first byte.
  lemma RoomyAfter(vs: seq<Buffer>, ws: seq<Buffer>, k: nat, p: nat, o: int, d: seq<Byte>)
    requires AllRoomy(vs) && k < |vs| == |ws| && ws == vs[k := ws[k]] && Filled(vs[k], ws[k], o, d)
    requires p < |ws| && (p == k || o == 0) && |ws[p].table| + 1 < WBUFHDRINFOSIZE
    ensures AllRoomy(ws)
    ensures SameBlocks(vs, ws)
  {
  }

  lemma FillAt(f: seq<Byte>, vs: seq<Buffer>, ws: seq<Buffer>, k: nat, g: seq<Byte>, o: int, d: seq<Byte>, pos: nat, g': seq<Byte>)
    requires Sorted(vs) && Shows(f, vs, g) && k < |vs|
    requires |ws| == |vs| && ws == vs[k := ws[k]] && Filled(vs[k], ws[k], o, d)
    requires pos == vs[k].offs + o && g' == WriteAt(g, pos, d)
    ensures Sorted(ws) && Shows(f, ws, g')
  {
    hide Sorted, Shows, Filled, WriteAt;
    assert vs == vs[..k] + [vs[k]] + vs[k + 1..];
    assert ws == vs[..k] + [ws[k]] + vs[k + 1..];
    FillShows(f, vs[..k], vs[k], ws[k], vs[k + 1..], g, o, d);
  }

  ghost predicate HasBlock(vs: seq<Buffer>, offs: int) {
    exists k :: 0 <= k < |vs| && vs[k].offs == offs
  }

  // Where the block of a position is, or belongs, relative to number p.
  lemma BlockOf(vs: seq<Buffer>, p: nat, pos: nat)
    requires Sorted(vs) && p < |vs| && vs[p].offs <= pos
    requires p + 1 < |vs| ==> pos < vs[p + 1].offs + MBUFSIZE
    ensures pos < vs[p].offs + MBUFSIZE ==> vs[p].offs == Align(pos)
    ensures vs[p].offs + MBUFSIZE <= pos && p + 1 < |vs| && vs[p + 1].offs <= pos ==> vs[p + 1].offs == Align(pos)
    ensures vs[p].offs + MBUFSIZE <= pos && (p + 1 == |vs| || pos < vs[p + 1].offs) ==>
      Fits(vs, p + 1, Align(pos)) && !HasBlock(vs, Align(pos))
  {
  }

  lemma AlignBelow(pos: nat, b: Buffer)
    requires WellFormed(b) && pos < b.offs
    ensures Align(pos) + MBUFSIZE <= b.offs
  {
  }

  // A block at `offs` keeps the order when it becomes number p.
  ghost predicate Fits(vs: seq<Buffer>, p: nat, offs: int) {
    && p <= |vs|
    && (p > 0 ==> vs[p - 1].offs + MBUFSIZE <= offs)
    && (p < |vs| ==> offs + MBUFSIZE <= vs[p].offs)
  }

  ghost predicate InsertedAt(vs: seq<Buffer>, ws: seq<Buffer>, p: nat, offs: int) {
    && p <= |vs| && |ws| == |vs| + 1
    && ws == vs[..p] + [ws[p]] + vs[p..]
    && ws[p].offs == offs && ws[p].table == []
  }

  lemma InsertFresh(f: seq<Byte>, vs: seq<Buffer>, p: nat, b: Buffer, g: seq<Byte>)
    requires Sorted(vs) && Shows(f, vs, g) && AllRoomy(vs)
    requires WellFormed(b) && b.table == [] && Fits(vs, p, b.offs)
    ensures Sorted(vs[..p] + [b] + vs[p..]) && Shows(f, vs[..p] + [b] + vs[p..], g)
    ensures AllRoomy(vs[..p] + [b] + vs[p..])
    ensures InsertedAt(vs, vs[..p] + [b] + vs[p..], p, b.offs)
  {
    hide Shows, Sorted, Canonical, WellFormed;
    assert vs[..p] + vs[p..] == vs;
    InsertShows(f, vs[..p], b, vs[p..], g);
    var ws := vs[..p] + [b] + vs[p..];
    forall k | 0 <= k < |ws| ensures Roomy(ws[k].table) {
      if k < p { assert ws[k] == vs[k]; } else if k > p { assert ws[k] == vs[k - 1]; }
    }
  }

  lemma {:induction false} DistinctOnce<T>(s: seq<T>)
    requires forall i, j :: 0 <= i < j < |s| ==> s[i] != s[j]
    ensures multiset(s) == multiset(set x | x in s)
  {
    if s != [] {
      DistinctOnce(s[1..]);
      assert s == [s[0]] + s[1..];
      assert (set x | x in s) == {s[0]} + (set x | x in s[1..]);
    }
  }
}
