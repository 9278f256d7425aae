// The flush as a function of the buffer list, and what becomes of a write over
// several blocks once PosData no longer meets the requirement of WBufWrite.
module WriteReplay {
  import opened DirtyTable
  import opened ServerFile
  import opened WriteBehind
  import opened WriteCache
  import opened WriteHeader
  import opened WriteStep

  // iwc_FlushCache: list order, within a buffer table order.
  ghost function Replay(f: seq<Byte>, bs: seq<Buffer>): seq<Byte>
    decreases |bs|, if bs == [] then 0 else |bs[0].table|
  {
    if bs == [] then f
    else if bs[0].table == [] then Replay(f, bs[1..])
    else
      var b, r := bs[0], bs[0].table[0];
      var rest := [b.(table := b.table[1..])] + bs[1..];
      if 0 <= b.offs && 0 <= r.from <= r.to < |b.data| then
        Replay(WriteAt(f, b.offs + r.from, b.data[r.from..r.to + 1]), rest)
      else Replay(f, rest)
  }

  // One step of the replay: the first dirty range of the first buffer.
  ghost function Stored(f: seq<Byte>, b: Buffer): seq<Byte>
    requires b.table != [] && 0 <= b.offs && 0 <= b.table[0].from <= b.table[0].to < |b.data|
  {
    WriteAt(f, b.offs + b.table[0].from, b.data[b.table[0].from..b.table[0].to + 1])
  }

  lemma ReplayStep(f: seq<Byte>, b: Buffer, rest: seq<Buffer>)
    requires b.table != [] && 0 <= b.offs && 0 <= b.table[0].from <= b.table[0].to < |b.data|
    ensures Replay(f, [b] + rest) == Replay(Stored(f, b), [b.(table := b.table[1..])] + rest)
  {
  }

  lemma ReplayDrop(f: seq<Byte>, b: Buffer, rest: seq<Buffer>)
    requires b.table == []
    ensures Replay(f, [b] + rest) == Replay(f, rest)
  {
  }

  // For a sorted list the replay yields the overlay, whatever the server's file is.
  lemma {:induction false} ReplayIsOverlay(f: seq<Byte>, bs: seq<Buffer>, g: seq<Byte>)
    requires Sorted(bs) && Shows(f, bs, g)
    ensures Replay(f, bs) == g
    decreases |bs|, if bs == [] then 0 else |bs[0].table|
  {
    hide Shows, Sorted, Replay, WellFormed;
    if bs == [] {
      ShowsNothing(f, g);
      ReplayNothing(f);
    } else {
      var b, rest := bs[0], bs[1..];
      assert bs == [b] + rest;
      if b.table == [] {
        DropShows(f, b, rest, g);
        ReplayIsOverlay(f, rest, g);
        ReplayDrop(f, b, rest);
      } else {
        StoreShows(f, b, rest, g);
        StoredBuffer(b);
        ReplayIsOverlay(Stored(f, b), [b.(table := b.table[1..])] + rest, g);
        ReplayStep(f, b, rest);
      }
    }
  }

  lemma ReplayNothing(f: seq<Byte>)
    ensures Replay(f, []) == f
  {
  }

  lemma StoredBuffer(b: Buffer)
    requires WellFormed(b)
    ensures b.offs >= 0
  {
  }

  // A write that starts in an empty cache never loses PosData.
  lemma EmptyCacheNeverLoses(max: int, avail: int, pos: nat, num: nat)
    ensures !Loses([], max, avail, pos, num)
  {
  }

  // A buffer with a single dirty range is replayed by a single store.
  lemma ReplayOne(f: seq<Byte>, b: Buffer, rest: seq<Buffer>)
    requires |b.table| == 1 && 0 <= b.offs && 0 <= b.table[0].from <= b.table[0].to < |b.data|
    ensures Replay(f, [b] + rest) == Replay(Stored(f, b), rest)
  {
  }

  // ---- A write whose PosData has gone astray -----------------------------------

  lemma {:induction false} ReplayConcat(f: seq<Byte>, a: seq<Buffer>, c: seq<Buffer>)
    requires forall k :: 0 <= k < |a| ==> WellFormed(a[k])
    ensures Replay(f, a + c) == Replay(Replay(f, a), c)
    decreases |a|, if a == [] then 0 else |a[0].table|
  {
    hide Canonical, Replay, Stored;
    if a == [] {
      ReplayNothing(f);
      assert a + c == c;
    } else {
      var b, rest := a[0], a[1..];
      assert a == [b] + rest && a + c == [b] + (rest + c);
      if b.table == [] {
        ReplayDrop(f, b, rest);
        ReplayDrop(f, b, rest + c);
        ReplayConcat(f, rest, c);
      } else {
        FirstRange(b);
        ReplayStep(f, b, rest);
        ReplayStep(f, b, rest + c);
        var b' := b.(table := b.table[1..]);
        assert [b'] + rest + c == [b'] + (rest + c);
        ReplayConcat(Stored(f, b), [b'] + rest, c);
      }
    }
  }

  lemma FirstRange(b: Buffer)
    requires WellFormed(b) && b.table != []
    ensures 0 <= b.offs && 0 <= b.table[0].from <= b.table[0].to < |b.data| && WellFormed(b.(table := b.table[1..]))
  {
  }

  // Every sorted list has an overlay over every file.
  lemma {:induction false} ReplayShows(f: seq<Byte>, bs: seq<Buffer>)
    requires Sorted(bs)
    ensures Shows(f, bs, Replay(f, bs))
    decreases |bs|, if bs == [] then 0 else |bs[0].table|
  {
    hide Shows, Sorted, Replay, WellFormed;
    if bs == [] {
      ReplayNothing(f);
      ShowsNothing(f, f);
    } else {
      var b, rest := bs[0], bs[1..];
      assert bs == [b] + rest;
      FirstSorted(b, rest);
      if b.table == [] {
        ReplayShows(f, rest);
        ReplayDrop(f, b, rest);
        UndropShows(f, b, rest, Replay(f, rest));
      } else {
        FirstRange(b);
        ReplayShows(Stored(f, b), [b.(table := b.table[1..])] + rest);
        ReplayStep(f, b, rest);
        UnstoreShows(f, b, rest, Replay(f, bs));
      }
    }
  }

  lemma UndropShows(f: seq<Byte>, b: Buffer, rest: seq<Buffer>, g: seq<Byte>)
    requires Shows(f, rest, g) && b.table == []
    ensures Shows(f, [b] + rest, g)
  {
  }

  lemma UnstoreShows(f: seq<Byte>, b: Buffer, rest: seq<Buffer>, g: seq<Byte>)
    requires Sorted([b] + rest) && b.table != [] && 0 <= b.offs && 0 <= b.table[0].from <= b.table[0].to < |b.data|
    requires Shows(Stored(f, b), [b.(table := b.table[1..])] + rest, g)
    ensures Shows(f, [b] + rest, g)
  {
    hide Shows, Sorted, WellFormed, Canonical, Covers;
    FirstSorted(b, rest);
    var r, b' := b.table[0], b.(table := b.table[1..]);
    forall x
      ensures Pending([b] + rest, x)
        == if b.offs + r.from <= x <= b.offs + r.to then b.data[x - b.offs] else Pending([b'] + rest, x)
      ensures b.offs + r.from <= x <= b.offs + r.to ==> Pending([b'] + rest, x) == -1
    {
      StorePending(b, rest, x);
    }
    UnstoreBytes(f, [b] + rest, [b'] + rest, b.offs + r.from, b.data[r.from..r.to + 1], g);
  }

  lemma UnstoreBytes(f: seq<Byte>, bs: seq<Buffer>, bs': seq<Buffer>, from: nat, d: seq<Byte>, g: seq<Byte>)
    requires d != [] && Shows(WriteAt(f, from, d), bs', g)
    requires forall x :: Pending(bs, x) == if from <= x < from + |d| then d[x - from] else Pending(bs', x)
    requires forall x :: from <= x < from + |d| ==> Pending(bs', x) == -1
    ensures Shows(f, bs, g)
  {
  }

  // The buffers of the blocks of d are replayed as d.
  lemma {:induction false} ReplayNews(f: seq<Byte>, pos: nat, d: seq<Byte>, memory: nat -> seq<Byte>)
    requires forall x :: |memory(x)| == MBUFSIZE
    ensures Replay(f, News(pos, d, memory)) == WriteAt(f, pos, d)
    decreases |d|
  {
    hide Replay, WriteAt, Align, Put;
    if d == [] {
      ReplayNothing(f);
      WriteNothing(f, pos);
    } else {
      var n := ChunkLen(pos, |d|);
      var b, rest := Put(Fresh(pos, memory(pos)), pos - Align(pos), d[..n]), News(pos + n, d[n..], memory);
      ReplayNew(f, pos, memory(pos), d[..n], rest);
      ReplayNews(WriteAt(f, pos, d[..n]), pos + n, d[n..], memory);
      WriteSplit(f, pos, d[..n], d[n..]);
      assert d[..n] + d[n..] == d;
    }
  }

  lemma ReplayNew(f: seq<Byte>, pos: nat, junk: seq<Byte>, d: seq<Byte>, rest: seq<Buffer>)
    requires d != [] && |junk| == MBUFSIZE && pos + |d| <= Align(pos) + MBUFSIZE
    ensures Replay(f, [Put(Fresh(pos, junk), pos - Align(pos), d)] + rest) == Replay(WriteAt(f, pos, d), rest)
  {
  }

  // Sorted parts of a list on both sides of a place in it.
  lemma SortedSplit(vs: seq<Buffer>, p: nat)
    requires Sorted(vs) && p <= |vs|
    ensures Sorted(vs[..p]) && Sorted(vs[p..]) && vs[..p] + vs[p..] == vs
  {
  }

  lemma ReplayThree(f: seq<Byte>, a: seq<Buffer>, c: seq<Buffer>, pos: nat, d: seq<Byte>, memory: nat -> seq<Byte>)
    requires Sorted(a) && forall x :: |memory(x)| == MBUFSIZE
    ensures Replay(f, a + News(pos, d, memory) + c) == Replay(WriteAt(Replay(f, a), pos, d), c)
  {
    hide Replay, WriteAt, News, WellFormed;
    var n := News(pos, d, memory);
    NewsFormed(pos, d, memory);
    assert a + n + c == a + (n + c);
    ReplayConcat(f, a, n + c);
    ReplayConcat(Replay(f, a), n, c);
    ReplayNews(Replay(f, a), pos, d, memory);
  }

  lemma {:induction false} NewsFormed(pos: nat, d: seq<Byte>, memory: nat -> seq<Byte>)
    requires forall x :: |memory(x)| == MBUFSIZE
    ensures forall k :: 0 <= k < |News(pos, d, memory)| ==> WellFormed(News(pos, d, memory)[k])
    decreases |d|
  {
    if d != [] {
      hide Merged, Put;
      var n := ChunkLen(pos, |d|);
      PutFormed(Fresh(pos, memory(pos)), pos - Align(pos), d[..n]);
      NewsFormed(pos + n, d[n..], memory);
    }
  }

  // The overlay of c over the file with d stored, against d stored in the overlay.
  lemma OverlayBoth(f: seq<Byte>, c: seq<Buffer>, g: seq<Byte>, pos: nat, d: seq<Byte>, h: seq<Byte>)
    requires Shows(f, c, g) && Shows(WriteAt(f, pos, d), c, h)
    ensures |h| == |WriteAt(g, pos, d)|
    ensures forall x ::
      At(h, x) == if pos <= x < pos + |d| && Pending(c, x) >= 0 then Pending(c, x) else At(WriteAt(g, pos, d), x)
  {
  }

  // Where a write goes on behind a stray PosData, a byte that is buffered
  // already keeps its old value, and nothing else differs.
  lemma StrayBytes(f: seq<Byte>, vs: seq<Buffer>, p: nat, g: seq<Byte>, pos: nat, d: seq<Byte>, memory: nat -> seq<Byte>)
    requires Sorted(vs) && Shows(f, vs, g) && Stray(vs, p, pos) && forall x :: |memory(x)| == MBUFSIZE
    ensures Ready(vs, p, pos)
    ensures var h := Replay(f, Steps(vs, p, pos, d, memory).0);
      && |h| == |WriteAt(g, pos, d)|
      && forall x ::
        At(h, x) == if pos <= x < pos + |d| && Pending(vs, x) >= 0 then Pending(vs, x) else At(WriteAt(g, pos, d), x)
  {
    assert vs[p].offs + MBUFSIZE <= vs[p + 1].offs;
    SortedSplit(vs, p + 1);
    var a, c := vs[..p + 1], vs[p + 1..];
    StraySteps(a, c, pos, d, memory);
    var f1 := Replay(f, a);
    ReplayThree(f, a, c, pos, d, memory);
    ReplayConcat(f, a, c);
    ReplayShows(f, vs);
    ReplayIsOverlay(f, vs, g);
    ReplayShows(f1, c);
    ReplayShows(WriteAt(f1, pos, d), c);
    OverlayBoth(f1, c, g, pos, d, Replay(WriteAt(f1, pos, d), c));
    forall x | pos <= x ensures Pending(vs, x) == Pending(c, x) {
      PendingConcat(a, c, x);
      PendingOutside(a, x);
    }
  }

  // The rest of a write behind a stray PosData: d1 goes to buffers, a flush
  // comes when the cache is full, and d2 follows into the empty cache. The
  // server ends with the right file if and only if every byte of d1 that is
  // buffered already is written with the value it has there. Without a flush
  // before the end of the write, d2 is empty.
  lemma StrayExactly(f: seq<Byte>, vs: seq<Buffer>, p: nat, g: seq<Byte>, pos: nat, d1: seq<Byte>, d2: seq<Byte>, memory: nat -> seq<Byte>)
    requires Sorted(vs) && Shows(f, vs, g) && Stray(vs, p, pos) && forall x :: |memory(x)| == MBUFSIZE
    ensures Ready(vs, p, pos)
    ensures WriteAt(Replay(f, Steps(vs, p, pos, d1, memory).0), pos + |d1|, d2) == WriteAt(g, pos, d1 + d2)
      <==> forall x :: pos <= x < pos + |d1| && Pending(vs, x) >= 0 ==> Pending(vs, x) == d1[x - pos]
  {
    hide Shows, Sorted, Replay, Steps, Ready, Stray, WriteAt, Pending;
    StrayBytes(f, vs, p, g, pos, d1, memory);
    WriteSplit(g, pos, d1, d2);
    Overwritten(Replay(f, Steps(vs, p, pos, d1, memory).0), WriteAt(g, pos, d1), vs, pos, |d1|, d2);
  }

  // Two files that differ in pending bytes of a range, after a write behind it.
  lemma Overwritten(h: seq<Byte>, w: seq<Byte>, vs: seq<Buffer>, pos: nat, n: nat, d: seq<Byte>)
    requires |h| == |w|
    requires forall x :: At(h, x) == if pos <= x < pos + n && Pending(vs, x) >= 0 then Pending(vs, x) else At(w, x)
    ensures WriteAt(h, pos + n, d) == WriteAt(w, pos + n, d)
      <==> forall x :: pos <= x < pos + n && Pending(vs, x) >= 0 ==> Pending(vs, x) == At(w, x)
  {
  }

  // ---- A write that goes wrong --------------------------------------------------

  ghost function Ones(n: nat): seq<Byte> { seq(n, _ => 1) }
  ghost function Zeros(n: nat): seq<Byte> { seq(n, _ => 0) }

  // A buffer whose first byte, a zero, is dirty; and one full of dirty ones.
  ghost function Touched(offs: int): Buffer { Buffer(offs, [Interval(0, 0)], Zeros(MBUFSIZE)) }
  ghost function Full(offs: int): Buffer { Buffer(offs, [Interval(0, MBUFSIZE - 1)], Ones(MBUFSIZE)) }

  // Three neighbouring blocks, each with a dirty first byte.
  ghost function ThreeBlocks(): seq<Buffer> { [Touched(0), Touched(MBUFSIZE), Touched(2 * MBUFSIZE)] }

  // Two blocks of ones are written from the start of the second block, with
  // PosData on the first. The steps give the third block a second buffer right
  // behind PosData, and the flush stores its old first byte last.
  lemma LostWriteGoesWrong(f: seq<Byte>, memory: nat -> seq<Byte>)
    requires forall x :: |memory(x)| == MBUFSIZE
    ensures var vs, d := ThreeBlocks(), Ones(2 * MBUFSIZE);
      && Sorted(vs) && Loses(vs, 4, 4, MBUFSIZE, 2 * MBUFSIZE)
      && Placed(vs, 0, MBUFSIZE) && Ready(vs, 0, MBUFSIZE)
      && Steps(vs, 0, MBUFSIZE, d, memory).0 == [Touched(0), Full(2 * MBUFSIZE), Full(MBUFSIZE), Touched(2 * MBUFSIZE)]
      && At(Replay(f, Steps(vs, 0, MBUFSIZE, d, memory).0), 2 * MBUFSIZE) == 0
      && At(WriteAt(Replay(f, vs), MBUFSIZE, d), 2 * MBUFSIZE) == 1
  {
    hide Replay, Loses, Sorted, Steps, Placed, Ready;
    ThreeBlocksLose();
    ThreeBlocksStep(memory);
    var a, b, c, d := Touched(0), Full(2 * MBUFSIZE), Full(MBUFSIZE), Touched(2 * MBUFSIZE);
    assert [a, b, c, d] == [a] + [b, c, d] && [b, c, d] == [b] + [c, d] && [c, d] == [c] + [d] && [d] == [d] + [];
    ReplayOne(f, a, [b, c, d]);
    ReplayOne(Stored(f, a), b, [c, d]);
    ReplayOne(Stored(Stored(f, a), b), c, [d]);
    ReplayOne(Stored(Stored(Stored(f, a), b), c), d, []);
    ReplayNothing(Stored(Stored(Stored(Stored(f, a), b), c), d));
  }

  lemma ThreeBlocksLose()
    ensures var vs := ThreeBlocks();
      Sorted(vs) && Loses(vs, 4, 4, MBUFSIZE, 2 * MBUFSIZE) && Placed(vs, 0, MBUFSIZE) && Ready(vs, 0, MBUFSIZE)
  {
    var vs := ThreeBlocks();
    assert vs[0].offs == 0 && vs[1].offs == MBUFSIZE;
    assert HasBlock(vs, 0) && HasBlock(vs, MBUFSIZE);
    assert LosesAt(vs, 4, 4, MBUFSIZE, 0);
  }

  // The first step fills the second buffer and leaves PosData on the first.
  lemma FirstStep(junk: seq<Byte>)
    requires Ready(ThreeBlocks(), 0, MBUFSIZE) && |junk| == MBUFSIZE
    ensures Step(ThreeBlocks(), 0, MBUFSIZE, Ones(2 * MBUFSIZE), junk)
      == ([Touched(0), Full(MBUFSIZE), Touched(2 * MBUFSIZE)], 0)
  {
    hide Put, Ones, Canonical;
    var d := Ones(2 * MBUFSIZE);
    OnesPart(MBUFSIZE, MBUFSIZE);
    FullPut(Touched(MBUFSIZE));
    assert ThreeBlocks()[1 := Full(MBUFSIZE)] == [Touched(0), Full(MBUFSIZE), Touched(2 * MBUFSIZE)];
  }

  lemma OnesPart(m: nat, n: nat)
    ensures |Ones(m + n)| == m + n && Ones(m + n)[..m] == Ones(m) && Ones(m + n)[m..] == Ones(n)
  {
  }

  // The second step, from the stray PosData, inserts.
  lemma ThreeBlocksStep(memory: nat -> seq<Byte>)
    requires Ready(ThreeBlocks(), 0, MBUFSIZE) && forall x :: |memory(x)| == MBUFSIZE
    ensures Steps(ThreeBlocks(), 0, MBUFSIZE, Ones(2 * MBUFSIZE), memory).0
      == [Touched(0), Full(2 * MBUFSIZE), Full(MBUFSIZE), Touched(2 * MBUFSIZE)]
  {
    hide Put, Ones, Touched, Full, Ready, ThreeBlocks, Step, Canonical;
    var a, c := [Touched(0)], [Full(MBUFSIZE), Touched(2 * MBUFSIZE)];
    OnesPart(MBUFSIZE, MBUFSIZE);
    StepReady(ThreeBlocks(), 0, MBUFSIZE, Ones(2 * MBUFSIZE), memory(MBUFSIZE));
    FirstStep(memory(MBUFSIZE));
    assert [Touched(0), Full(MBUFSIZE), Touched(2 * MBUFSIZE)] == a + c;
    Offsets();
    StraySteps(a, c, 2 * MBUFSIZE, Ones(MBUFSIZE), memory);
    OneNew(memory);
    assert a + [Full(2 * MBUFSIZE)] + c == [Touched(0), Full(2 * MBUFSIZE), Full(MBUFSIZE), Touched(2 * MBUFSIZE)];
  }

  lemma Offsets()
    ensures Touched(0).offs == 0 && Full(MBUFSIZE).offs == MBUFSIZE
  {
  }

  lemma OneNew(memory: nat -> seq<Byte>)
    requires forall x :: |memory(x)| == MBUFSIZE
    ensures News(2 * MBUFSIZE, Ones(MBUFSIZE), memory) == [Full(2 * MBUFSIZE)]
  {
    hide Put, Ones, Full;
    OnesPart(MBUFSIZE, 0);
    FullPut(Fresh(2 * MBUFSIZE, memory(2 * MBUFSIZE)));
    assert News(3 * MBUFSIZE, [], memory) == [];
  }

  lemma FullPut(b: Buffer)
    requires WellFormed(b) && (b.table == [] || b.table == [Interval(0, 0)])
    ensures Put(b, 0, Ones(MBUFSIZE)) == Full(b.offs)
  {
  }
}
