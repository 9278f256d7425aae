// One round of WBufWrite (src/wbuf.c:631-712) as a step on the buffer list, the
// place of PosData in it and the file position, as long as no flush intervenes;
// and what it does once PosData no longer meets its requirement.
module WriteStep {
  import opened DirtyTable
  import opened ServerFile
  import opened WriteBehind
  import opened WriteHeader

  function Align(pos: nat): (r: nat)
    ensures r <= pos < r + MBUFSIZE && r % MBUFSIZE == 0
  {
    pos - pos % MBUFSIZE
  }

  // How much of a write goes into the block of its first byte.
  function ChunkLen(pos: nat, num: nat): (n: nat)
    ensures num > 0 ==> n > 0
    ensures n <= num && Align(pos) <= pos + n <= Align(pos) + MBUFSIZE
  {
    if Align(pos) + MBUFSIZE <= pos + num then Align(pos) + MBUFSIZE - pos else num
  }

  // The requirement of WBufWrite on PosData, number p of the list: it is the
  // buffer to fill, or one before it, or one before the place of a new buffer.
  // As the source sets it, no earlier buffer qualifies, so a buffer that is not
  // PosData itself is entered at its first byte.
  ghost predicate Placed(vs: seq<Buffer>, p: nat, pos: int) {
    && p < |vs| && vs[p].offs <= pos
    && (p + 1 < |vs| ==> pos < vs[p + 1].offs + MBUFSIZE)
    && (pos <= vs[p].offs + MBUFSIZE || p + 1 == |vs| || pos < vs[p + 1].offs)
    && (p > 0 ==> vs[p - 1].offs + MBUFSIZE < pos)
  }

  // PosData has been passed over: the write went through the buffer after it.
  ghost predicate Stray(vs: seq<Buffer>, p: nat, pos: int) {
    p + 1 < |vs| && vs[p + 1].offs + MBUFSIZE == pos
  }

  // What the step itself needs: buffers in shape, and PosData not behind pos.
  ghost predicate Ready(vs: seq<Buffer>, p: nat, pos: int) {
    p < |vs| && vs[p].offs <= pos && forall k :: 0 <= k < |vs| ==> WellFormed(vs[k])
  }

  // No buffer is found at PosData or right after it.
  ghost predicate Inserts(vs: seq<Buffer>, p: nat, pos: int)
    requires p < |vs|
  {
    && vs[p].offs + MBUFSIZE <= pos
    && !(p + 1 < |vs| && vs[p + 1].offs <= pos < vs[p + 1].offs + MBUFSIZE)
  }

  // The number of the buffer that takes the byte at pos.
  ghost function Target(vs: seq<Buffer>, p: nat, pos: int): nat
    requires p < |vs|
  {
    if pos < vs[p].offs + MBUFSIZE then p else p + 1
  }

  // A buffer as it comes from the free list, with whatever it held before.
  ghost function Fresh(pos: nat, junk: seq<Byte>): Buffer {
    Buffer(Align(pos), [], junk)
  }

  // The list once that buffer is there, and the place of PosData in it.
  ghost function Prepared(vs: seq<Buffer>, p: nat, pos: nat, junk: seq<Byte>): seq<Buffer>
    requires p < |vs|
  {
    if Inserts(vs, p, pos) then vs[..p + 1] + [Fresh(pos, junk)] + vs[p + 1..] else vs
  }

  ghost function PosAfter(vs: seq<Buffer>, p: nat, pos: nat): nat
    requires p < |vs|
  {
    if Inserts(vs, p, pos) then p + 1 else p
  }

  // CopyMem and WBufUpdateInfo
  ghost function Put(b: Buffer, o: int, d: seq<Byte>): Buffer
    requires 0 <= o && o + |d| <= |b.data|
  {
    Buffer(b.offs, Merged(b.table, o, o + |d| - 1), b.data[..o] + d + b.data[o + |d|..])
  }

  lemma PutFormed(b: Buffer, o: int, d: seq<Byte>)
    requires WellFormed(b) && 0 <= o && d != [] && o + |d| <= MBUFSIZE
    ensures WellFormed(Put(b, o, d)) && Put(b, o, d).offs == b.offs
  {
    hide Merged, Canonical, Covers;
    MergedIsUnion(b.table, o, o + |d| - 1);
  }

  // The buffer that takes the byte is the one of its block.
  lemma TargetBlock(vs: seq<Buffer>, p: nat, pos: nat, junk: seq<Byte>)
    requires Ready(vs, p, pos) && |junk| == MBUFSIZE
    ensures var ws := Prepared(vs, p, pos, junk);
      && Target(vs, p, pos) < |ws| && ws[Target(vs, p, pos)].offs == Align(pos)
      && Ready(ws, PosAfter(vs, p, pos), pos) && |ws[Target(vs, p, pos)].data| == MBUFSIZE
  {
  }

  // The list and the place of PosData after the first part of d was taken.
  ghost function Step(vs: seq<Buffer>, p: nat, pos: nat, d: seq<Byte>, junk: seq<Byte>): (seq<Buffer>, nat)
    requires Ready(vs, p, pos) && d != [] && |junk| == MBUFSIZE
  {
    hide Ready, WellFormed, Align, Prepared, Target;
    TargetBlock(vs, p, pos, junk);
    ReadyPlace(vs, p, pos);
    var ws, k := Prepared(vs, p, pos, junk), Target(vs, p, pos);
    (ws[k := Put(ws[k], pos - Align(pos), d[..ChunkLen(pos, |d|)])], PosAfter(vs, p, pos))
  }

  lemma ReadyPlace(vs: seq<Buffer>, p: nat, pos: int)
    requires Ready(vs, p, pos)
    ensures p < |vs|
  {
  }

  lemma StepReady(vs: seq<Buffer>, p: nat, pos: nat, d: seq<Byte>, junk: seq<Byte>)
    requires Ready(vs, p, pos) && d != [] && |junk| == MBUFSIZE
    ensures var r := Step(vs, p, pos, d, junk); Ready(r.0, r.1, pos + ChunkLen(pos, |d|))
  {
    hide Ready, WellFormed, Align, Prepared, Target, Put, PosAfter;
    TargetBlock(vs, p, pos, junk);
    ReadyPlace(vs, p, pos);
    var ws, k := Prepared(vs, p, pos, junk), Target(vs, p, pos);
    ReplaceReady(ws, PosAfter(vs, p, pos), pos, k, pos - Align(pos), d[..ChunkLen(pos, |d|)]);
  }

  lemma ReplaceReady(ws: seq<Buffer>, q: nat, pos: int, k: nat, o: int, d: seq<Byte>)
    requires Ready(ws, q, pos) && k < |ws| && |ws[k].data| == MBUFSIZE && 0 <= o && d != [] && o + |d| <= MBUFSIZE
    ensures Ready(ws[k := Put(ws[k], o, d)], q, pos + |d|)
  {
    hide WellFormed, Put;
    PutFormed(ws[k], o, d);
  }

  // That step, for some contents of the buffer from the free list.
  ghost predicate Stepped(vs: seq<Buffer>, p: nat, pos: nat, d: seq<Byte>, ws: seq<Buffer>, q: nat)
    requires Ready(vs, p, pos) && d != []
  {
    exists junk :: |junk| == MBUFSIZE && Step(vs, p, pos, d, junk) == (ws, q)
  }

  // The loop of wc_WriteCache; memory(x) is what a buffer obtained at position
  // x holds.
  ghost function Steps(vs: seq<Buffer>, p: nat, pos: nat, d: seq<Byte>, memory: nat -> seq<Byte>): (seq<Buffer>, nat)
    requires Ready(vs, p, pos) && forall x :: |memory(x)| == MBUFSIZE
    decreases |d|
  {
    if d == [] then (vs, p)
    else
      var n, r := ChunkLen(pos, |d|), Step(vs, p, pos, d, memory(pos));
      StepReady(vs, p, pos, d, memory(pos));
      Steps(r.0, r.1, pos + n, d[n..], memory)
  }

  // The buffers of consecutive blocks that hold d.
  ghost function News(pos: nat, d: seq<Byte>, memory: nat -> seq<Byte>): seq<Buffer>
    requires forall x :: |memory(x)| == MBUFSIZE
    decreases |d|
  {
    if d == [] then []
    else
      var n := ChunkLen(pos, |d|);
      [Put(Fresh(pos, memory(pos)), pos - Align(pos), d[..n])] + News(pos + n, d[n..], memory)
  }

  lemma StrayStep(a: seq<Buffer>, c: seq<Buffer>, pos: nat, d: seq<Byte>, junk: seq<Byte>)
    requires a != [] && d != [] && |junk| == MBUFSIZE && Ready(a + c, |a| - 1, pos)
    requires a[|a| - 1].offs + MBUFSIZE <= pos && (c != [] ==> c[0].offs + MBUFSIZE <= pos)
    ensures Step(a + c, |a| - 1, pos, d, junk)
      == (a + [Put(Fresh(pos, junk), pos - Align(pos), d[..ChunkLen(pos, |d|)])] + c, |a|)
    ensures Ready(a + [Put(Fresh(pos, junk), pos - Align(pos), d[..ChunkLen(pos, |d|)])] + c, |a|, pos + ChunkLen(pos, |d|))
  {
    hide Merged, Canonical, Align;
    var vs, p := a + c, |a| - 1;
    assert vs[p] == a[p] && vs[..p + 1] == a && vs[p + 1..] == c;
    assert Inserts(vs, p, pos);
    TargetBlock(vs, p, pos, junk);
    StepReady(vs, p, pos, d, junk);
    var b := Put(Fresh(pos, junk), pos - Align(pos), d[..ChunkLen(pos, |d|)]);
    assert (a + [Fresh(pos, junk)] + c)[|a| := b] == a + [b] + c;
  }

  // From a stray PosData on, every further block gets a new buffer behind
  // PosData, even if it is buffered already.
  lemma {:induction false} StraySteps(a: seq<Buffer>, c: seq<Buffer>, pos: nat, d: seq<Byte>, memory: nat -> seq<Byte>)
    requires a != [] && Ready(a + c, |a| - 1, pos) && forall x :: |memory(x)| == MBUFSIZE
    requires a[|a| - 1].offs + MBUFSIZE <= pos && (c != [] ==> c[0].offs + MBUFSIZE <= pos)
    ensures Steps(a + c, |a| - 1, pos, d, memory).0 == a + News(pos, d, memory) + c
    decreases |d|
  {
    hide Merged, Canonical, Ready, Align, Put, Step, Inserts, Steps, News, ChunkLen;
    StepsEnd(a + c, |a| - 1, pos, memory);
    if d == [] {
      assert a + [] == a;
    } else {
      var n := ChunkLen(pos, |d|);
      var b, rest := Put(Fresh(pos, memory(pos)), pos - Align(pos), d[..n]), News(pos + n, d[n..], memory);
      StrayStep(a, c, pos, d, memory(pos));
      FirstRound(a + c, |a| - 1, pos, d, memory, a + [b] + c, |a|);
      FirstNew(pos, d, memory);
      assert a + [b] + c == (a + [b]) + c;
      if d[n..] == [] {
        StepsEnd(a + [b] + c, |a|, pos + n, memory);
        assert a + ([b] + []) + c == a + [b] + c;
      } else {
        NewEnds(pos, |d|, memory(pos), d[..n]);
        StraySteps(a + [b], c, pos + n, d[n..], memory);
        assert (a + [b]) + rest + c == a + ([b] + rest) + c;
      }
    }
  }

  lemma StepsEnd(vs: seq<Buffer>, p: nat, pos: nat, memory: nat -> seq<Byte>)
    requires Ready(vs, p, pos) && forall x :: |memory(x)| == MBUFSIZE
    ensures Steps(vs, p, pos, [], memory) == (vs, p) && News(pos, [], memory) == []
  {
  }

  lemma FirstRound(vs: seq<Buffer>, p: nat, pos: nat, d: seq<Byte>, memory: nat -> seq<Byte>, ws: seq<Buffer>, q: nat)
    requires Ready(vs, p, pos) && d != [] && forall x :: |memory(x)| == MBUFSIZE
    requires Step(vs, p, pos, d, memory(pos)) == (ws, q) && Ready(ws, q, pos + ChunkLen(pos, |d|))
    ensures Steps(vs, p, pos, d, memory) == Steps(ws, q, pos + ChunkLen(pos, |d|), d[ChunkLen(pos, |d|)..], memory)
  {
  }

  lemma FirstNew(pos: nat, d: seq<Byte>, memory: nat -> seq<Byte>)
    requires d != [] && forall x :: |memory(x)| == MBUFSIZE
    ensures var n := ChunkLen(pos, |d|);
      News(pos, d, memory) == [Put(Fresh(pos, memory(pos)), pos - Align(pos), d[..n])] + News(pos + n, d[n..], memory)
  {
  }

  // A new buffer that does not end the write reaches up to the next block.
  lemma NewEnds(pos: nat, num: nat, junk: seq<Byte>, d: seq<Byte>)
    requires ChunkLen(pos, num) < num && |junk| == MBUFSIZE && |d| == ChunkLen(pos, num)
    ensures pos - Align(pos) + |d| == MBUFSIZE
    ensures Put(Fresh(pos, junk), pos - Align(pos), d).offs + MBUFSIZE == pos + |d|
  {
  }
}
