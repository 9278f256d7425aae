// Reading and writing at the position of one handle opened for both, with the
// read-ahead buffer of src/rbuf.c (src/read.c, src/write.c). Such a handle has
// no write cache, so its writes go to the server at once.
module ReadAhead {
  import opened ServerFile
  import opened NfsTransfer
  import opened DirtyTable
  import opened BufferPool

  const RBUFFERLIMIT := 2048

  // All free buffers have the right size and no buffer is listed twice.
  ghost predicate GoodPool(free: seq<MBuf>) {
    && (forall i :: 0 <= i < |free| ==> free[i].Length == MBUFSIZE)
    && (forall i, j :: 0 <= i < j < |free| ==> free[i] != free[j])
  }

  lemma GoodTail(free: seq<MBuf>, b: MBuf, rest: seq<MBuf>)
    requires GoodPool(free) && [b] + rest == free
    ensures GoodPool(rest) && b in free && b !in rest && b.Length == MBUFSIZE
  {
    assert free[0] == b && forall i :: 0 <= i < |rest| ==> rest[i] == free[i + 1];
  }

  lemma GoodCons(free: seq<MBuf>, b: MBuf)
    requires GoodPool(free) && b !in free && b.Length == MBUFSIZE
    ensures GoodPool([b] + free)
  {
  }

  ghost predicate Shows(d: seq<Byte>, f: seq<Byte>, offs: nat) {
    offs + |d| <= |f| && d == f[offs..offs + |d|]
  }

  lemma SubSlice(s: seq<Byte>, a: nat, b: nat, i: nat, j: nat)
    requires a <= b <= |s| && i <= j <= b - a
    ensures s[a..b][i..j] == s[a + i..a + j]
  {
    var x, y := s[a..b][i..j], s[a + i..a + j];
    forall k | 0 <= k < |x| ensures x[k] == y[k] {
      assert x[k] == s[a..b][i + k] == s[a + i + k];
    }
  }

  lemma SliceOfBuffer(d: seq<Byte>, f: seq<Byte>, offs: nat, pos: nat, l: nat)
    requires Shows(d, f, offs) && offs <= pos && pos + l <= offs + |d|
    ensures d[pos - offs..pos - offs + l] == Slice(f, pos, l)
  {
    var i := pos - offs;
    SubSlice(f, offs, offs + |d|, i, i + l);
  }

  // What a larger read brings after the bytes at hand
  lemma SliceJoin(f: seq<Byte>, pos: nat, got: seq<Byte>, num: nat, chunk: seq<Byte>, more: nat)
    requires |got| <= num <= |got| + more && got == Slice(f, pos, |got|)
    requires chunk == Slice(f, pos + |got|, more)
    ensures var l := if |chunk| < num - |got| then |chunk| else num - |got|;
      got + chunk[..l] == Slice(f, pos, num)
  {
  }

  lemma SliceShows(f: seq<Byte>, pos: nat, n: nat)
    requires Slice(f, pos, n) != []
    ensures Shows(Slice(f, pos, n), f, pos)
  {
  }

  class Handle {
    const srv: Server
    const pool: Pool
    const maxReadSize: nat
    const maxWriteSize: nat
    var filePos: nat
    var fileLen: nat
    var fileOffs: nat
    var dataLen: nat
    var data: array?<Byte>

    // A data buffer that is held shows the bytes of the file at its place.
    ghost predicate Valid()
      reads this, srv, pool, data
    {
      && pool.Counted() && maxReadSize > 0 && maxWriteSize > 0
      && GoodPool(pool.freeMBufs)
      && (data != null ==> data !in pool.freeMBufs && data.Length == MBUFSIZE && 0 < dataLen <= MBUFSIZE)
      && (data != null ==> Shows(data[..dataLen], srv.file, fileOffs))
    }

    // All buffers the handle can get hold of
    ghost function Buffers(): (r: multiset<MBuf>)
      reads `data, pool`freeMBufs
      ensures data != null ==> data in r
    {
      multiset(pool.freeMBufs) + if data == null then multiset{} else multiset{data}
    }

    // The buffer held has all that is asked for.
    ghost predicate Buffered(num: int)
      reads this
    {
      && data != null && num <= RBUFFERLIMIT && filePos != 0
      && fileOffs <= filePos && filePos + num <= fileOffs + dataLen
    }

    constructor (srv: Server, pool: Pool, maxReadSize: nat, maxWriteSize: nat, size: nat)
      requires pool.Counted() && maxReadSize > 0 && maxWriteSize > 0
      requires GoodPool(pool.freeMBufs)
      ensures Valid() && this.srv == srv && this.pool == pool && filePos == 0 && fileLen == size && data == null
    {
      this.srv, this.pool, this.maxReadSize, this.maxWriteSize := srv, pool, maxReadSize, maxWriteSize;
      filePos, fileLen, fileOffs, dataLen, data := 0, size, 0, 0, null;
    }

    // rb_ReleaseRBufData
    method ReleaseData()
      requires Valid() && data != null
      modifies `data, pool`freeMBufs, pool`numFreeMBufs
      ensures Valid() && data == null && Buffers() == old(Buffers())
    {
      GoodCons(pool.freeMBufs, data);
      pool.ReleaseMBuf(data);
      data := null;
    }

    // rb_ObtainRBufData
    method ObtainData()
      requires Valid() && data == null && pool.numFreeMBufs > 0
      modifies `data, pool`freeMBufs, pool`numFreeMBufs
      ensures data != null && data in old(pool.freeMBufs) && data !in pool.freeMBufs && data.Length == MBUFSIZE
      ensures pool.Counted() && GoodPool(pool.freeMBufs) && Buffers() == old(Buffers())
    {
      hide GoodPool;
      ghost var free := pool.freeMBufs;
      data := pool.ObtainMBuf();
      GoodTail(free, data, pool.freeMBufs);
    }

    // nfs_MRead into the held buffer: as many bytes as it takes
    method FillData(pos: nat) returns (numRead: int, ghost chunk: seq<Byte>)
      requires maxReadSize > 0 && data != null && data.Length == MBUFSIZE
      modifies `fileLen, `fileOffs, `dataLen, data, srv`lost, srv`longest
      ensures srv.lost == old(srv.lost) + if numRead == -1 then 1 else 0
      ensures numRead >= -1 && (numRead == -1 ==> fileLen == old(fileLen))
      ensures numRead >= 0 ==> fileLen == |srv.file| && numRead == |chunk| <= MBUFSIZE && chunk == Slice(srv.file, pos, MBUFSIZE)
      ensures numRead > 0 ==> data[..numRead] == chunk && fileOffs == pos && dataLen == numRead
    {
      var c, size;
      numRead, c, size := MRead(srv, pos, MBUFSIZE, maxReadSize);
      chunk := c;
      if numRead >= 0 {
        fileLen := size;
        forall i | 0 <= i < numRead {
          data[i] := c[i];
        }
        if numRead > 0 {
          fileOffs, dataLen := pos, numRead;
        }
      }
    }

    // The part of rb_ReadBuf that asks the server, `got` being the bytes at hand
    method ReadMore(num: nat, pos: nat, got: seq<Byte>) returns (res: int, out: seq<Byte>)
      requires pool.Counted() && maxReadSize > 0 && maxWriteSize > 0 && GoodPool(pool.freeMBufs)
      requires data != null && data !in pool.freeMBufs && data.Length == MBUFSIZE
      requires |got| < num <= RBUFFERLIMIT && pos == filePos + |got| && got == Slice(srv.file, filePos, |got|)
      modifies this, pool`freeMBufs, pool`numFreeMBufs, data, srv`lost, srv`longest
      ensures srv.lost == old(srv.lost) + if res == -1 then 1 else 0
      ensures Valid() && (data == null || data == old(data))
      ensures Buffers() == old(Buffers())
      ensures res == -1 || (res == |out| && out == Slice(srv.file, old(filePos), num))
      ensures filePos == if res == -1 then old(filePos) else old(filePos) + res
      ensures fileLen == if res == -1 then old(fileLen) else |srv.file|
    {
      hide Slice, Shows, GoodPool;
      var numRead;
      ghost var chunk;
      numRead, chunk := FillData(pos);
      out := got;
      if numRead <= 0 {
        if numRead == 0 {
          SliceJoin(srv.file, filePos, got, num, chunk, MBUFSIZE);
          filePos := pos;
        }
        GoodCons(pool.freeMBufs, data);
        pool.ReleaseMBuf(data);
        data := null;
        return if numRead == 0 then |got| else -1, out;
      }
      SliceShows(srv.file, pos, MBUFSIZE);
      SliceJoin(srv.file, filePos, got, num, chunk, MBUFSIZE);
      var left := num - |got|;
      var l := if numRead < left then numRead else left;
      out := got + data[..l];
      assert data[..l] == chunk[..l];
      filePos := pos + l;
      return |out|, out;
    }

    // What the held buffer has from the position on (src/rbuf.c:151-167)
    method FromBuffer(num: nat) returns (out: seq<Byte>)
      requires Valid() && data != null
      ensures |out| <= num && out == Slice(srv.file, filePos, |out|)
      ensures num > 0 ==> (|out| == num <==> fileOffs <= filePos && filePos + num <= fileOffs + dataLen)
    {
      hide Slice;
      SliceNone(srv.file, filePos);
      out := [];
      var end := fileOffs + dataLen;
      if fileOffs <= filePos < end {
        var l := if num < end - filePos then num else end - filePos;
        var at := filePos - fileOffs;
        SliceOfBuffer(data[..dataLen], srv.file, fileOffs, filePos, l);
        out := data[at..at + l];
        forall i | 0 <= i < l ensures out[i] == data[..dataLen][at..at + l][i] {
          assert out[i] == data[at + i] == data[..dataLen][at + i];
        }
      }
    }

    // rb_ReadBuf with a small request away from the start of the file: what the
    // buffer has is used, and a whole buffer is read for the rest.
    method ReadSmall(num: nat) returns (res: int, out: seq<Byte>)
      requires Valid() && 0 < num <= RBUFFERLIMIT && filePos != 0 && (data != null || pool.numFreeMBufs > 0)
      modifies this, pool`freeMBufs, pool`numFreeMBufs, Buffers(), srv`lost, srv`longest
      ensures Valid() && Buffers() == old(Buffers())
      ensures srv.lost == old(srv.lost) + if res == -1 then 1 else 0
      ensures res == -1 || (res == |out| && out == Slice(srv.file, old(filePos), num))
      ensures filePos == if res == -1 then old(filePos) else old(filePos) + res
      ensures fileLen == if res == -1 || old(Buffered(num)) then old(fileLen) else |srv.file|
      ensures old(Buffered(num)) ==> res == num && srv.longest == old(srv.longest)
    {
      hide Slice, Shows, GoodPool, Buffers;
      out := [];
      SliceNone(srv.file, filePos);
      if data == null {
        ObtainData();
      } else {
        out := FromBuffer(num);
      }
      var pos := filePos + |out|;
      if |out| == num {
        filePos := pos;
        return num, out;
      }
      res, out := ReadMore(num, pos, out);
    }

    // rb_ReadBuf
    method ReadBuf(num: nat) returns (res: int, out: seq<Byte>)
      requires Valid() && 0 < num
      modifies this, pool`freeMBufs, pool`numFreeMBufs, Buffers(), srv`lost, srv`longest
      ensures Valid() && Buffers() == old(Buffers())
      ensures srv.lost == old(srv.lost) + if res == -1 then 1 else 0
      ensures res == -1 || (res == |out| && out == Slice(srv.file, old(filePos), num))
      ensures filePos == if res == -1 then old(filePos) else old(filePos) + res
      ensures fileLen == if res == -1 || old(Buffered(num)) then old(fileLen) else |srv.file|
      ensures old(Buffered(num)) ==> res == num && srv.longest == old(srv.longest)
    {
      hide Slice, Shows, GoodPool;
      if num <= RBUFFERLIMIT && filePos != 0 && (data != null || pool.numFreeMBufs > 0) {
        res, out := ReadSmall(num);
      } else {
        if data != null {
          ReleaseData();
        }
        var size;
        res, out, size := MRead(srv, filePos, num, maxReadSize);
        if res >= 0 {
          fileLen := size;
        }
        if res > 0 {
          filePos := filePos + res;
        }
      }
    }

    // act_READ: a position equal to a known length is taken for the end.
    method Read(num: int) returns (res: int, out: seq<Byte>)
      requires Valid()
      modifies this, pool`freeMBufs, pool`numFreeMBufs, Buffers(), srv`lost, srv`longest
      ensures Valid() && Buffers() == old(Buffers())
      ensures srv.lost == old(srv.lost) + if num >= 0 && res == -1 then 1 else 0
      ensures res >= -1 && (num < 0 ==> res == -1)
      ensures num >= 0 && res >= 0 ==> res == |out| && Reads(srv.file, old(filePos), old(fileLen), num, out)
      ensures filePos == if res == -1 then old(filePos) else old(filePos) + res
      ensures fileLen == if num <= 0 || res == -1 || TakenForEnd(old(filePos), old(fileLen)) || old(Buffered(num)) then old(fileLen) else |srv.file|
    {
      out := [];
      if num <= 0 {
        return if num < 0 then -1 else 0, out;
      }
      if fileLen != 0 && fileLen == filePos {
        return 0, out;
      }
      res, out := ReadBuf(num);
    }

    // act_WRITE: the read-ahead buffer is dropped first. A failed write may have
    // stored part of the data; position and length stay as they were.
    method Write(buf: seq<Byte>) returns (res: int)
      requires Valid()
      modifies this, srv, pool`freeMBufs, pool`numFreeMBufs
      ensures Valid() && Buffers() == old(Buffers()) && data == null
      ensures res == |buf| || res == -1
      ensures res >= 0 ==> srv.file == WriteAt(old(srv.file), old(filePos), buf)
      ensures srv.lost == old(srv.lost) + if res == -1 then 1 else 0
      ensures res == -1 ==> exists k :: 0 <= k <= |buf| && srv.file == WriteAt(old(srv.file), old(filePos), buf[..k])
      ensures filePos == if res == -1 then old(filePos) else old(filePos) + res
      ensures fileLen == if res > 0 then |srv.file| else old(fileLen)
    {
      hide Slice, Shows, WriteAt, GoodPool;
      if data != null {
        ReleaseData();
      }
      if buf == [] {
        WriteNothing(srv.file, filePos);
        return 0;
      }
      var size;
      res, size := MWrite(srv, filePos, buf, maxWriteSize);
      if res >= 0 {
        fileLen := size;
        filePos := filePos + res;
      }
    }
  }

  lemma SliceNone(f: seq<Byte>, pos: nat)
    ensures Slice(f, pos, 0) == []
  {
  }

  // ---- Whole runs ------------------------------------------------------------------

  datatype Op = SeekTo(pos: nat) | ReadOp(num: nat) | WriteOp(buf: seq<Byte>)

  // What was returned: the bytes read, the count written, or an error
  datatype Out = Moved | Data(d: seq<Byte>) | Count(n: int) | Error

  // A position equal to a known length is taken for the end of the file.
  predicate TakenForEnd(pos: nat, len: nat) {
    len != 0 && len == pos
  }

  // What reading returns when it succeeds
  ghost predicate Reads(f: seq<Byte>, pos: nat, len: nat, num: nat, d: seq<Byte>) {
    if num > 0 && TakenForEnd(pos, len) then d == [] else d == Slice(f, pos, num)
  }

  // What one operation may do to a file, a position and the length kept. A
  // failed write may have stored some of its first bytes.
  ghost predicate Direct(f: seq<Byte>, pos: nat, len: nat, op: Op, out: Out, f': seq<Byte>, pos': nat, len': nat) {
    match op
    case SeekTo(p) => out == Moved && f' == f && pos' == p && len' == len
    case ReadOp(num) =>
      && f' == f && (len' == len || len' == |f|)
      && match out {
           case Data(d) => Reads(f, pos, len, num, d) && pos' == pos + |d| && (num > 0 && TakenForEnd(pos, len) ==> len' == len)
           case _ => out == Error && pos' == pos
         }
    case WriteOp(buf) =>
      match out
      case Error => pos' == pos && len' == len && exists k :: 0 <= k <= |buf| && f' == WriteAt(f, pos, buf[..k])
      case _ => out == Count(|buf|) && f' == WriteAt(f, pos, buf) && pos' == pos + |buf| && len' == if buf == [] then len else |f'|
  }

  ghost predicate Follows(f: seq<Byte>, pos: nat, len: nat, ops: seq<Op>, outs: seq<Out>, f': seq<Byte>, pos': nat, len': nat)
    requires |outs| == |ops|
    decreases |outs|
  {
    if outs == [] then f' == f && pos' == pos && len' == len
    else exists g, p: nat, l: nat ::
      Direct(f, pos, len, ops[0], outs[0], g, p, l) && Follows(g, p, l, ops[1..], outs[1..], f', pos', len')
  }

  function Errors(outs: seq<Out>): nat {
    if outs == [] then 0 else (if outs[0] == Error then 1 else 0) + Errors(outs[1..])
  }

  method One(h: Handle, op: Op) returns (out: Out)
    requires h.Valid()
    modifies h, h.srv, h.pool`freeMBufs, h.pool`numFreeMBufs, h.Buffers()
    ensures h.Valid() && h.Buffers() == old(h.Buffers())
    ensures h.srv.lost == old(h.srv.lost) + if out == Error then 1 else 0
    ensures Direct(old(h.srv.file), old(h.filePos), old(h.fileLen), op, out, h.srv.file, h.filePos, h.fileLen)
  {
    hide Slice, WriteAt, Shows, GoodPool;
    match op {
      case SeekTo(p) =>
        h.filePos := p;
        out := Moved;
      case ReadOp(num) =>
        var res, d := h.Read(num);
        out := if res < 0 then Error else Data(d);
      case WriteOp(buf) =>
        var res := h.Write(buf);
        out := if res < 0 then Error else Count(res);
    }
  }

  // Any run of seeks, reads and writes, failed ones among them, does what
  // Direct says of each; an error is a call that the server lost or refused.
  method Session(h: Handle, ops: seq<Op>) returns (outs: seq<Out>)
    requires h.Valid()
    modifies h, h.srv, h.pool`freeMBufs, h.pool`numFreeMBufs, h.Buffers()
    ensures h.Valid() && h.Buffers() == old(h.Buffers())
    ensures |outs| == |ops| && h.srv.lost == old(h.srv.lost) + Errors(outs)
    ensures Follows(old(h.srv.file), old(h.filePos), old(h.fileLen), ops, outs, h.srv.file, h.filePos, h.fileLen)
    decreases |ops|
  {
    hide Direct;
    if ops == [] {
      return [];
    }
    var out := One(h, ops[0]);
    ghost var f1, p1, l1 := h.srv.file, h.filePos, h.fileLen;
    var rest := Session(h, ops[1..]);
    outs := [out] + rest;
    assert outs[0] == out && outs[1..] == rest;
    assert Direct(old(h.srv.file), old(h.filePos), old(h.fileLen), ops[0], out, f1, p1, l1);
  }

  // ---- When a read is right --------------------------------------------------------

  // The position is taken for the end of the file, but is not.
  ghost predicate Stale(f: seq<Byte>, pos: nat, len: nat) {
    TakenForEnd(pos, len) && pos < |f|
  }

  // The length kept is unset or right.
  ghost predicate Current(f: seq<Byte>, len: nat) {
    len == 0 || len == |f|
  }

  // A read returns the bytes at the position if and only if that is not stale.
  lemma ReadsExactly(f: seq<Byte>, pos: nat, len: nat, num: nat, d: seq<Byte>)
    requires Reads(f, pos, len, num, d)
    ensures d == Slice(f, pos, num) <==> num == 0 || !Stale(f, pos, len)
  {
  }

  // The length kept goes wrong by nothing but a failed write that made the file longer.
  lemma CurrentExactly(f: seq<Byte>, pos: nat, len: nat, op: Op, out: Out, f': seq<Byte>, pos': nat, len': nat)
    requires Direct(f, pos, len, op, out, f', pos', len') && Current(f, len)
    ensures Current(f', len') <==> !(op.WriteOp? && out == Error && len != 0 && |f'| > |f|)
  {
  }

  // It is stale at once exactly after a failed write of at least a byte at the
  // end of the file: then the next read finds nothing, though there is something.
  lemma FailedWriteStale(f: seq<Byte>, pos: nat, len: nat, buf: seq<Byte>, k: nat, num: nat, d: seq<Byte>)
    requires Current(f, len) && k <= |buf|
    ensures var f' := WriteAt(f, pos, buf[..k]);
      && Direct(f, pos, len, WriteOp(buf), Error, f', pos, len)
      && (Stale(f', pos, len) <==> pos == len == |f| && len > 0 && k > 0)
      && (Stale(f', pos, len) && num > 0 && Reads(f', pos, len, num, d) ==> d == [] && Slice(f', pos, num) != [])
  {
  }

  // Without buffer and without shortcut
  ghost predicate Plain(f: seq<Byte>, pos: nat, op: Op, out: Out, f': seq<Byte>, pos': nat) {
    match op
    case SeekTo(p) => out == Moved && f' == f && pos' == p
    case ReadOp(num) =>
      f' == f && if out.Error? then pos' == pos else out == Data(Slice(f, pos, num)) && pos' == pos + |Slice(f, pos, num)|
    case WriteOp(buf) => out == Count(|buf|) && f' == WriteAt(f, pos, buf) && pos' == pos + |buf|
  }

  ghost predicate PlainRun(f: seq<Byte>, pos: nat, ops: seq<Op>, outs: seq<Out>, f': seq<Byte>, pos': nat)
    requires |outs| == |ops|
    decreases |outs|
  {
    if outs == [] then f' == f && pos' == pos
    else exists g, p: nat :: Plain(f, pos, ops[0], outs[0], g, p) && PlainRun(g, p, ops[1..], outs[1..], f', pos')
  }

  // A run without failed writes, from a length that is right, is direct access throughout.
  lemma {:induction false} RightWithoutFailedWrite(f: seq<Byte>, pos: nat, len: nat, ops: seq<Op>, outs: seq<Out>, f': seq<Byte>, pos': nat, len': nat)
    requires |outs| == |ops| && Follows(f, pos, len, ops, outs, f', pos', len') && Current(f, len)
    requires forall i :: 0 <= i < |ops| && ops[i].WriteOp? ==> outs[i] != Error
    ensures PlainRun(f, pos, ops, outs, f', pos') && Current(f', len')
    decreases |ops|
  {
    if outs != [] {
      hide Direct, Plain;
      var g, p: nat, l: nat :|
        Direct(f, pos, len, ops[0], outs[0], g, p, l) && Follows(g, p, l, ops[1..], outs[1..], f', pos', len');
      CurrentExactly(f, pos, len, ops[0], outs[0], g, p, l);
      DirectPlain(f, pos, len, ops[0], outs[0], g, p, l);
      RightWithoutFailedWrite(g, p, l, ops[1..], outs[1..], f', pos', len');
    }
  }

  lemma DirectPlain(f: seq<Byte>, pos: nat, len: nat, op: Op, out: Out, f': seq<Byte>, pos': nat, len': nat)
    requires Direct(f, pos, len, op, out, f', pos', len') && Current(f, len)
    requires op.WriteOp? ==> out != Error
    ensures Plain(f, pos, op, out, f', pos')
  {
  }
}
