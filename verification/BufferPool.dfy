// The free lists behind all write and read buffers: the 8 KB data buffers of
// src/mbuf.c and the write buffer headers of src/wbuf.c.
module BufferPool {
  import opened DirtyTable
  import opened ServerFile
  import opened WriteHeader

  type MBuf = array<Byte>

  class Pool {
    var freeMBufs: seq<MBuf>
    var numMBufs: int
    var numFreeMBufs: int
    var freeHdrs: seq<WBufHdr>
    var numFreeHdrs: int

    // The free counters equal the list lengths.
    ghost predicate Counted()
      reads this
    {
      && numFreeMBufs == |freeMBufs|
      && numFreeHdrs == |freeHdrs|
    }

    constructor ()
      ensures Counted() && freeMBufs == [] && freeHdrs == []
    {
      freeMBufs, numMBufs, numFreeMBufs := [], 0, 0;
      freeHdrs, numFreeHdrs := [], 0;
    }

    // mb_FreeSomeMBufs
    method FreeSomeMBufs(num: nat)
      requires Counted() && num <= numFreeMBufs
      modifies this`freeMBufs, this`numMBufs, this`numFreeMBufs
      ensures Counted() && freeMBufs == old(freeMBufs)[num..] && numMBufs == old(numMBufs) - num
    {
      numMBufs := numMBufs - num;
      numFreeMBufs := numFreeMBufs - num;
      var n := num;
      while n > 0
        invariant 0 <= n <= num && numMBufs == old(numMBufs) - num && numFreeMBufs == old(numFreeMBufs) - num
        invariant freeMBufs == old(freeMBufs)[num - n..]
      {
        freeMBufs := freeMBufs[1..];
        n := n - 1;
      }
    }

    // mb_AllocMoreMBufs: allocation may fail at any buffer, and then the list
    // and both counters are what they were before.
    method AllocMoreMBufs(num: nat) returns (ok: bool)
      requires Counted()
      modifies this`freeMBufs, this`numMBufs, this`numFreeMBufs
      ensures Counted()
      ensures ok ==> |freeMBufs| == old(|freeMBufs|) + num && freeMBufs[num..] == old(freeMBufs)
      ensures ok ==> numMBufs == old(numMBufs) + num
      ensures ok ==> forall k :: 0 <= k < num ==> fresh(freeMBufs[k]) && freeMBufs[k].Length == MBUFSIZE
      ensures ok ==> forall j, k :: 0 <= j < k < num ==> freeMBufs[j] != freeMBufs[k]
      ensures !ok ==> freeMBufs == old(freeMBufs) && numMBufs == old(numMBufs)
    {
      var head, i := freeMBufs, num;
      while i > 0
        invariant 0 <= i <= num && freeMBufs == old(freeMBufs)
        invariant numMBufs == old(numMBufs) && numFreeMBufs == old(numFreeMBufs)
        invariant |head| == |freeMBufs| + num - i && head[num - i..] == freeMBufs
        invariant forall k :: 0 <= k < num - i ==> fresh(head[k]) && head[k].Length == MBUFSIZE
        invariant forall j, k :: 0 <= j < k < num - i ==> head[j] != head[k]
      {
        i := i - 1;
        if * {
          var numNew := num - (i + 1);
          freeMBufs := head;
          numMBufs := numMBufs + numNew;
          numFreeMBufs := numFreeMBufs + numNew;
          FreeSomeMBufs(numNew);
          return false;
        }
        var mbn := new Byte[MBUFSIZE](_ => 0);
        head := [mbn] + head;
      }
      freeMBufs := head;
      numMBufs := numMBufs + num;
      numFreeMBufs := numFreeMBufs + num;
      return true;
    }

    // mb_ObtainMBuf; every caller has checked that a buffer is free.
    method ObtainMBuf() returns (mbn: MBuf)
      requires Counted() && numFreeMBufs > 0
      modifies this`freeMBufs, this`numFreeMBufs
      ensures Counted() && [mbn] + freeMBufs == old(freeMBufs)
    {
      numFreeMBufs := numFreeMBufs - 1;
      mbn := freeMBufs[0];
      freeMBufs := freeMBufs[1..];
    }

    // mb_ReleaseMBuf
    method ReleaseMBuf(mbn: MBuf)
      requires numFreeMBufs == |freeMBufs|
      modifies this`freeMBufs, this`numFreeMBufs
      ensures numFreeMBufs == |freeMBufs| && freeMBufs == [mbn] + old(freeMBufs)
    {
      numFreeMBufs := numFreeMBufs + 1;
      freeMBufs := [mbn] + freeMBufs;
    }

    // ObtainWBuf: a header and a data buffer, or neither.
    method ObtainWBuf() returns (wbh: WBufHdr?)
      requires Counted()
      modifies this`freeMBufs, this`numFreeMBufs, this`freeHdrs, this`numFreeHdrs,
        if freeHdrs == [] then {} else {freeHdrs[0]}
      ensures Counted()
      ensures wbh == null <==> old(numFreeHdrs == 0 || numFreeMBufs == 0)
      ensures wbh == null ==> freeHdrs == old(freeHdrs) && freeMBufs == old(freeMBufs)
      ensures wbh != null ==> [wbh] + freeHdrs == old(freeHdrs) && [wbh.data] + freeMBufs == old(freeMBufs)
      ensures wbh != null ==> wbh.fileOffs == 0 && wbh.numInfo == 0
    {
      wbh := null;
      if numFreeHdrs != 0 && numFreeMBufs != 0 {
        var mbn := ObtainMBuf();
        numFreeHdrs := numFreeHdrs - 1;
        wbh := freeHdrs[0];
        freeHdrs := freeHdrs[1..];
        wbh.fileOffs, wbh.numInfo, wbh.data := 0, 0, mbn;
      }
    }

    // ReleaseWBuf
    method ReleaseWBuf(wbh: WBufHdr)
      requires Counted()
      modifies this`freeMBufs, this`numFreeMBufs, this`freeHdrs, this`numFreeHdrs
      ensures Counted()
      ensures freeHdrs == [wbh] + old(freeHdrs) && freeMBufs == [wbh.data] + old(freeMBufs)
    {
      numFreeHdrs := numFreeHdrs + 1;
      ReleaseMBuf(wbh.data);
      freeHdrs := [wbh] + freeHdrs;
    }
  }
}
