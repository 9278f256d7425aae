// The synchronous chunked transfer loops of src/nfs.c: one request at a time,
// each at most as long as the negotiated transfer size.
module NfsTransfer {
  import opened ServerFile

  const NFS_MAXDATA := 8192

  // What a reader of `count` bytes at `offset` must get.
  function Slice(f: seq<Byte>, offset: nat, count: nat): (r: seq<Byte>)
    ensures |r| <= count
    ensures forall i :: 0 <= i < |r| ==> r[i] == At(f, offset + i)
    ensures |r| == count || offset + |r| >= |f|
    ensures r != [] ==> offset + |r| <= |f|
  {
    if |f| <= offset then [] else if offset + count <= |f| then f[offset..offset + count] else f[offset..]
  }

  // No request is longer than the size negotiated, nor than the protocol allows.
  function MaxTransfer(size: nat): nat {
    if size <= NFS_MAXDATA then size else NFS_MAXDATA
  }

  // nfs_MWrite; -1 reports a lost or refused request, and then a prefix of the
  // data has been stored.
  method MWrite(srv: Server, offset: nat, buf: seq<Byte>, maxWriteSize: nat) returns (res: int, fileLen: nat)
    requires maxWriteSize > 0 && buf != []
    modifies srv
    ensures res == |buf| || res == -1
    ensures res >= 0 ==> srv.file == WriteAt(old(srv.file), offset, buf) && fileLen == |srv.file|
    ensures res == -1 ==> exists k :: 0 <= k <= |buf| && srv.file == WriteAt(old(srv.file), offset, buf[..k])
    ensures srv.lost == old(srv.lost) + if res == -1 then 1 else 0
    ensures srv.longest <= Longer(old(srv.longest), MaxTransfer(maxWriteSize))
  {
    hide WriteAt;
    var maxWrite := if maxWriteSize <= NFS_MAXDATA then maxWriteSize else NFS_MAXDATA;
    var done, size := 0, 0;
    WriteNothing(srv.file, offset);
    assert buf[..0] == [];
    while done < |buf|
      invariant 0 <= done <= |buf|
      invariant srv.file == WriteAt(old(srv.file), offset, buf[..done])
      invariant done > 0 ==> size == |srv.file|
      invariant srv.lost == old(srv.lost) && srv.longest <= Longer(old(srv.longest), MaxTransfer(maxWriteSize))
    {
      var len := if |buf| - done < maxWrite then |buf| - done else maxWrite;
      var ok;
      WriteSplit(old(srv.file), offset, buf[..done], buf[done..done + len]);
      assert buf[..done] + buf[done..done + len] == buf[..done + len];
      ok, size := srv.Write(offset + done, buf[done..done + len]);
      if !ok {
        assert srv.file == WriteAt(old(srv.file), offset, buf[..done])
            || srv.file == WriteAt(old(srv.file), offset, buf[..done + len]);
        return -1, 0;
      }
      done := done + len;
    }
    assert buf[..done] == buf;
    return |buf|, size;
  }

  // nfs_MRead: short replies are continued, an empty one ends the transfer.
  method MRead(srv: Server, offset: nat, count: nat, maxReadSize: nat) returns (res: int, data: seq<Byte>, fileLen: nat)
    requires maxReadSize > 0 && count > 0
    modifies srv`lost, srv`longest
    ensures srv.lost == old(srv.lost) + if res == -1 then 1 else 0
    ensures srv.longest <= Longer(old(srv.longest), MaxTransfer(maxReadSize))
    ensures res == -1 || (res == |data| && data == Slice(srv.file, offset, count) && fileLen == |srv.file|)
  {
    var maxRead := if maxReadSize <= NFS_MAXDATA then maxReadSize else NFS_MAXDATA;
    var left, size := count, 0;
    data := [];
    while left > 0
      invariant 0 <= left <= count && |data| == count - left
      invariant data == Slice(srv.file, offset, |data|)
      invariant left < count ==> size == |srv.file|
      invariant srv.lost == old(srv.lost) && srv.longest <= Longer(old(srv.longest), MaxTransfer(maxReadSize))
    {
      var want := if left < maxRead then left else maxRead;
      var ok, chunk;
      ok, chunk, size := srv.Read(offset + |data|, want);
      if !ok {
        return -1, data, 0;
      }
      if chunk == [] {
        break;
      }
      assert data + chunk == Slice(srv.file, offset, |data| + |chunk|);
      data := data + chunk;
      left := left - |chunk|;
    }
    return |data|, data, size;
  }
}
