// One file on the NFS server, as the client sees it through READ and WRITE
// (sections 2.2.7 and 2.2.9 of RFC 1094).
module ServerFile {
  type Byte = b: int | 0 <= b < 256

  // The byte at position i; a position beyond the end reads as zero.
  function At(f: seq<Byte>, i: int): Byte {
    if 0 <= i < |f| then f[i] else 0
  }

  // The file after storing `data` at `offset`: the file grows as far as needed
  // and a hole left by growing is filled with zeros.
  function WriteAt(f: seq<Byte>, offset: nat, data: seq<Byte>): (r: seq<Byte>)
    ensures |r| == if data == [] || offset + |data| <= |f| then |f| else offset + |data|
    ensures forall i :: At(r, i) == if offset <= i < offset + |data| then data[i - offset] else At(f, i)
  {
    var n := if data == [] || offset + |data| <= |f| then |f| else offset + |data|;
    seq(n, i requires 0 <= i < n =>
      if offset <= i < offset + |data| then data[i - offset] else At(f, i))
  }

  lemma SameFile(a: seq<Byte>, b: seq<Byte>)
    requires |a| == |b|
    requires forall i :: At(a, i) == At(b, i)
    ensures a == b
  {
    forall i | 0 <= i < |a| ensures a[i] == b[i] {
      assert At(a, i) == At(b, i);
    }
  }

  lemma WriteNothing(f: seq<Byte>, offset: nat)
    ensures WriteAt(f, offset, []) == f
  {
  }

  // Storing a range in two consecutive pieces is storing it at once.
  lemma WriteSplit(f: seq<Byte>, offset: nat, a: seq<Byte>, b: seq<Byte>)
    ensures WriteAt(WriteAt(f, offset, a), offset + |a|, b) == WriteAt(f, offset, a + b)
  {
  }

  function Longer(a: nat, b: nat): nat { if a < b then b else a }

  // The server: every WRITE call is answered or lost, and a lost call may or
  // may not have been carried out.
  class Server {
    var file: seq<Byte>
    ghost var lost: nat // how many calls were lost or refused
    ghost var longest: nat // the most bytes sent or asked for in one call

    constructor (initial: seq<Byte>)
      ensures file == initial
    {
      file, lost, longest := initial, 0, 0;
    }

    // nfsproc_write_2: Some(size) is an NFS_OK answer carrying the attributes.
    method Write(offset: nat, data: seq<Byte>) returns (ok: bool, size: nat)
      modifies this
      ensures ok ==> file == WriteAt(old(file), offset, data) && size == |file|
      ensures !ok ==> file == old(file) || file == WriteAt(old(file), offset, data)
      ensures lost == old(lost) + if ok then 0 else 1
      ensures longest == Longer(old(longest), |data|)
    {
      longest := Longer(longest, |data|);
      ok, size := false, 0;
      if * {
        file := WriteAt(file, offset, data);
        ok := *;
        size := |file|;
      }
      if !ok {
        lost := lost + 1;
      }
    }

    // nfsproc_read_buf: the server may answer with fewer bytes than asked for,
    // but with none only at or beyond the end of the file.
    method Read(offset: nat, count: nat) returns (ok: bool, data: seq<Byte>, size: nat)
      requires count > 0
      modifies `lost, `longest
      ensures lost == old(lost) + if ok then 0 else 1
      ensures longest == Longer(old(longest), count)
      ensures ok ==> size == |file| && |data| <= count
      ensures ok && offset < |file| ==> data != [] && offset + |data| <= |file| && data == file[offset..offset + |data|]
      ensures ok && |file| <= offset ==> data == []
    {
      longest := Longer(longest, count);
      ok, data, size := *, [], |file|;
      if offset < |file| {
        var n: nat :| 1 <= n <= count && offset + n <= |file|;
        data := file[offset..offset + n];
      }
      if !ok {
        lost := lost + 1;
      }
    }
  }
}
