// The XDR memory stream and its filters (src/ch_nfs_prot_xdr.c): one filter
// both encodes and decodes, depending on the direction of the stream. A filter
// is given the value to encode and returns the value that was passed.
module XdrStream {
  import opened ServerFile
  import opened XdrFormat

  function Splice(b: seq<Byte>, pos: nat, e: seq<Byte>): seq<Byte>
    requires pos + |e| <= |b|
  {
    b[..pos] + e + b[pos + |e|..]
  }

  lemma SpliceTwice(b: seq<Byte>, pos: nat, d: seq<Byte>, e: seq<Byte>)
    requires pos + |d| + |e| <= |b|
    ensures Splice(Splice(b, pos, d), pos + |d|, e) == Splice(b, pos, d + e)
  {
  }

  class Stream {
    const encoding: bool       // x_op: XDR_ENCODE or XDR_DECODE
    const buf: array<Byte>
    var pos: nat               // x_private
    var handy: int             // x_handy: negative after a failure

    // xdrmem_create
    constructor (buf: array<Byte>, size: nat, encoding: bool)
      requires size <= buf.Length
      ensures Ready() && this.buf == buf && this.encoding == encoding && pos == 0 && handy == size
    {
      this.buf, this.encoding, pos, handy := buf, encoding, 0, size;
    }

    ghost predicate Ready()
      reads this
    {
      0 <= handy && pos + handy <= buf.Length
    }

    ghost function Rest(): seq<Byte>
      requires Ready()
      reads this, buf
    {
      buf[pos..pos + handy]
    }

    // Everything up to `rest` was read.
    ghost predicate Left(rest: seq<Byte>, end: int)
      reads this, buf
    {
      Ready() && pos + handy == end && Rest() == rest
    }

    // Since the stream was in the given state exactly the bytes e were written.
    ghost predicate Wrote(b: seq<Byte>, p: nat, h: int, e: seq<Byte>)
      reads this, buf
    {
      && Ready() && pos == p + |e| && handy == h - |e|
      && |b| == buf.Length && buf[..] == Splice(b, p, e)
    }

    // xdrmem_getbytes
    method GetBytes(len: nat) returns (ok: bool, data: seq<Byte>)
      requires Ready()
      modifies `pos, `handy
      ensures ok <==> len <= old(handy)
      ensures ok ==> data == old(Rest())[..len] && Left(old(Rest())[len..], old(pos + handy))
    {
      handy := handy - len;
      if handy < 0 {
        return false, [];
      }
      data := buf[pos..pos + len];
      pos := pos + len;
      return true, data;
    }

    // xdrmem_putbytes
    method PutBytes(data: seq<Byte>) returns (ok: bool)
      requires Ready()
      modifies `pos, `handy, buf
      ensures ok <==> |data| <= old(handy)
      ensures ok ==> Wrote(old(buf[..]), old(pos), old(handy), data)
    {
      handy := handy - |data|;
      if handy < 0 {
        return false;
      }
      forall i | 0 <= i < |data| {
        buf[pos + i] := data[i];
      }
      pos := pos + |data|;
      return true;
    }

    // xdr_u_long, over xdrmem_getlong and xdrmem_putlong
    method ULong(v: Word) returns (ok: bool, w: Word)
      requires Ready()
      modifies `pos, `handy, buf
      ensures encoding ==> (ok <==> 4 <= old(handy))
      ensures encoding && ok ==> w == v && Wrote(old(buf[..]), old(pos), old(handy), EncodeWord(v))
      ensures !encoding ==> buf[..] == old(buf[..]) && (ok <==> ParseWord(old(Rest())).Got?)
      ensures !encoding && ok ==> ParseWord(old(Rest())) == Got(w, ParseWord(old(Rest())).rest)
      ensures !encoding && ok ==> Left(ParseWord(old(Rest())).rest, old(pos + handy))
    {
      w := v;
      if encoding {
        ok := PutBytes([v / 0x100_0000, v / 0x1_0000 % 0x100, v / 0x100 % 0x100, v % 0x100]);
      } else {
        var d;
        ok, d := GetBytes(4);
        if ok {
          w := Number(d[0], d[1], d[2], d[3]);
        }
      }
    }

    method Bool(v: bool) returns (ok: bool, w: bool)
      requires Ready()
      modifies `pos, `handy, buf
      ensures encoding ==> (ok <==> 4 <= old(handy))
      ensures encoding && ok ==> w == v && Wrote(old(buf[..]), old(pos), old(handy), EncodeBool(v))
      ensures !encoding ==> buf[..] == old(buf[..]) && (ok <==> ParseBool(old(Rest())).Got?)
      ensures !encoding && ok ==> ParseBool(old(Rest())) == Got(w, ParseBool(old(Rest())).rest)
      ensures !encoding && ok ==> Left(ParseBool(old(Rest())).rest, old(pos + handy))
    {
      hide ParseWord, EncodeWord;
      var lb;
      ok, lb := ULong(if v then 1 else 0);
      w := if encoding then v else lb != 0;
    }

    method Opaque(v: seq<Byte>, cnt: nat) returns (ok: bool, w: seq<Byte>)
      requires Ready() && (encoding ==> |v| == cnt)
      modifies `pos, `handy, buf
      ensures encoding ==> (ok <==> |EncodeOpaque(v)| <= old(handy))
      ensures encoding && ok ==> w == v && Wrote(old(buf[..]), old(pos), old(handy), EncodeOpaque(v))
      ensures !encoding ==> buf[..] == old(buf[..]) && (ok <==> ParseOpaque(old(Rest()), cnt).Got?)
      ensures !encoding && ok ==> ParseOpaque(old(Rest()), cnt) == Got(w, ParseOpaque(old(Rest()), cnt).rest)
      ensures !encoding && ok ==> Left(ParseOpaque(old(Rest()), cnt).rest, old(pos + handy))
    {
      hide Splice, EncodeOpaque, ParseOpaque;
      var rndup := cnt % 4;
      if rndup > 0 {
        rndup := 4 - rndup;
      }
      w := v;
      if encoding {
        OpaqueBytes(v, rndup);
        SpliceNothing(buf[..], pos);
      } else {
        OpaqueRead(Rest(), cnt, rndup);
      }
      if cnt == 0 {
        return true, [];
      }
      ghost var b, p := buf[..], pos;
      if encoding {
        ok := PutBytes(v);
        if ok && rndup > 0 {
          ok := PutBytes(seq(rndup, _ => 0));
          if ok {
            SpliceTwice(b, p, v, seq(rndup, _ => 0));
          }
        }
      } else {
        ok, w := GetBytes(cnt);
        if ok && rndup > 0 {
          var crud;
          ok, crud := GetBytes(rndup);
        }
      }
    }

    // xdr_string: the length of a C string to encode is found with strlen().
    method String(v: seq<Byte>, maxSize: nat) returns (ok: bool, w: seq<Byte>)
      requires Ready() && maxSize < 0xFFFF_FFFF && (encoding ==> |v| < 0x1_0000_0000)
      modifies `pos, `handy, buf
      ensures encoding ==> (ok <==> |v| <= maxSize && |EncodeString(v)| <= old(handy))
      ensures encoding && ok ==> w == v && Wrote(old(buf[..]), old(pos), old(handy), EncodeString(v))
      ensures !encoding ==> buf[..] == old(buf[..]) && (ok <==> ParseString(old(Rest()), maxSize).Got?)
      ensures !encoding && ok ==> ParseString(old(Rest()), maxSize) == Got(w, ParseString(old(Rest()), maxSize).rest)
      ensures !encoding && ok ==> Left(ParseString(old(Rest()), maxSize).rest, old(pos + handy))
    {
      hide Splice, ParseWord, EncodeWord, ParseOpaque, EncodeOpaque;
      ghost var b, p := buf[..], pos;
      w := v;
      var size: Word := if encoding then |v| else 0;
      ok, size := ULong(size);
      if !ok {
        return;
      }
      if size > maxSize {
        return false, w;
      }
      ok, w := Opaque(v, size);
      if encoding {
        if ok {
          SpliceTwice(b, p, EncodeWord(size), EncodeOpaque(v));
        }
      } else {
        w := CString(w);
      }
    }

    // xdr_entry
    method EntryFilter(v: Entries) returns (ok: bool, w: Entries)
      requires Ready() && (encoding ==> v.Entry? && CStrings(v) && Names(v))
      modifies `pos, `handy, buf
      ensures encoding ==> (ok <==> Bounded(v) && |EncodeEntry(v)| <= old(handy))
      ensures encoding && ok ==> w == v && Wrote(old(buf[..]), old(pos), old(handy), EncodeEntry(v))
      ensures !encoding ==> buf[..] == old(buf[..]) && (ok <==> ParseEntry(old(Rest())).Got?)
      ensures !encoding && ok ==> ParseEntry(old(Rest())) == Got(w, ParseEntry(old(Rest())).rest)
      ensures !encoding && ok ==> Left(ParseEntry(old(Rest())).rest, old(pos + handy))
      decreases if encoding then 0 else handy, v, 0
    {
      hide Splice, ParseWord, EncodeWord, ParseOpaque, EncodeOpaque, ParseString, EncodeString, ParsePointer, EncodePointer;
      ghost var b, p := buf[..], pos;
      w := v;
      var fileid: Word, name, cookie, next := 0, [], [], Nil;
      if v.Entry? {
        fileid, name, cookie, next := v.fileid, v.name, v.cookie, v.next;
      }
      ok, fileid := ULong(fileid);
      if !ok {
        return;
      }
      ok, name := String(name, NFS_MAXNAMLEN);
      if !ok {
        return;
      }
      ok, cookie := Opaque(cookie, NFS_COOKIESIZE);
      if !ok {
        return;
      }
      ok, next := Pointer(next);
      if ok {
        w := Entry(fileid, name, cookie, next);
        if encoding {
          SpliceTwice(b, p, EncodeWord(fileid), EncodeString(name));
          SpliceTwice(b, p, EncodeWord(fileid) + EncodeString(name), EncodeOpaque(cookie));
          SpliceTwice(b, p, EncodeWord(fileid) + EncodeString(name) + EncodeOpaque(cookie), EncodePointer(next));
        }
      }
    }

    // xdr_pointer and xdr_reference, with xdr_entry as the filter of the object
    method Pointer(v: Entries) returns (ok: bool, w: Entries)
      requires Ready() && (encoding ==> CStrings(v) && Names(v))
      modifies `pos, `handy, buf
      ensures encoding ==> (ok <==> Bounded(v) && |EncodePointer(v)| <= old(handy))
      ensures encoding && ok ==> w == v && Wrote(old(buf[..]), old(pos), old(handy), EncodePointer(v))
      ensures !encoding ==> buf[..] == old(buf[..]) && (ok <==> ParsePointer(old(Rest())).Got?)
      ensures !encoding && ok ==> ParsePointer(old(Rest())) == Got(w, ParsePointer(old(Rest())).rest)
      ensures !encoding && ok ==> Left(ParsePointer(old(Rest())).rest, old(pos + handy))
      decreases if encoding then 0 else handy, v, 1
    {
      hide Splice, ParseBool, EncodeBool, ParseEntry, EncodeEntry;
      ghost var b, p := buf[..], pos;
      w := v;
      var more;
      ok, more := Bool(v.Entry?);
      if !ok {
        return;
      }
      if !more {
        return true, Nil;
      }
      ok, w := EntryFilter(v);
      if ok && encoding {
        SpliceTwice(b, p, EncodeBool(true), EncodeEntry(v));
      }
    }

    // xdr_readdirres, with xdr_dirlist
    method ReadDirResult(v: ReadDirRes) returns (ok: bool, w: ReadDirRes)
      requires Ready() && (encoding ==> if v.Reply? then CStrings(v.entries) && Names(v.entries) else v.status != NFS_OK)
      modifies `pos, `handy, buf
      ensures encoding ==> (ok <==> (v.Reply? ==> Bounded(v.entries)) && |Encode(v)| <= old(handy))
      ensures encoding && ok ==> w == v && Wrote(old(buf[..]), old(pos), old(handy), Encode(v))
      ensures !encoding ==> buf[..] == old(buf[..]) && (ok <==> Parse(old(Rest())).Got?)
      ensures !encoding && ok ==> Parse(old(Rest())) == Got(w, Parse(old(Rest())).rest)
      ensures !encoding && ok ==> Left(Parse(old(Rest())).rest, old(pos + handy))
    {
      hide Splice, ParseWord, EncodeWord, ParsePointer, EncodePointer, ParseBool, EncodeBool;
      ghost var b, p := buf[..], pos;
      w := v;
      var status;
      ok, status := ULong(if v.Reply? then NFS_OK else v.status);
      if !ok {
        return;
      }
      if status != NFS_OK {
        return true, Status(status);
      }
      var entries, eof := Nil, false;
      if v.Reply? {
        entries, eof := v.entries, v.eof;
      }
      ok, entries := Pointer(entries);
      if !ok {
        return;
      }
      ok, eof := Bool(eof);
      if ok {
        w := Reply(entries, eof);
        if encoding {
          SpliceTwice(b, p, EncodeWord(NFS_OK), EncodePointer(entries));
          SpliceTwice(b, p, EncodeWord(NFS_OK) + EncodePointer(entries), EncodeBool(eof));
          assert EncodeWord(NFS_OK) + EncodePointer(entries) + EncodeBool(eof) == Encode(v);
        }
      }
    }
  }

  lemma OpaqueBytes(v: seq<Byte>, rndup: nat)
    requires rndup == Pad(|v|)
    ensures EncodeOpaque(v) == v + seq(rndup, _ => 0) && |EncodeOpaque(v)| == |v| + rndup
    ensures rndup == 0 ==> EncodeOpaque(v) == v
  {
  }

  lemma OpaqueRead(rest: seq<Byte>, cnt: nat, rndup: nat)
    requires rndup == Pad(cnt)
    ensures ParseOpaque(rest, cnt).Got? <==> cnt + rndup <= |rest|
    ensures cnt + rndup <= |rest| ==> ParseOpaque(rest, cnt) == Got(rest[..cnt], rest[cnt..][rndup..])
    ensures cnt == 0 ==> rndup == 0 && rest[0..][0..] == rest && rest[..0] == []
    ensures cnt <= |rest| && rndup == 0 ==> rest[cnt..][0..] == rest[cnt..]
  {
  }

  lemma SpliceNothing(b: seq<Byte>, pos: nat)
    requires pos <= |b|
    ensures Splice(b, pos, []) == b
  {
  }

  // Lengths of C strings fit a word.
  predicate Names(e: Entries) {
    e.Entry? ==> |e.name| < 0x1_0000_0000 && Names(e.next)
  }

  // What one stream encodes into a buffer another one decodes, and both end at
  // the same place, a multiple of four.
  method Transfer(v: ReadDirRes, buf: array<Byte>) returns (ok: bool, w: ReadDirRes, written: nat, read: nat)
    requires if v.Reply? then CStrings(v.entries) && Names(v.entries) else v.status != NFS_OK
    modifies buf
    ensures ok <==> (v.Reply? ==> Bounded(v.entries)) && |Encode(v)| <= buf.Length
    ensures ok ==> w == v && written == read == |Encode(v)| && written % 4 == 0
  {
    hide Parse, Encode;
    w, written, read := v, 0, 0;
    var writer := new Stream(buf, buf.Length, true);
    ok, w := writer.ReadDirResult(v);
    if ok {
      Aligned(v);
      RoundTrip(v, buf[|Encode(v)|..]);
      var reader := new Stream(buf, buf.Length, false);
      assert reader.Rest() == Encode(v) + buf[|Encode(v)|..];
      ok, w := reader.ReadDirResult(v);
      written, read := writer.pos, reader.pos;
    }
  }
}
