// The external data representation of READDIR results: sections 4.9, 4.10,
// 4.11 and 4.19 of RFC 4506 and section 2.2.17 of RFC 1094. Encode says which
// bytes stand for a value, Parse which value a reader takes from the bytes.
module XdrFormat {
  import opened ServerFile

  const NFS_MAXNAMLEN := 255
  const NFS_COOKIESIZE := 4
  const NFS_OK := 0

  type Word = w: int | 0 <= w < 0x1_0000_0000

  datatype Entries = Nil | Entry(fileid: Word, name: seq<Byte>, cookie: seq<Byte>, next: Entries)

  datatype ReadDirRes = Reply(entries: Entries, eof: bool) | Status(status: Word)

  datatype Parsed<T> = Bad | Got(value: T, rest: seq<Byte>)

  // ---- Encoding ------------------------------------------------------------------

  function EncodeWord(w: Word): (r: seq<Byte>)
    ensures |r| == 4
  {
    [w / 0x100_0000, w / 0x1_0000 % 0x100, w / 0x100 % 0x100, w % 0x100]
  }

  function Pad(n: nat): (p: nat)
    ensures p < 4 && (n + p) % 4 == 0
  {
    if n % 4 > 0 then 4 - n % 4 else 0
  }

  function EncodeOpaque(data: seq<Byte>): seq<Byte> {
    data + seq(Pad(|data|), _ => 0)
  }

  function EncodeString(s: seq<Byte>): seq<Byte>
    requires |s| < 0x1_0000_0000
  {
    EncodeWord(|s|) + EncodeOpaque(s)
  }

  function EncodeBool(b: bool): (r: seq<Byte>)
    ensures |r| == 4
  {
    EncodeWord(if b then 1 else 0)
  }

  // Every name is short enough.
  predicate Bounded(e: Entries) {
    e.Entry? ==> |e.name| <= NFS_MAXNAMLEN && Bounded(e.next)
  }

  // Names are C strings and cookies have their fixed size.
  predicate CStrings(e: Entries) {
    e.Entry? ==> 0 !in e.name && |e.cookie| == NFS_COOKIESIZE && CStrings(e.next)
  }

  function EncodeEntry(e: Entries): seq<Byte>
    requires e.Entry? && Bounded(e)
    decreases e, 0
  {
    EncodeWord(e.fileid) + EncodeString(e.name) + EncodeOpaque(e.cookie) + EncodePointer(e.next)
  }

  function EncodePointer(e: Entries): seq<Byte>
    requires Bounded(e)
    decreases e, 1
  {
    if e.Nil? then EncodeBool(false) else EncodeBool(true) + EncodeEntry(e)
  }

  function Encode(r: ReadDirRes): seq<Byte>
    requires r.Reply? ==> Bounded(r.entries)
  {
    match r
    case Reply(entries, eof) => EncodeWord(NFS_OK) + (EncodePointer(entries) + EncodeBool(eof))
    case Status(status) => EncodeWord(status)
  }

  // ---- Parsing -------------------------------------------------------------------

  function Number(b0: int, b1: int, b2: int, b3: int): int {
    ((b0 * 0x100 + b1) * 0x100 + b2) * 0x100 + b3
  }

  function ParseWord(b: seq<Byte>): (p: Parsed<Word>)
    ensures p.Got? ==> |p.rest| == |b| - 4
  {
    if |b| < 4 then Bad
    else Got(Number(b[0], b[1], b[2], b[3]), b[4..])
  }

  function ParseOpaque(b: seq<Byte>, n: nat): (p: Parsed<seq<Byte>>)
    ensures p.Got? ==> |p.rest| <= |b|
  {
    if |b| < n + Pad(n) then Bad else Got(b[..n], b[n + Pad(n)..])
  }

  // The C string in a buffer: what comes before the first NUL
  function CString(s: seq<Byte>): seq<Byte> {
    if s == [] || s[0] == 0 then [] else [s[0]] + CString(s[1..])
  }

  function ParseString(b: seq<Byte>, max: nat): (p: Parsed<seq<Byte>>)
    ensures p.Got? ==> |p.rest| <= |b|
  {
    match ParseWord(b)
    case Bad => Bad
    case Got(size, rest) =>
      if size > max then Bad
      else
        match ParseOpaque(rest, size)
        case Bad => Bad
        case Got(s, rest') => Got(CString(s), rest')
  }

  function ParseBool(b: seq<Byte>): (p: Parsed<bool>)
    ensures p.Got? ==> |p.rest| == |b| - 4
  {
    match ParseWord(b)
    case Bad => Bad
    case Got(w, rest) => Got(w != 0, rest)
  }

  function ParseEntry(b: seq<Byte>): (p: Parsed<Entries>)
    ensures p.Got? ==> p.value.Entry? && |p.rest| <= |b|
    decreases |b|, 0
  {
    match ParseWord(b)
    case Bad => Bad
    case Got(fileid, b1) =>
      match ParseString(b1, NFS_MAXNAMLEN)
      case Bad => Bad
      case Got(name, b2) =>
        match ParseOpaque(b2, NFS_COOKIESIZE)
        case Bad => Bad
        case Got(cookie, b3) =>
          match ParsePointer(b3)
          case Bad => Bad
          case Got(next, b4) => Got(Entry(fileid, name, cookie, next), b4)
  }

  function ParsePointer(b: seq<Byte>): (p: Parsed<Entries>)
    ensures p.Got? ==> |p.rest| <= |b|
    decreases |b|, 1
  {
    match ParseBool(b)
    case Bad => Bad
    case Got(more, rest) => if more then ParseEntry(rest) else Got(Nil, rest)
  }

  function Parse(b: seq<Byte>): Parsed<ReadDirRes> {
    match ParseWord(b)
    case Bad => Bad
    case Got(status, b1) =>
      if status != NFS_OK then Got(Status(status), b1)
      else
        match ParsePointer(b1)
        case Bad => Bad
        case Got(entries, b2) =>
          match ParseBool(b2)
          case Bad => Bad
          case Got(eof, b3) => Got(Reply(entries, eof), b3)
  }

  // ---- Round trips -----------------------------------------------------------------

  lemma WordRoundTrip(w: Word, rest: seq<Byte>)
    ensures ParseWord(EncodeWord(w) + rest) == Got(w, rest)
  {
    var b := EncodeWord(w) + rest;
    assert b[4..] == rest;
    assert w / 0x1_0000 == w / 0x100 / 0x100 && w / 0x100_0000 == w / 0x1_0000 / 0x100;
    assert Number(b[0], b[1], b[2], b[3]) == w;
  }

  lemma OpaqueRoundTrip(data: seq<Byte>, rest: seq<Byte>)
    ensures ParseOpaque(EncodeOpaque(data) + rest, |data|) == Got(data, rest)
  {
    var b := EncodeOpaque(data) + rest;
    assert b[..|data|] == data && b[|data| + Pad(|data|)..] == rest;
  }

  lemma {:induction false} CStringWhole(s: seq<Byte>)
    ensures CString(s) == s <==> 0 !in s
  {
    if s != [] {
      CStringWhole(s[1..]);
      assert s == [s[0]] + s[1..];
    }
  }

  lemma StringRoundTrip(s: seq<Byte>, rest: seq<Byte>)
    requires |s| <= NFS_MAXNAMLEN && 0 !in s
    ensures ParseString(EncodeString(s) + rest, NFS_MAXNAMLEN) == Got(s, rest)
  {
    assert EncodeString(s) + rest == EncodeWord(|s|) + (EncodeOpaque(s) + rest);
    WordRoundTrip(|s|, EncodeOpaque(s) + rest);
    OpaqueRoundTrip(s, rest);
    CStringWhole(s);
  }

  lemma BoolRoundTrip(b: bool, rest: seq<Byte>)
    ensures ParseBool(EncodeBool(b) + rest) == Got(b, rest)
  {
    WordRoundTrip(if b then 1 else 0, rest);
  }

  lemma {:induction false} PointerRoundTrip(e: Entries, rest: seq<Byte>)
    requires Bounded(e) && CStrings(e)
    ensures ParsePointer(EncodePointer(e) + rest) == Got(e, rest)
  {
    hide EncodeWord, ParseWord, EncodeString, ParseString, EncodeOpaque, ParseOpaque, EncodeBool, ParseBool;
    match e
    case Nil => BoolRoundTrip(false, rest);
    case Entry(fileid, name, cookie, next) =>
      var t1 := EncodePointer(next) + rest;
      var t2 := EncodeOpaque(cookie) + t1;
      var t3 := EncodeString(name) + t2;
      var t4 := EncodeWord(fileid) + t3;
      assert EncodePointer(e) + rest == EncodeBool(true) + t4;
      BoolRoundTrip(true, t4);
      WordRoundTrip(fileid, t3);
      StringRoundTrip(name, t2);
      OpaqueRoundTrip(cookie, t1);
      PointerRoundTrip(next, rest);
  }

  // Decoding undoes encoding, for lists of any length, and consumes exactly the
  // encoded bytes.
  lemma RoundTrip(r: ReadDirRes, rest: seq<Byte>)
    requires if r.Reply? then Bounded(r.entries) && CStrings(r.entries) else r.status != NFS_OK
    ensures Parse(Encode(r) + rest) == Got(r, rest)
  {
    hide EncodeWord, ParseWord, EncodePointer, ParsePointer, EncodeBool, ParseBool;
    match r
    case Status(status) => WordRoundTrip(status, rest);
    case Reply(entries, eof) =>
      var t1 := EncodeBool(eof) + rest;
      var t2 := EncodePointer(entries) + t1;
      assert Encode(r) + rest == EncodeWord(NFS_OK) + t2;
      WordRoundTrip(NFS_OK, t2);
      PointerRoundTrip(entries, t1);
      BoolRoundTrip(eof, rest);
  }

  // A name with a NUL comes back cut off there (src/ch_nfs_prot_xdr.c:409).
  lemma NulCutsName(s: seq<Byte>, t: seq<Byte>, rest: seq<Byte>)
    requires |s + [0] + t| <= NFS_MAXNAMLEN && 0 !in s
    ensures ParseString(EncodeString(s + [0] + t) + rest, NFS_MAXNAMLEN) == Got(s, rest)
  {
    var u := s + [0] + t;
    assert EncodeString(u) + rest == EncodeWord(|u|) + (EncodeOpaque(u) + rest);
    WordRoundTrip(|u|, EncodeOpaque(u) + rest);
    OpaqueRoundTrip(u, rest);
    CStringCut(s, t);
  }

  lemma {:induction false} CStringCut(s: seq<Byte>, t: seq<Byte>)
    requires 0 !in s
    ensures CString(s + [0] + t) == s
  {
    if s != [] {
      assert (s + [0] + t)[1..] == s[1..] + [0] + t;
      CStringCut(s[1..], t);
    }
  }

  lemma {:induction false} PointerAligned(e: Entries)
    requires Bounded(e) && CStrings(e)
    ensures |EncodePointer(e)| % 4 == 0
  {
    hide EncodeWord;
    if e.Entry? {
      PointerAligned(e.next);
    }
  }

  lemma Aligned(r: ReadDirRes)
    requires r.Reply? ==> Bounded(r.entries) && CStrings(r.entries)
    ensures |Encode(r)| % 4 == 0
  {
    if r.Reply? {
      PointerAligned(r.entries);
    }
  }

  // An announced length over the limit is rejected, whatever follows.
  lemma OverLongRejected(size: Word, rest: seq<Byte>)
    requires size > NFS_MAXNAMLEN
    ensures ParseString(EncodeWord(size) + rest, NFS_MAXNAMLEN) == Bad
  {
    WordRoundTrip(size, rest);
  }

  // Hence no parsed entry carries a name over the limit.
  lemma {:induction false} ParsedIsBounded(b: seq<Byte>)
    ensures ParsePointer(b).Got? ==> Bounded(ParsePointer(b).value) && CStrings(ParsePointer(b).value)
    decreases |b|
  {
    var p := ParseBool(b);
    if p.Got? && p.value && ParseEntry(p.rest).Got? {
      var q := ParseString(ParseWord(p.rest).rest, NFS_MAXNAMLEN);
      CStringBounded(ParseOpaque(ParseWord(ParseWord(p.rest).rest).rest, ParseWord(ParseWord(p.rest).rest).value).value);
      ParsedIsBounded(ParseOpaque(q.rest, NFS_COOKIESIZE).rest);
    }
  }

  lemma {:induction false} CStringBounded(s: seq<Byte>)
    ensures |CString(s)| <= |s| && 0 !in CString(s)
  {
    if s != [] {
      CStringBounded(s[1..]);
    }
  }

  // ---- What lies where on the wire ------------------------------------------------------

  // Four bytes from `at` on make up the number w, the most significant first
  // (section 4.1 of RFC 4506).
  ghost predicate WordAt(b: seq<Byte>, at: nat, w: int) {
    var s: seq<int> := b;
    at + 4 <= |s| && s[at] * 0x100_0000 + s[at + 1] * 0x1_0000 + s[at + 2] * 0x100 + s[at + 3] == w
  }

  // Bytes, then zeros up to the next multiple of four; the end is `end`.
  ghost predicate OpaqueAt(b: seq<Byte>, at: nat, data: seq<Byte>, end: nat) {
    && at + |data| <= end <= |b| && end - at < |data| + 4 && (end - at) % 4 == 0
    && b[at..at + |data|] == data
    && forall i :: at + |data| <= i < end ==> b[i] == 0
  }

  // A list: a 1 before every entry, which is the file id, the length of the name,
  // the name, the cookie and the rest of the list; a 0 at the end.
  ghost predicate ListAt(b: seq<Byte>, at: nat, e: Entries, end: nat)
    decreases e
  {
    match e
    case Nil => WordAt(b, at, 0) && end == at + 4
    case Entry(fileid, name, cookie, next) =>
      && WordAt(b, at, 1) && WordAt(b, at + 4, fileid) && WordAt(b, at + 8, |name|)
      && exists c: nat, n: nat ::
        OpaqueAt(b, at + 12, name, c) && OpaqueAt(b, c, cookie, n) && ListAt(b, n, next, end)
  }

  // A reply: status 0, the list, and 1 or 0 for the end of the directory; or
  // another status alone.
  ghost predicate ReplyAt(b: seq<Byte>, r: ReadDirRes) {
    match r
    case Status(status) => |b| == 4 && WordAt(b, 0, status)
    case Reply(entries, eof) =>
      WordAt(b, 0, 0) && exists end: nat :: ListAt(b, 4, entries, end) && WordAt(b, end, if eof then 1 else 0) && |b| == end + 4
  }

  // Four bytes determine the number, and the number the bytes.
  lemma WordExactly(b: seq<Byte>, at: nat, w: Word)
    ensures WordAt(b, at, w) <==> at + 4 <= |b| && b[at..at + 4] == EncodeWord(w)
  {
    var e: seq<int> := EncodeWord(w);
    assert w / 0x1_0000 == w / 0x100 / 0x100 && w / 0x100_0000 == w / 0x1_0000 / 0x100;
    assert e[0] * 0x100_0000 + e[1] * 0x1_0000 + e[2] * 0x100 + e[3] == w;
    if WordAt(b, at, w) {
      BytesUnique(b[at], b[at + 1], b[at + 2], b[at + 3], EncodeWord(w)[0], EncodeWord(w)[1], EncodeWord(w)[2], EncodeWord(w)[3]);
    }
  }

  lemma BytesUnique(a0: int, a1: int, a2: int, a3: int, b0: int, b1: int, b2: int, b3: int)
    requires 0 <= a0 < 256 && 0 <= a1 < 256 && 0 <= a2 < 256 && 0 <= a3 < 256
    requires 0 <= b0 < 256 && 0 <= b1 < 256 && 0 <= b2 < 256 && 0 <= b3 < 256
    requires a0 * 0x100_0000 + a1 * 0x1_0000 + a2 * 0x100 + a3 == b0 * 0x100_0000 + b1 * 0x1_0000 + b2 * 0x100 + b3
    ensures a0 == b0 && a1 == b1 && a2 == b2 && a3 == b3
  {
  }

  lemma OpaqueExactly(b: seq<Byte>, at: nat, data: seq<Byte>, end: nat)
    ensures OpaqueAt(b, at, data, end)
      <==> end == at + |EncodeOpaque(data)| && end <= |b| && b[at..end] == EncodeOpaque(data)
  {
    var p := Pad(|data|);
    var e := EncodeOpaque(data);
    if OpaqueAt(b, at, data, end) {
      assert end == at + |data| + p;
      assert b[at..end] == b[at..at + |data|] + b[at + |data|..end];
    }
    if end == at + |e| && end <= |b| && b[at..end] == e {
      assert b[at..at + |data|] == b[at..end][..|data|] == data;
      forall i | at + |data| <= i < end ensures b[i] == 0 {
        assert b[i] == b[at..end][i - at];
      }
    }
  }

  lemma Cut(b: seq<Byte>, at: nat, mid: nat, end: nat, x: seq<Byte>, y: seq<Byte>)
    requires at <= mid <= end <= |b| && mid == at + |x|
    ensures b[at..end] == x + y <==> b[at..mid] == x && b[mid..end] == y
  {
    assert b[at..end] == b[at..mid] + b[mid..end];
    if b[at..end] == x + y {
      assert b[at..mid] == (x + y)[..|x|] && b[mid..end] == (x + y)[|x|..];
    }
  }

  lemma {:induction false} ListExactly(b: seq<Byte>, at: nat, e: Entries, end: nat)
    requires Bounded(e)
    ensures ListAt(b, at, e, end) <==> at + |EncodePointer(e)| == end <= |b| && b[at..end] == EncodePointer(e)
    decreases e
  {
    hide WordAt, OpaqueAt, EncodeWord, EncodeOpaque;
    match e {
      case Nil => WordExactly(b, at, 0);
      case Entry(fileid, name, cookie, next) =>
        WordExactly(b, at, 1);
        WordExactly(b, at + 4, fileid);
        WordExactly(b, at + 8, |name|);
        var c := at + 12 + |EncodeOpaque(name)|;
        var n := c + |EncodeOpaque(cookie)|;
        var p := at + 12;
        forall c': nat ensures OpaqueAt(b, p, name, c') ==> c' == c { OpaqueExactly(b, p, name, c'); }
        forall n': nat ensures OpaqueAt(b, c, cookie, n') ==> n' == n { OpaqueExactly(b, c, cookie, n'); }
        OpaqueExactly(b, p, name, c);
        OpaqueExactly(b, c, cookie, n);
        ListExactly(b, n, next, end);
        EntryParts(b, at, fileid, name, cookie, next, c, n, end);
    }
  }

  lemma EntryParts(b: seq<Byte>, at: nat, fileid: Word, name: seq<Byte>, cookie: seq<Byte>, next: Entries, c: nat, n: nat, end: nat)
    requires Bounded(Entry(fileid, name, cookie, next))
    requires c == at + 12 + |EncodeOpaque(name)| && n == c + |EncodeOpaque(cookie)|
    ensures var e := EncodePointer(Entry(fileid, name, cookie, next));
      && |e| == n - at + |EncodePointer(next)|
      && (n <= end <= |b| ==>
        (b[at..end] == e <==>
          && b[at..at + 4] == EncodeWord(1) && b[at + 4..at + 8] == EncodeWord(fileid) && b[at + 8..at + 12] == EncodeWord(|name|)
          && b[at + 12..c] == EncodeOpaque(name) && b[c..n] == EncodeOpaque(cookie) && b[n..end] == EncodePointer(next)))
  {
    hide EncodeWord, EncodeOpaque;
    var t1 := EncodePointer(next);
    var t2 := EncodeOpaque(cookie) + t1;
    var t3 := EncodeOpaque(name) + t2;
    var t4 := EncodeWord(|name|) + t3;
    var t5 := EncodeWord(fileid) + t4;
    assert EncodePointer(Entry(fileid, name, cookie, next)) == EncodeWord(1) + t5;
    if n <= end <= |b| {
      Cut(b, at, at + 4, end, EncodeWord(1), t5);
      Cut(b, at + 4, at + 8, end, EncodeWord(fileid), t4);
      Cut(b, at + 8, at + 12, end, EncodeWord(|name|), t3);
      Cut(b, at + 12, c, end, EncodeOpaque(name), t2);
      Cut(b, c, n, end, EncodeOpaque(cookie), t1);
    }
  }

  // The encoding of a value is the one sequence of bytes that is laid out like
  // this; so, by RoundTrip, whatever is laid out like this is decoded as it.
  lemma LayoutExactly(b: seq<Byte>, r: ReadDirRes)
    requires r.Reply? ==> Bounded(r.entries)
    ensures ReplyAt(b, r) <==> b == Encode(r)
  {
    hide WordAt, EncodeWord, ListAt, EncodePointer;
    match r {
      case Status(status) =>
        WordExactly(b, 0, status);
        if |b| == 4 { assert b[0..4] == b; }
      case Reply(entries, eof) =>
        var end := 4 + |EncodePointer(entries)|;
        WordExactly(b, 0, 0);
        WordExactly(b, end, if eof then 1 else 0);
        forall e: nat ensures ListAt(b, 4, entries, e) ==> e == end { ListExactly(b, 4, entries, e); }
        ListExactly(b, 4, entries, end);
        if |b| == end + 4 {
          assert b[0..|b|] == b;
          Cut(b, 0, 4, |b|, EncodeWord(NFS_OK), EncodePointer(entries) + EncodeBool(eof));
          Cut(b, 4, end, |b|, EncodePointer(entries), EncodeBool(eof));
        }
    }
  }

  // A reader does not look at the padding, and takes every number but 0 as true.
  lemma ReaderIsLenient(data: seq<Byte>, pad: seq<Byte>, w: Word, rest: seq<Byte>)
    requires |pad| == Pad(|data|)
    ensures ParseOpaque(data + pad + rest, |data|) == Got(data, rest)
    ensures ParseBool(EncodeWord(w) + rest) == Got(w != 0, rest)
  {
    WordRoundTrip(w, rest);
    var b := data + pad + rest;
    assert b[..|data|] == data && b[|data| + |pad|..] == rest;
  }

  lemma LaidOutIsRead(b: seq<Byte>, r: ReadDirRes, rest: seq<Byte>)
    requires if r.Reply? then Bounded(r.entries) && CStrings(r.entries) else r.status != NFS_OK
    requires ReplyAt(b, r)
    ensures Parse(b + rest) == Got(r, rest)
  {
    LayoutExactly(b, r);
    RoundTrip(r, rest);
  }
}
