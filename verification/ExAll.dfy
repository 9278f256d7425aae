// Paged directory scanning, ExAll (src/examine.c): the replies of READDIR
// (section 2.2.17 of RFC 1094) are handed to the caller in buffers of any size.
module ExAll {
  const ERROR_NO_FREE_STORE := 103
  const ERROR_BAD_NUMBER := 115
  const ERROR_NO_MORE_ENTRIES := 232

  const ED_NAME := 1
  const ED_TYPE := 2
  const ED_SIZE := 3
  const ED_PROTECTION := 4
  const ED_DATE := 5
  const ED_COMMENT := 6
  const ED_OWNER := 7

  datatype DirEntry = DirEntry(name: string, cookie: int)

  // ---- The directory on the server ------------------------------------------------

  // The number of entries up to the one with this cookie; cookie 0 is the start.
  function Position(dir: seq<DirEntry>, cookie: int): (p: nat)
    ensures p <= |dir|
  {
    if cookie == 0 then 0
    else if dir == [] then 0
    else if dir[0].cookie == cookie then 1
    else if exists i :: 1 <= i < |dir| && dir[i].cookie == cookie then 1 + Position(dir[1..], cookie)
    else 0
  }

  ghost predicate GoodCookies(dir: seq<DirEntry>) {
    && (forall i :: 0 <= i < |dir| ==> dir[i].cookie != 0)
    && (forall i, j :: 0 <= i < j < |dir| ==> dir[i].cookie != dir[j].cookie)
  }

  lemma {:induction false} PositionOf(dir: seq<DirEntry>, i: nat)
    requires GoodCookies(dir) && i < |dir|
    ensures Position(dir, dir[i].cookie) == i + 1
  {
    if i > 0 {
      assert dir[i].cookie != dir[0].cookie;
      PositionOf(dir[1..], i - 1);
    }
  }

  datatype Listing = Listed(entries: seq<DirEntry>, eof: bool) | Refused(error: int)

  class DirServer {
    const dir: seq<DirEntry>
    ghost var failures: nat // calls, allocations and attribute lookups that failed

    constructor (dir: seq<DirEntry>)
      ensures this.dir == dir
    {
      this.dir, failures := dir, 0;
    }

    // An allocation, or the lookup of attributes
    method Try() returns (ok: bool)
      modifies `failures
      ensures failures == old(failures) + if ok then 0 else 1
    {
      ok := *;
      if !ok {
        failures := failures + 1;
      }
    }

    // nfs_ReadDir: any number of entries after the cookie, but some unless it is
    // the end of the directory.
    method ReadDir(cookie: int) returns (r: Listing)
      modifies `failures
      ensures failures == old(failures) + if r.Refused? then 1 else 0
      ensures r.Listed? ==>
        var p := Position(dir, cookie);
        p + |r.entries| <= |dir| && r.entries == dir[p..p + |r.entries|]
        && (if r.eof then p + |r.entries| == |dir| else r.entries != [])
    {
      var p := Position(dir, cookie);
      if * {
        var error := *;
        failures := failures + 1;
        return Refused(error);
      }
      if p < |dir| {
        var n: nat :| 1 <= n && p + n <= |dir|;
        var eof := *;
        return Listed(dir[p..p + n], eof && p + n == |dir|);
      }
      return Listed([], true);
    }
  }

  // ---- What is to be listed ----------------------------------------------------------

  predicate Skippable(name: string, maxLen: nat) {
    name == "." || name == ".." || |name| > maxLen
  }

  function DropLeading(es: seq<DirEntry>, maxLen: nat): seq<DirEntry> {
    if es != [] && Skippable(es[0].name, maxLen) then DropLeading(es[1..], maxLen) else es
  }

  function Concat(replies: seq<seq<DirEntry>>): seq<DirEntry> {
    if replies == [] then [] else Concat(replies[..|replies| - 1]) + replies[|replies| - 1]
  }

  // Every reply minus its leading skippable entries
  function Visible(replies: seq<seq<DirEntry>>, maxLen: nat): seq<DirEntry> {
    if replies == [] then []
    else Visible(replies[..|replies| - 1], maxLen) + DropLeading(replies[|replies| - 1], maxLen)
  }

  // A name as it appears in a record
  function Shown(name: string, maxLen: nat): (r: string)
    ensures r <= name && |r| <= maxLen && (r == name || |r| == maxLen)
  {
    if |name| <= maxLen then name else name[..maxLen]
  }

  type Filter = string -> bool

  // The names that pass the pattern, and the hook once they are shown
  function Names(es: seq<DirEntry>, maxLen: nat, pattern: Filter, hook: Filter): seq<string> {
    if es == [] then []
    else
      (if pattern(es[0].name) && hook(Shown(es[0].name, maxLen)) then [Shown(es[0].name, maxLen)] else [])
      + Names(es[1..], maxLen, pattern, hook)
  }

  // Of a reply exactly the leading entries are hidden that are ".", ".." or too
  // long for the caller.
  lemma {:induction false} LeadingAreHidden(es: seq<DirEntry>, maxLen: nat) returns (k: nat)
    ensures k <= |es| && DropLeading(es, maxLen) == es[k..]
    ensures forall j :: 0 <= j < k ==> es[j].name in {".", ".."} || |es[j].name| > maxLen
    ensures k < |es| ==> es[k].name !in {".", ".."} && |es[k].name| <= maxLen
  {
    k := 0;
    if es != [] && Skippable(es[0].name, maxLen) {
      k := LeadingAreHidden(es[1..], maxLen);
      assert forall j :: 0 < j < k + 1 ==> es[j] == es[1..][j - 1];
      k := k + 1;
    }
  }

  // A name is listed exactly if it is that of an entry which passes both filters.
  lemma {:induction false} NamesExactly(es: seq<DirEntry>, maxLen: nat, pattern: Filter, hook: Filter, name: string)
    ensures name in Names(es, maxLen, pattern, hook)
      <==> exists i :: 0 <= i < |es| && pattern(es[i].name) && name == Shown(es[i].name, maxLen) && hook(name)
  {
    if es != [] {
      NamesExactly(es[1..], maxLen, pattern, hook, name);
      if i :| 0 <= i < |es[1..]| && pattern(es[1..][i].name) && name == Shown(es[1..][i].name, maxLen) && hook(name) {
        assert es[i + 1] == es[1..][i];
      }
      if i :| 0 <= i < |es| && pattern(es[i].name) && name == Shown(es[i].name, maxLen) && hook(name) {
        if i > 0 { assert es[i] == es[1..][i - 1]; }
      }
    }
  }

  lemma {:induction false} NamesConcat(a: seq<DirEntry>, b: seq<DirEntry>, maxLen: nat, pattern: Filter, hook: Filter)
    ensures Names(a + b, maxLen, pattern, hook) == Names(a, maxLen, pattern, hook) + Names(b, maxLen, pattern, hook)
  {
    if a == [] {
      assert a + b == b;
    } else {
      assert (a + b)[1..] == a[1..] + b;
      NamesConcat(a[1..], b, maxLen, pattern, hook);
    }
  }

  lemma NamesHead(es: seq<DirEntry>, maxLen: nat, pattern: Filter, hook: Filter)
    requires es != []
    ensures var head := if pattern(es[0].name) && hook(Shown(es[0].name, maxLen)) then [Shown(es[0].name, maxLen)] else [];
      Names(es, maxLen, pattern, hook) == head + Names(es[1..], maxLen, pattern, hook)
  {
  }

  lemma OneMore(replies: seq<seq<DirEntry>>, reply: seq<DirEntry>, maxLen: nat)
    ensures Concat(replies + [reply]) == Concat(replies) + reply
    ensures Visible(replies + [reply], maxLen) == Visible(replies, maxLen) + DropLeading(reply, maxLen)
  {
  }

  // What changes when one more reply has come, its first k entries skipped
  lemma NamesCame(replies: seq<seq<DirEntry>>, reply: seq<DirEntry>, k: nat, maxLen: nat, pattern: Filter, hook: Filter, emitted: seq<string>)
    requires k <= |reply| && DropLeading(reply, maxLen) == reply[k..] && Names(Visible(replies, maxLen), maxLen, pattern, hook) == emitted
    ensures Concat(replies + [reply]) == Concat(replies) + reply
    ensures Names(Visible(replies + [reply], maxLen), maxLen, pattern, hook) == emitted + Names(reply[k..], maxLen, pattern, hook)
  {
    hide Names, Visible, Concat, DropLeading;
    OneMore(replies, reply, maxLen);
    NamesConcat(Visible(replies, maxLen), reply[k..], maxLen, pattern, hook);
  }

  lemma SliceOn(dir: seq<DirEntry>, p: nat, reply: seq<DirEntry>, k: nat, seen: seq<DirEntry>)
    requires p + |reply| <= |dir| && k <= |reply| && reply == dir[p..p + |reply|] && seen == dir[..p]
    ensures reply[k..] == dir[p + k..p + |reply|] && seen + reply == dir[..p + |reply|]
  {
  }

  // ---- Records in the caller's buffer ----------------------------------------------------

  // next is 0 in the last record.
  datatype Record = Record(at: int, size: int, name: string, next: int)

  // GetFixedSize: where the name starts in a record
  function FixedSize(type_: int): (l: nat)
    ensures 8 <= l <= 38
  {
    if type_ == ED_NAME then 8
    else if type_ == ED_TYPE then 12
    else if type_ == ED_SIZE then 16
    else if type_ == ED_PROTECTION then 20
    else if type_ == ED_DATE then 32
    else if type_ == ED_COMMENT then 36
    else 38
  }

  // The sizes of the fields of struct ExAllData, in their order (src/xexall.h:45-57):
  // next, name, type, size, protection, days, minutes, ticks, comment, user, group
  const FIELDS: seq<nat> := [4, 4, 4, 4, 4, 4, 4, 4, 4, 2, 2]

  // How many of them PutExAllData fills in (src/examine.c:693-709)
  function FieldsUsed(type_: int): (n: nat)
    requires ED_NAME <= type_ <= ED_OWNER
    ensures n <= |FIELDS|
  {
    if type_ == ED_OWNER then 11 else if type_ == ED_COMMENT then 9 else if type_ == ED_DATE then 8 else 1 + type_
  }

  function Sum(sizes: seq<nat>): nat {
    if sizes == [] then 0 else Sum(sizes[..|sizes| - 1]) + sizes[|sizes| - 1]
  }

  // The name starts right behind the fields, but for ED_OWNER, where it starts on
  // the group, which is not counted.
  lemma FieldsBeforeName(type_: int)
    requires ED_NAME <= type_ <= ED_OWNER
    ensures FixedSize(type_) == Sum(FIELDS[..FieldsUsed(type_)]) - if type_ == ED_OWNER then FIELDS[10] else 0
  {
    FieldSums(FIELDS);
  }

  lemma FieldSums(f: seq<nat>)
    requires f == FIELDS
    ensures Sum(f[..2]) == 8 && Sum(f[..3]) == 12 && Sum(f[..4]) == 16 && Sum(f[..5]) == 20
    ensures Sum(f[..8]) == 32 && Sum(f[..9]) == 36 && Sum(f[..11]) == 40
  {
    hide Sum;
    SumNothing();
    assert f[..0] == [];
    SumStep(f, 1); SumStep(f, 2); SumStep(f, 3); SumStep(f, 4); SumStep(f, 5); SumStep(f, 6);
    SumStep(f, 7); SumStep(f, 8); SumStep(f, 9); SumStep(f, 10); SumStep(f, 11);
  }

  lemma SumNothing()
    ensures Sum([]) == 0
  {
  }

  lemma SumStep(f: seq<nat>, n: nat)
    requires 0 < n <= |f|
    ensures Sum(f[..n]) == Sum(f[..n - 1]) + f[n - 1]
  {
    assert f[..n][..n - 1] == f[..n - 1];
  }

  // The length of the name with its NUL, rounded up to a long word
  function NameSize(name: string): (n: int)
    ensures n % 4 == 0 && |name| + 1 <= n < |name| + 5
  {
    (|name| + 1 + 3) / 4 * 4
  }

  // The records follow each other from buf on, are linked in this order, and
  // end within the buffer.
  ghost predicate Packed(recs: seq<Record>, buf: int, end: int, fixed: nat) {
    && (forall i :: 0 <= i < |recs| ==> recs[i].size == fixed + NameSize(recs[i].name))
    && (forall i :: 0 < i < |recs| ==> recs[i].at == recs[i - 1].at + recs[i - 1].size && recs[i - 1].next == recs[i].at)
    && (recs != [] ==> recs[0].at == buf && recs[|recs| - 1].next == 0)
    && Top(recs, buf) <= end
  }

  function Top(recs: seq<Record>, buf: int): int {
    if recs == [] then buf else recs[|recs| - 1].at + recs[|recs| - 1].size
  }

  // Hence they do not overlap, and every name fits its record with its NUL.
  lemma {:induction false} PackedApart(recs: seq<Record>, buf: int, end: int, fixed: nat, i: nat, j: nat)
    requires Packed(recs, buf, end, fixed) && i <= j < |recs|
    ensures buf <= recs[i].at && recs[j].at + recs[j].size <= end
    ensures i < j ==> recs[i].at + recs[i].size <= recs[j].at
    ensures fixed + |recs[i].name| + 1 <= recs[i].size
    decreases |recs| - j + i
  {
    PackedFrom(recs, buf, end, fixed, 0, i);
    assert recs[0].at == buf;
    PackedFrom(recs, buf, end, fixed, i, j);
    PackedFrom(recs, buf, end, fixed, j, |recs| - 1);
  }

  lemma {:induction false} PackedFrom(recs: seq<Record>, buf: int, end: int, fixed: nat, i: nat, j: nat)
    requires Packed(recs, buf, end, fixed) && i <= j < |recs|
    ensures recs[i].at <= recs[j].at && recs[i].at + recs[i].size <= recs[j].at + recs[j].size
    ensures i < j ==> recs[i].at + recs[i].size <= recs[j].at
    decreases j
  {
    if i < j {
      PackedFrom(recs, buf, end, fixed, i, j - 1);
    }
  }

  function EntrySize(name: string, maxLen: nat, type_: int): int {
    FixedSize(type_) + NameSize(Shown(name, maxLen))
  }

  function RecordNames(recs: seq<Record>): (r: seq<string>)
    ensures |r| == |recs| && forall i :: 0 <= i < |r| ==> r[i] == recs[i].name
  {
    seq(|recs|, i requires 0 <= i < |recs| => recs[i].name)
  }

  function Append(recs: seq<Record>, r: Record): seq<Record> {
    (if recs == [] then [] else recs[|recs| - 1 := recs[|recs| - 1].(next := r.at)]) + [r]
  }

  lemma AppendPacked(recs: seq<Record>, buf: int, end: int, fixed: nat, r: Record)
    requires Packed(recs, buf, end, fixed) && r.at == Top(recs, buf) && r.at + r.size <= end
    requires r.size == fixed + NameSize(r.name) && r.next == 0
    ensures Packed(Append(recs, r), buf, end, fixed) && Top(Append(recs, r), buf) == r.at + r.size
    ensures RecordNames(Append(recs, r)) == RecordNames(recs) + [r.name]
  {
    hide NameSize;
    var a := Append(recs, r);
    assert a[|recs|] == r;
    assert forall i :: 0 <= i < |recs| ==> a[i] == recs[i].(next := if i == |recs| - 1 then r.at else recs[i].next);
  }

  // ---- The scan -----------------------------------------------------------------------------

  datatype Ending = Full | AtEnd | Failed

  class Scan {
    const srv: DirServer
    const maxLen: nat
    const pattern: Filter    // eac_MatchString
    const hook: Filter       // eac_MatchFunc
    var entries: seq<DirEntry>
    var cookie: int
    var eof: bool
    var open: bool           // the handle is in the list of handles
    ghost var replies: seq<seq<DirEntry>>
    ghost var emitted: seq<string>

    // The replies are the directory up to the entries not yet handed out, and
    // what was emitted and what is at hand make up what is to be listed.
    ghost predicate Valid()
      reads this
    {
      && GoodCookies(srv.dir)
      && var p := Position(srv.dir, cookie);
      && p + |entries| <= |srv.dir| && entries == srv.dir[p..p + |entries|]
      && Concat(replies) == srv.dir[..p + |entries|]
      && (eof ==> p + |entries| == |srv.dir|)
      && Names(Visible(replies, maxLen), maxLen, pattern, hook) == emitted + Names(entries, maxLen, pattern, hook)
    }

    // dir_Create: the first call starts at cookie 0.
    constructor (srv: DirServer, maxLen: nat, pattern: Filter, hook: Filter)
      requires GoodCookies(srv.dir)
      ensures Valid() && open && emitted == [] && this.srv == srv && this.maxLen == maxLen
      ensures this.pattern == pattern && this.hook == hook
    {
      this.srv, this.maxLen, this.pattern, this.hook := srv, maxLen, pattern, hook;
      entries, cookie, eof, open, replies, emitted := [], 0, false, true, [], [];
    }

    // The whole directory was seen and everything to be listed was emitted.
    ghost predicate Complete()
      reads this
    {
      Concat(replies) == srv.dir && emitted == Names(Visible(replies, maxLen), maxLen, pattern, hook)
    }

    // Skips the leading entries of a reply (src/examine.c:606-612).
    method Skip(reply: seq<DirEntry>, ghost p: nat) returns (es: seq<DirEntry>, ghost k: nat)
      requires GoodCookies(srv.dir) && p + |reply| <= |srv.dir| && reply == srv.dir[p..p + |reply|]
      requires Position(srv.dir, cookie) == p
      modifies `cookie
      ensures k <= |reply| && es == reply[k..] == DropLeading(reply, maxLen)
      ensures Position(srv.dir, cookie) == p + k
    {
      hide Position;
      es, k := reply, 0;
      while es != [] && Skippable(es[0].name, maxLen)
        invariant k <= |reply| && es == reply[k..] && DropLeading(es, maxLen) == DropLeading(reply, maxLen)
        invariant Position(srv.dir, cookie) == p + k
        decreases |es|
      {
        PositionOf(srv.dir, p + k);
        cookie := es[0].cookie;
        es := es[1..];
        k := k + 1;
      }
    }

    // One reply (src/examine.c:588-614); `more` asks for the next one.
    method NextReply() returns (more: bool, es: seq<DirEntry>, res2: int)
      requires Valid() && entries == [] && !eof
      modifies `cookie, `eof, `entries, `replies, srv`failures
      ensures srv.failures >= old(srv.failures)
      ensures es == [] && !more && !eof ==> srv.failures > old(srv.failures)
      ensures es != [] ==> Valid() && entries == es && !more
      ensures more ==> Valid() && entries == [] && !eof && Position(srv.dir, cookie) > old(Position(srv.dir, cookie))
      ensures es == [] && !more && eof ==> Valid() && entries == []
      ensures Position(srv.dir, cookie) >= old(Position(srv.dir, cookie))
    {
      hide Position, Names, Visible, Concat, DropLeading;
      ghost var p := Position(srv.dir, cookie);
      var r := srv.ReadDir(cookie);
      if r.Refused? {
        return false, [], r.error;
      }
      eof := r.eof;
      ghost var k;
      NamesNone(maxLen, pattern, hook);
      es, k := Skip(r.entries, p);
      NamesCame(replies, r.entries, k, maxLen, pattern, hook, emitted);
      SliceOn(srv.dir, p, r.entries, k, Concat(replies));
      replies, entries := replies + [r.entries], es;
      return r.entries != [] && es == [] && !eof, es, 0;
    }

    // `atEnd` is what the caller of the original is not told: whether a failure
    // is the end of the directory.
    method GetNextEntries() returns (ok: bool, res2: int, atEnd: bool)
      requires Valid() && entries == []
      modifies `cookie, `eof, `entries, `replies, `open, srv`failures
      ensures srv.failures >= old(srv.failures) && (!ok && !atEnd ==> srv.failures > old(srv.failures))
      ensures if ok then Valid() && entries != [] && open == old(open) else !open
      ensures ok ==> Position(srv.dir, cookie) >= old(Position(srv.dir, cookie))
      ensures atEnd ==> !ok && Complete() && res2 == ERROR_NO_MORE_ENTRIES
      ensures !ok && old(eof) ==> atEnd
    {
      hide Position, Names, Visible, Concat;
      NamesNone(maxLen, pattern, hook);
      if eof {
        open := false;
        assert srv.dir[..|srv.dir|] == srv.dir;
        return false, ERROR_NO_MORE_ENTRIES, true;
      }
      var more, es := true, [];
      res2 := 0;
      while more
        invariant more ==> Valid() && entries == [] && !eof
        invariant !more && es != [] ==> Valid() && entries == es
        invariant !more && es == [] && eof ==> Valid() && entries == []
        invariant srv.failures >= old(srv.failures) && (!more && es == [] && !eof ==> srv.failures > old(srv.failures))
        invariant open == old(open) && Position(srv.dir, cookie) >= old(Position(srv.dir, cookie))
        decreases more, |srv.dir| - Position(srv.dir, cookie)
      {
        more, es, res2 := NextReply();
      }
      if es != [] {
        var memory := srv.Try();
        if memory {
          return true, res2, false;
        }
      }
      open := false;
      if es != [] {
        return false, ERROR_NO_FREE_STORE, false;
      }
      assert srv.dir[..|srv.dir|] == srv.dir;
      if eof || res2 > 1000 {
        return false, ERROR_NO_MORE_ENTRIES, eof;
      }
      return false, res2, false;
    }

    // One entry of the list (src/examine.c:797-873). `room` is false if its record
    // does not fit, `ok` if its attributes cannot be found.
    method OneEntry(left: int, type_: int) returns (ok: bool, room: bool, put: bool, size: int)
      requires Valid() && open && entries != []
      modifies `cookie, `entries, `emitted, `open, srv`failures
      ensures srv.failures >= old(srv.failures) && (!ok ==> srv.failures > old(srv.failures))
      ensures ok && room ==>
        && Valid() && open && Position(srv.dir, cookie) == old(Position(srv.dir, cookie)) + 1
        && emitted == old(emitted) + (if put then [Shown(old(entries[0].name), maxLen)] else [])
        && (put ==> size == EntrySize(old(entries[0].name), maxLen, type_) <= left)
      ensures ok && !room ==>
        && Valid() && open && entries == old(entries) && emitted == old(emitted)
        && left < EntrySize(entries[0].name, maxLen, type_)
      ensures !ok ==> !open && emitted == old(emitted)
    {
      hide Position, Visible, Concat, Names, GoodCookies, EntrySize, Shown;
      var anEntry := entries[0];
      ghost var p := Position(srv.dir, cookie);
      NamesHead(entries, maxLen, pattern, hook);
      assert anEntry == srv.dir[p] && entries[1..] == srv.dir[p + 1..p + |entries|];
      put, size := pattern(anEntry.name), 0;
      if put {
        if type_ > ED_NAME {
          var found := srv.Try();
          if !found {
            open := false;
            return false, true, false, 0;
          }
        }
        size := EntrySize(anEntry.name, maxLen, type_);
        if left < size {
          return true, false, false, 0;
        }
        put := hook(Shown(anEntry.name, maxLen));
      }
      PositionOf(srv.dir, p);
      cookie, entries := anEntry.cookie, entries[1..];
      if put {
        emitted := emitted + [Shown(anEntry.name, maxLen)];
      }
      return true, true, put, size;
    }

    ghost predicate Ended(end: Ending, res1: bool, res2: int, recs: seq<Record>, buf: int, size: nat, type_: int)
      reads this
    {
      match end
      case Full =>
        && Valid() && open && res1 && res2 == 0 && entries != []
        && buf + size - Top(recs, buf) < EntrySize(entries[0].name, maxLen, type_)
      case AtEnd => Complete() && !open && !res1 && res2 == ERROR_NO_MORE_ENTRIES
      case Failed => !open && !res1
    }

    // act_EXAMINE_ALL: fills the buffer until the next record does not fit, the
    // directory ends, or something fails.
    method ExamineAll(buf: int, size: nat, type_: int) returns (res1: bool, res2: int, recs: seq<Record>, end: Ending)
      requires Valid() && open
      modifies `cookie, `eof, `entries, `replies, `open, `emitted, srv`failures
      ensures srv.failures >= old(srv.failures) && (end == Failed ==> srv.failures > old(srv.failures))
      ensures type_ < ED_NAME || type_ > ED_OWNER || size < 8 ==>
        !res1 && res2 == ERROR_BAD_NUMBER && recs == [] && Valid() && open && emitted == old(emitted)
      ensures ED_NAME <= type_ <= ED_OWNER && size >= 8 ==>
        && Packed(recs, buf, buf + size, FixedSize(type_))
        && emitted == old(emitted) + RecordNames(recs)
        && Ended(end, res1, res2, recs, buf, size, type_)
    {
      hide Position, Names, Visible, Concat, Packed, Append, GoodCookies, RecordNames;
      recs, end, res1, res2 := [], Full, true, 0;
      if type_ < ED_NAME || type_ > ED_OWNER || size < 8 {
        return false, ERROR_BAD_NUMBER, recs, end;
      }
      var fixed := FixedSize(type_);
      PackedNone(buf, buf + size, fixed);
      var doContinue, left, at := true, size as int, buf;
      while doContinue
        invariant Packed(recs, buf, buf + size, fixed) && emitted == old(emitted) + RecordNames(recs)
        invariant at == Top(recs, buf) && at + left == buf + size
        invariant srv.failures >= old(srv.failures) && (!doContinue && end == Failed ==> srv.failures > old(srv.failures))
        invariant if doContinue then Valid() && open && res1 else Ended(end, res1, res2, recs, buf, size, type_)
        decreases doContinue, |srv.dir| - Position(srv.dir, cookie)
      {
        if entries == [] {
          var ok, atEnd;
          ok, res2, atEnd := GetNextEntries();
          if !ok {
            res1, doContinue, end := false, false, if atEnd then AtEnd else Failed;
          }
        }
        ghost var p, es := Position(srv.dir, cookie), entries;
        while doContinue && entries != []
          invariant doContinue ==> Position(srv.dir, cookie) > p || (Position(srv.dir, cookie) == p && entries == es)
          invariant Packed(recs, buf, buf + size, fixed) && emitted == old(emitted) + RecordNames(recs)
          invariant at == Top(recs, buf) && at + left == buf + size
          invariant srv.failures >= old(srv.failures) && (!doContinue && end == Failed ==> srv.failures > old(srv.failures))
          invariant if doContinue then Valid() && open && res1 else Ended(end, res1, res2, recs, buf, size, type_)
          decreases doContinue, |entries|
        {
          var name := entries[0].name;
          var ok, room, put, entrySize := OneEntry(left, type_);
          if !ok {
            res1, doContinue, end := false, false, Failed;
          } else if !room {
            res2, doContinue, end := 0, false, Full;
          } else if put {
            var r := Record(at, entrySize, Shown(name, maxLen), 0);
            AppendPacked(recs, buf, buf + size, fixed, r);
            recs := Append(recs, r);
            left, at := left - entrySize, at + entrySize;
          }
        }
      }
    }
  }

  lemma PackedNone(buf: int, end: int, fixed: nat)
    requires buf <= end
    ensures Packed([], buf, end, fixed) && RecordNames([]) == []
  {
  }

  lemma NamesNone(maxLen: nat, pattern: Filter, hook: Filter)
    ensures Names([], maxLen, pattern, hook) == []
  {
  }

  // One call of ExAll: where the buffer is, its size, and the type of records
  datatype Call = Call(buf: int, size: nat, type_: int)

  // A whole scan over any calls, up to the first that does not ask to be called
  // again. At the end of the directory the records of all buffers together name
  // every visible entry that passes the filters, once, in the server's order.
  method ScanAll(srv: DirServer, maxLen: nat, pattern: Filter, hook: Filter, calls: seq<Call>)
    returns (names: seq<string>, end: Ending, ghost replies: seq<seq<DirEntry>>)
    requires GoodCookies(srv.dir)
    requires forall i :: 0 <= i < |calls| ==> ED_NAME <= calls[i].type_ <= ED_OWNER && calls[i].size >= 8
    modifies srv`failures
    ensures end == Failed ==> srv.failures > old(srv.failures)
    ensures end == AtEnd ==> Concat(replies) == srv.dir && names == Names(Visible(replies, maxLen), maxLen, pattern, hook)
    ensures end == Full ==> exists rest :: names + rest == Names(Visible(replies, maxLen), maxLen, pattern, hook)
  {
    hide Names, Visible, Concat, Packed, GoodCookies;
    var scan := new Scan(srv, maxLen, pattern, hook);
    var i := 0;
    names, end := [], Full;
    while i < |calls| && scan.open
      invariant 0 <= i <= |calls| && names == scan.emitted && scan.srv == srv && scan.maxLen == maxLen
      invariant scan.pattern == pattern && scan.hook == hook && fresh(scan)
      invariant match end
        case Full => scan.Valid() && scan.open
        case AtEnd => scan.Complete() && !scan.open
        case Failed => !scan.open && srv.failures > old(srv.failures)
      invariant srv.failures >= old(srv.failures)
    {
      var res1, res2, recs;
      res1, res2, recs, end := scan.ExamineAll(calls[i].buf, calls[i].size, calls[i].type_);
      names := names + RecordNames(recs);
      i := i + 1;
    }
    replies := scan.replies;
  }
}
