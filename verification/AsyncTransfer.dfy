// The asynchronous transfer loops of src/nfs.c: a window of requests under way
// over the RPC client and the lossy network.
module AsyncTransfer {
  import opened ServerFile
  import opened RpcSlots
  import opened LossyNetwork
  import opened RpcClient
  import opened NfsTransfer

  const PROC_READ := 6
  const PROC_WRITE := 8

  // ---- The requests of a write ----------------------------------------------------

  // What nfs_MWrite and nfs_MAWrite send, in this order.
  function Pieces(offset: nat, buf: seq<Byte>, maxWrite: nat): seq<Request>
    requires maxWrite > 0
    decreases |buf|
  {
    if buf == [] then []
    else
      var len := if |buf| < maxWrite then |buf| else maxWrite;
      [WriteReq(offset, buf[..len])] + Pieces(offset + len, buf[len..], maxWrite)
  }

  lemma PiecesEmpty(offset: nat, buf: seq<Byte>, maxWrite: nat)
    requires maxWrite > 0
    ensures Pieces(offset, buf, maxWrite) == [] <==> buf == []
  {
  }

  function Joined(reqs: seq<Request>): seq<Byte>
    requires forall r :: r in reqs ==> r.WriteReq?
  {
    if reqs == [] then [] else reqs[0].data + Joined(reqs[1..])
  }

  // The requests are non-empty, of at most maxWrite bytes, and consecutive.
  lemma {:induction false} PiecesAreConsecutive(offset: nat, buf: seq<Byte>, maxWrite: nat)
    requires maxWrite > 0
    ensures var p := Pieces(offset, buf, maxWrite);
      && (forall i :: 0 <= i < |p| ==> p[i].WriteReq? && 0 < |p[i].data| <= maxWrite)
      && (forall i :: 0 < i < |p| ==> p[i].offset == End(p[i - 1]))
      && (p != [] ==> p[0].offset == offset && End(p[|p| - 1]) == offset + |buf|)
    decreases |buf|
  {
    if buf != [] {
      var len := if |buf| < maxWrite then |buf| else maxWrite;
      PiecesAreConsecutive(offset + len, buf[len..], maxWrite);
      var p, q := Pieces(offset, buf, maxWrite), Pieces(offset + len, buf[len..], maxWrite);
      assert p == [WriteReq(offset, buf[..len])] + q;
      forall i | 0 < i < |p| ensures p[i] == q[i - 1] && p[i].offset == End(p[i - 1]) {
        if i > 1 { assert p[i - 1] == q[i - 2]; }
      }
    }
  }

  // Together they carry exactly the buffer.
  lemma {:induction false} PiecesCover(offset: nat, buf: seq<Byte>, maxWrite: nat)
    requires maxWrite > 0
    ensures forall r :: r in Pieces(offset, buf, maxWrite) ==> r.WriteReq?
    ensures Joined(Pieces(offset, buf, maxWrite)) == buf
    decreases |buf|
  {
    if buf != [] {
      var len := if |buf| < maxWrite then |buf| else maxWrite;
      PiecesCover(offset + len, buf[len..], maxWrite);
      assert Pieces(offset, buf, maxWrite)[1..] == Pieces(offset + len, buf[len..], maxWrite);
      assert buf[..len] + buf[len..] == buf;
    }
  }

  // r stores a part of the range that storing buf at offset covers.
  ghost predicate PartOf(r: Request, offset: nat, buf: seq<Byte>) {
    r.WriteReq? && offset <= r.offset && r.offset + |r.data| <= offset + |buf|
    && r.data == buf[r.offset - offset..r.offset - offset + |r.data|]
  }

  lemma PartShift(r: Request, offset: nat, buf: seq<Byte>, len: nat)
    requires len <= |buf| && PartOf(r, offset + len, buf[len..])
    ensures PartOf(r, offset, buf)
  {
  }

  lemma {:induction false} PiecesAreParts(offset: nat, buf: seq<Byte>, maxWrite: nat)
    requires maxWrite > 0
    ensures forall r :: r in Pieces(offset, buf, maxWrite) ==> PartOf(r, offset, buf)
    decreases |buf|
  {
    if buf != [] {
      var len := if |buf| < maxWrite then |buf| else maxWrite;
      PiecesAreParts(offset + len, buf[len..], maxWrite);
      forall r | r in Pieces(offset + len, buf[len..], maxWrite) ensures PartOf(r, offset, buf) {
        PartShift(r, offset, buf, len);
      }
    }
  }

  // Once every piece shows in the file, the whole write does.
  lemma {:induction false} PiecesSettle(f: seq<Byte>, offset: nat, buf: seq<Byte>, maxWrite: nat)
    requires maxWrite > 0
    requires forall r :: r in Pieces(offset, buf, maxWrite) ==> Effect(f, r) == f
    ensures WriteAt(f, offset, buf) == f
    decreases |buf|
  {
    hide WriteAt;
    if buf == [] {
      WriteNothing(f, offset);
    } else {
      var len := if |buf| < maxWrite then |buf| else maxWrite;
      var p := Pieces(offset, buf, maxWrite);
      assert p[0] in p && Effect(f, p[0]) == WriteAt(f, offset, buf[..len]);
      WriteSplit(f, offset, buf[..len], buf[len..]);
      assert buf[..len] + buf[len..] == buf;
      PiecesSettle(f, offset + len, buf[len..], maxWrite);
    }
  }

  // ---- Any order, any number of times -----------------------------------------------

  // A part of a write shows once the write does.
  lemma PartShows(f: seq<Byte>, r: Request, offset: nat, buf: seq<Byte>)
    requires PartOf(r, offset, buf)
    ensures Effect(WriteAt(f, offset, buf), r) == WriteAt(f, offset, buf)
  {
    hide WriteAt;
    SameFile(Effect(WriteAt(f, offset, buf), r), WriteAt(f, offset, buf));
  }

  // On the way from f0 to g: every byte is an old or a new one.
  ghost predicate Between(f0: seq<Byte>, f: seq<Byte>, g: seq<Byte>) {
    |f0| <= |f| <= |g| && forall i :: At(f, i) == At(f0, i) || At(f, i) == At(g, i)
  }

  // Requests that show in g do not leave the way to g, nor undo each other.
  lemma EffectBetween(f0: seq<Byte>, f: seq<Byte>, g: seq<Byte>, r: Request)
    requires Between(f0, f, g) && Effect(g, r) == g
    ensures Between(f0, Effect(f, r), g)
  {
  }

  lemma EffectsAgree(f: seq<Byte>, g: seq<Byte>, r: Request, q: Request)
    requires Effect(g, r) == g && Effect(g, q) == g && (q == r || Effect(f, q) == f)
    ensures Effect(Effect(f, r), q) == Effect(f, r)
  {
    hide WriteAt, At;
    if r.WriteReq? && q.WriteReq? {
      var e := Effect(f, r);
      var h := Effect(e, q);
      assert |h| == |e|;
      forall i ensures At(h, i) == At(e, i) {
        if q.offset <= i < q.offset + |q.data| {
          assert At(Effect(f, q), i) == q.data[i - q.offset] == At(h, i) == At(Effect(g, q), i);
          if r.offset <= i < r.offset + |r.data| {
            assert At(e, i) == r.data[i - r.offset] == At(Effect(g, r), i);
          } else {
            assert At(e, i) == At(f, i);
          }
        }
      }
      SameFile(h, e);
    }
  }

  // The state of a transfer from f0 to g: all requests under way, also those of
  // earlier transfers, show in g; of the messages from `base` on those that were
  // carried out show in f.
  ghost predicate Partial(f0: seq<Byte>, f: seq<Byte>, g: seq<Byte>, base: nat,
                          messages: map<nat, Request>, executed: set<nat>)
  {
    && Between(f0, f, g) && AllSettled(g, messages)
    && (forall k :: k in executed && base <= k ==> k in messages && Effect(f, messages[k]) == f)
  }

  lemma {:induction false} CarryPartial(f0: seq<Byte>, f: seq<Byte>, g: seq<Byte>, base: nat,
                                        messages: map<nat, Request>, executed: set<nat>, es: seq<nat>)
    requires Partial(f0, f, g, base, messages, executed)
    requires forall e :: e in es ==> e in messages
    ensures Partial(f0, Carry(f, messages, es), g, base, messages, executed + set e | e in es)
  {
    hide Effect, Between;
    if es != [] {
      var init, k := es[..|es| - 1], es[|es| - 1];
      CarryPartial(f0, f, g, base, messages, executed, init);
      var h := Carry(f, messages, init);
      EffectBetween(f0, h, g, messages[k]);
      forall q | q in executed + (set e | e in es) && base <= q
        ensures q in messages && Effect(Effect(h, messages[k]), messages[q]) == Effect(h, messages[k])
      {
        assert q == k || q in executed + (set e | e in init);
        EffectsAgree(h, g, messages[k], messages[q]);
      }
    } else {
      assert executed + (set e | e in es) == executed;
    }
  }

  // ---- Sending and waiting ----------------------------------------------------------

  // nfsproc_send_writesb_2 and nfsproc_send_read_buf
  method SendRequest(c: Client, net: Network, proc: int, request: Request, results: int, userdata: int) returns (ok: bool)
    requires c.Valid() && Inv(c.view) && net.Valid() && Linked(c.view, net)
    modifies c, c.slots, net`xids, net`messages, net`floors, net`troubles, net`unsent
    ensures c.Valid() && c.slots == old(c.slots)
    ensures Inv(c.view) && net.Valid() && Linked(c.view, net)
    ensures net.floors == old(net.floors) || net.floors == old(net.floors) + [|net.file|]
    ensures ok ==>
      && c.view.sends == old(c.view.sends) + [Sent(c.xid, results, userdata)]
      && c.numFree == old(c.numFree) - 1
      && (forall j :: Live(c.view, j) <==> Live(old(c.view), j) || j == |old(c.view.sends)|)
      && net.messages == old(net.messages)[|old(c.view.sends)| := request]
      && c.proc == proc && net.troubles == old(net.troubles) && net.unsent == old(net.unsent)
    ensures !ok ==> net.unsent > old(net.unsent) || c.numFree == 0 || (c.numFree < c.slots.Length && old(c.proc) != proc)
    ensures net.troubles >= old(net.troubles) && (net.unsent > old(net.unsent) ==> net.troubles > old(net.troubles))
    ensures !ok ==>
      && c.numFree == old(c.numFree)
      && (forall j :: Live(c.view, j) <==> Live(old(c.view), j))
      && (net.messages == old(net.messages) || net.messages == old(net.messages)[|old(c.view.sends)| := request])
  {
    hide Live;
    var fate := net.Fare();
    CountBounds(c.view.slots);
    SendWaits(c.view, proc, results, userdata, fate);
    SendKeeps(c.view, proc, results, userdata, fate);
    var out := c.SendSb(proc, results, userdata, fate);
    if out.Refused? {
      return false;
    }
    var lost := *;
    net.Transmit(c.xid, request, !out.Accepted? && (fate.CantEncode? || lost));
    return out.Accepted?;
  }

  // ---- nfs_MAWrite --------------------------------------------------------------------

  // The first `sent` of the requests, with the numbers from base on, were sent;
  // each is awaited or was carried out and counted into size. Messages before
  // base belong to earlier transfers.
  ghost predicate Window(view: State, base: nat, reqs: seq<Request>, sent: nat,
                         messages: map<nat, Request>, executed: set<nat>, floor: nat, size: nat)
  {
    && |view.owner| == |view.slots|
    && |view.sends| == base + sent && sent <= |reqs|
    && (forall k :: k in messages ==> k < base + sent)
    && (forall k: nat :: base <= k < base + sent ==> k in messages && messages[k] == reqs[k - base])
    && (forall k: nat :: Live(view, k) ==> base <= k < base + sent)
    && (forall k: nat :: base <= k < base + sent ==> Live(view, k) || Done(k, messages[k], executed, floor, size))
  }

  ghost predicate Done(k: nat, r: Request, executed: set<nat>, floor: nat, size: nat) {
    k in executed && floor <= size && End(r) <= size
  }

  lemma LiveInWindow(view: State, k: nat, base: nat, reqs: seq<Request>, sent: nat,
                     messages: map<nat, Request>, executed: set<nat>, floor: nat, size: nat)
    requires Window(view, base, reqs, sent, messages, executed, floor, size) && Live(view, k)
    ensures base <= k && k in messages
  {
  }

  lemma WindowAfterWait(prev: State, view: State, k: nat, base: nat, reqs: seq<Request>, sent: nat,
                        messages: map<nat, Request>, e0: set<nat>, e1: set<nat>, floor: nat, size0: nat, size: nat)
    requires Window(prev, base, reqs, sent, messages, e0, floor, size0)
    requires Completed(prev, view, k) && Live(prev, k) && e0 <= e1 && size0 <= size
    requires k in messages ==> Done(k, messages[k], e1, floor, size)
    ensures Window(view, base, reqs, sent, messages, e1, floor, size)
  {
  }

  lemma WindowAfterSend(prev: State, view: State, base: nat, reqs: seq<Request>, sent: nat,
                        messages: map<nat, Request>, executed: set<nat>, floor: nat, size: nat)
    requires Window(prev, base, reqs, sent, messages, executed, floor, size)
    requires |view.owner| == |view.slots| && sent < |reqs| && |view.sends| == |prev.sends| + 1
    requires forall j :: Live(view, j) <==> Live(prev, j) || j == |prev.sends|
    ensures Window(view, base, reqs, sent + 1, messages[|prev.sends| := reqs[sent]], executed, floor, size)
  {
  }

  lemma PartialAfterSend(f0: seq<Byte>, f: seq<Byte>, g: seq<Byte>, base: nat,
                         messages: map<nat, Request>, executed: set<nat>, k: nat, r: Request)
    requires Partial(f0, f, g, base, messages, executed) && k !in messages && Effect(g, r) == g
    ensures Partial(f0, f, g, base, messages[k := r], executed)
  {
  }

  // One call of nfs_MAWrite: the file and the requests before it, and what it writes.
  datatype Job = Job(f0: seq<Byte>, before: map<nat, Request>, base: nat, offset: nat, buf: seq<Byte>, maxWrite: nat) {
    ghost function Goal(): seq<Byte> { WriteAt(f0, offset, buf) }

    ghost function Reqs(): seq<Request>
      requires maxWrite > 0
    {
      Pieces(offset, buf, maxWrite)
    }
  }

  // Every request under way is one of before or a part of this write.
  ghost predicate Added(before: map<nat, Request>, messages: map<nat, Request>, offset: nat, buf: seq<Byte>) {
    forall k :: k in messages ==> (k in before && before[k] == messages[k]) || PartOf(messages[k], offset, buf)
  }

  // What holds all the time, whatever happens
  ghost predicate OnTheWay(job: Job, f: seq<Byte>, messages: map<nat, Request>) {
    && Between(job.f0, f, job.Goal())
    && AllSettled(job.Goal(), messages)
    && Added(job.before, messages, job.offset, job.buf)
  }

  // What holds between two rounds of the loop
  ghost predicate Progress(job: Job, view: State, net: Network, sent: nat, size: nat)
    requires job.maxWrite > 0
    reads net
  {
    && Window(view, job.base, job.Reqs(), sent, net.messages, net.executed, |job.f0|, size)
    && Partial(job.f0, net.file, job.Goal(), job.base, net.messages, net.executed)
    && Added(job.before, net.messages, job.offset, job.buf)
    && net.Above(job.base, |job.f0|) && size <= |net.file|
  }

  lemma ProgressMeans(job: Job, view: State, net: Network, sent: nat, size: nat)
    requires job.maxWrite > 0 && Progress(job, view, net, sent, size)
    ensures OnTheWay(job, net.file, net.messages)
    ensures |view.sends| == job.base + sent && sent <= |job.Reqs()| && size <= |net.file|
  {
  }

  // A wait went on for as long as the client has patience.
  ghost predicate Endless(c: Client, net: Network, before: nat)
    reads net
  {
    |net.arrivals| >= before + c.patience
  }

  // nfsproc_wait_write_2 and the checks of its result (src/nfs.c:638-655)
  method WaitWrite(c: Client, net: Network, fileLen: nat, ghost job: Job, ghost sent: nat) returns (ok: bool, size: nat)
    requires c.Valid() && Inv(c.view) && |c.view.sends| <= 0x1_0000
    requires net.Valid() && Linked(c.view, net)
    requires job.maxWrite > 0 && Progress(job, c.view, net, sent, fileLen)
    modifies c.slots, c`view, c`numFree, net`file, net`executed, net`answers, net`troubles, net`unsent, net`arrivals
    ensures c.Valid() && Inv(c.view) && net.Valid() && Linked(c.view, net)
    ensures OnTheWay(job, net.file, net.messages)
    ensures ok ==> c.numFree == old(c.numFree) + 1 && Progress(job, c.view, net, sent, size)
    ensures !ok ==> c.numFree == c.slots.Length && (net.troubles > old(net.troubles) || Endless(c, net, |old(net.arrivals)|))
    ensures ok ==> net.unsent == old(net.unsent)
    ensures net.troubles >= old(net.troubles) && old(net.arrivals) <= net.arrivals
  {
    hide Inv, Window, Partial, Live, Carry, SameWaits, AllSettled, Between, WriteAt, Added, Pieces;
    var out;
    ghost var k, es, came;
    ghost var v0, e0 := c.view, net.executed;
    out, k, es, came := c.Wait(net);
    CarryPartial(job.f0, old(net.file), job.Goal(), job.base, net.messages, e0, es);
    PartialMeans(job.f0, net.file, job.Goal(), job.base, net.messages, net.executed);
    if out.Failure? || !out.answer.ok {
      AbortKeeps(c.view);
      c.AbortAll();
      return false, 0;
    }
    size := if out.answer.size > fileLen then out.answer.size else fileLen;
    LiveInWindow(v0, k, job.base, job.Reqs(), sent, net.messages, e0, |job.f0|, fileLen);
    assert net.Credible((k, out.answer.size));
    WindowAfterWait(v0, c.view, k, job.base, job.Reqs(), sent, net.messages, e0, net.executed, |job.f0|, fileLen, size);
    return true, size;
  }

  // One request of the loop (src/nfs.c:685-707)
  method SendWrite(c: Client, net: Network, offset: nat, buf: seq<Byte>, done: nat, maxWrite: nat,
                   ghost fileLen: nat, ghost job: Job, ghost sent: nat)
    returns (ok: bool, len: nat)
    requires c.Valid() && Inv(c.view) && net.Valid() && Linked(c.view, net)
    requires done < |buf| && maxWrite > 0 && (job.offset, job.buf, job.maxWrite) == (offset, buf, maxWrite)
    requires sent < |job.Reqs()| && job.Reqs()[sent..] == Pieces(offset + done, buf[done..], maxWrite)
    requires Progress(job, c.view, net, sent, fileLen)
    modifies c, c.slots, net`xids, net`messages, net`floors, net`troubles, net`unsent
    ensures c.Valid() && c.slots == old(c.slots) && Inv(c.view) && net.Valid() && Linked(c.view, net)
    ensures OnTheWay(job, net.file, net.messages)
    ensures ok ==>
      && 0 < len && done + len <= |buf| && c.numFree == old(c.numFree) - 1
      && job.Reqs()[sent + 1..] == Pieces(offset + (done + len), buf[done + len..], maxWrite)
      && Progress(job, c.view, net, sent + 1, fileLen)
      && c.proc == PROC_WRITE && net.troubles == old(net.troubles) && net.unsent == old(net.unsent)
    ensures !ok ==> c.numFree == old(c.numFree)
    ensures !ok ==> net.unsent > old(net.unsent) || c.numFree == 0 || (c.numFree < c.slots.Length && old(c.proc) != PROC_WRITE)
    ensures net.troubles >= old(net.troubles) && (net.unsent > old(net.unsent) ==> net.troubles > old(net.troubles))
  {
    hide Inv, Progress, Window, Partial, Live, OnTheWay, Added, Job.Reqs, Job.Goal, WriteAt, Linked, Pieces;
    len := if |buf| - done < maxWrite then |buf| - done else maxWrite;
    NextPiece(offset + done, buf, done, maxWrite);
    assert job.Reqs()[sent] == job.Reqs()[sent..][0] && job.Reqs()[sent + 1..] == job.Reqs()[sent..][1..];
    ghost var v0, m0 := c.view, net.messages;
    BeforeSend(job, v0, net, sent, fileLen);
    ok := SendRequest(c, net, PROC_WRITE, WriteReq(offset + done, buf[done..done + len]), 0, 0);
    if ok {
      AfterSend(job, v0, m0, c.view, net, sent, fileLen);
    }
  }

  lemma NextPiece(offset: nat, buf: seq<Byte>, done: nat, maxWrite: nat)
    requires done < |buf| && maxWrite > 0
    ensures var len := if |buf| - done < maxWrite then |buf| - done else maxWrite;
      Pieces(offset, buf[done..], maxWrite) == [WriteReq(offset, buf[done..done + len])] + Pieces(offset + len, buf[done + len..], maxWrite)
  {
    var len := if |buf| - done < maxWrite then |buf| - done else maxWrite;
    assert buf[done..][..len] == buf[done..done + len] && buf[done..][len..] == buf[done + len..];
  }

  // Sending the next request does not leave the way.
  lemma BeforeSend(job: Job, view: State, net: Network, sent: nat, size: nat)
    requires job.maxWrite > 0 && Progress(job, view, net, sent, size) && sent < |job.Reqs()|
    ensures |view.sends| == job.base + sent && |job.f0| <= |net.file| && net.Above(job.base, |job.f0|) && size <= |net.file|
    ensures Window(view, job.base, job.Reqs(), sent, net.messages, net.executed, |job.f0|, size)
    ensures OnTheWay(job, net.file, net.messages)
    ensures var m := net.messages[|view.sends| := job.Reqs()[sent]];
      && Partial(job.f0, net.file, job.Goal(), job.base, m, net.executed)
      && Added(job.before, m, job.offset, job.buf) && OnTheWay(job, net.file, m)
  {
    hide Live, Effect, PartOf, AllSettled, Between, WriteAt, Added, Pieces;
    var k, r := |view.sends|, job.Reqs()[sent];
    NotYetSent(view, job.base, job.Reqs(), sent, net.messages, net.executed, |job.f0|, size);
    PiecesShow(job.f0, job.offset, job.buf, job.maxWrite);
    PartialAfterSend(job.f0, net.file, job.Goal(), job.base, net.messages, net.executed, k, r);
    AddedAfterSend(job.before, net.messages, job.offset, job.buf, k, r);
    PartialMeans(job.f0, net.file, job.Goal(), job.base, net.messages, net.executed);
    PartialMeans(job.f0, net.file, job.Goal(), job.base, net.messages[k := r], net.executed);
  }

  lemma AfterSend(job: Job, prev: State, messages: map<nat, Request>, view: State, net: Network, sent: nat, size: nat)
    requires job.maxWrite > 0 && sent < |job.Reqs()| && |view.owner| == |view.slots|
    requires Window(prev, job.base, job.Reqs(), sent, messages, net.executed, |job.f0|, size)
    requires |view.sends| == |prev.sends| + 1
    requires forall j :: Live(view, j) <==> Live(prev, j) || j == |prev.sends|
    requires net.messages == messages[|prev.sends| := job.Reqs()[sent]]
    requires Partial(job.f0, net.file, job.Goal(), job.base, net.messages, net.executed)
    requires Added(job.before, net.messages, job.offset, job.buf)
    requires net.Above(job.base, |job.f0|) && size <= |net.file|
    ensures Progress(job, view, net, sent + 1, size)
  {
    hide Live, Partial, Added, Pieces;
    WindowAfterSend(prev, view, job.base, job.Reqs(), sent, messages, net.executed, |job.f0|, size);
  }

  lemma NotYetSent(view: State, base: nat, reqs: seq<Request>, sent: nat,
                   messages: map<nat, Request>, executed: set<nat>, floor: nat, size: nat)
    requires Window(view, base, reqs, sent, messages, executed, floor, size)
    ensures |view.sends| !in messages && |view.sends| == base + sent
  {
  }

  // When all requests were sent and nothing is awaited, the write is complete
  // and the largest size reported is the size of the file.
  lemma WindowClosed(view: State, f0: seq<Byte>, f: seq<Byte>, offset: nat, buf: seq<Byte>, maxWrite: nat, base: nat,
                     reqs: seq<Request>, messages: map<nat, Request>, executed: set<nat>, size: nat)
    requires maxWrite > 0 && reqs == Pieces(offset, buf, maxWrite)
    requires Window(view, base, reqs, |reqs|, messages, executed, |f0|, size)
    requires Partial(f0, f, WriteAt(f0, offset, buf), base, messages, executed)
    requires size <= |f| && forall k :: !Live(view, k)
    ensures f == WriteAt(f0, offset, buf)
    ensures buf != [] ==> size == |f|
  {
    hide Live, WriteAt, AllSettled, Between, Effect;
    forall r | r in reqs ensures Effect(f, r) == f && |f0| <= size && End(r) <= size {
      var i :| 0 <= i < |reqs| && reqs[i] == r;
      var k := base + i;
      assert base <= k < base + |reqs| && reqs[k - base] == r && !Live(view, k);
    }
    PiecesSettle(f, offset, buf, maxWrite);
    ShownIsDone(f0, f, offset, buf);
    if buf != [] {
      PiecesAreConsecutive(offset, buf, maxWrite);
      assert reqs[|reqs| - 1] in reqs;
    }
  }

  lemma ShownIsDone(f0: seq<Byte>, f: seq<Byte>, offset: nat, buf: seq<Byte>)
    requires Between(f0, f, WriteAt(f0, offset, buf)) && WriteAt(f, offset, buf) == f
    ensures f == WriteAt(f0, offset, buf)
  {
  }

  // nfs_MAWrite. Whatever the network does, a success means the same as one of
  // nfs_MWrite; all slots are free again, except after a failed send, when the
  // `pending` requests stay under way (src/nfs.c:698-703). Requests of earlier
  // transfers may still be under way, as long as the file that is to result
  // shows them; after a success all requests show in it.
  method MAWrite(c: Client, net: Network, offset: nat, buf: seq<Byte>, maxWriteSize: nat, numRPCs: nat)
    returns (res: int, fileLen: nat, ghost pending: nat, ghost most: nat)
    requires c.Valid() && Inv(c.view) && c.numFree == c.slots.Length
    requires net.Valid() && Linked(c.view, net)
    requires AllSettled(WriteAt(net.file, offset, buf), net.messages)
    requires maxWriteSize > 0 && numRPCs > 0
    requires |c.view.sends| + |Pieces(offset, buf, MaxTransfer(maxWriteSize))| <= 0x1_0000
    modifies c, c.slots, net
    ensures c.Valid() && c.slots == old(c.slots) && Inv(c.view) && net.Valid() && Linked(c.view, net)
    ensures res == |buf| || res == -1
    ensures OnTheWay(Job(old(net.file), old(net.messages), |old(c.view.sends)|, offset, buf, MaxTransfer(maxWriteSize)), net.file, net.messages)
    ensures res >= 0 ==> net.file == WriteAt(old(net.file), offset, buf) && pending == 0
    ensures res >= 0 ==> fileLen == if buf == [] then 0 else |net.file|
    ensures res >= 0 ==> |c.view.sends| == |old(c.view.sends)| + |Pieces(offset, buf, MaxTransfer(maxWriteSize))|
    ensures c.slots.Length - c.numFree == pending <= most <= numRPCs
    ensures net.troubles >= old(net.troubles)
    ensures old(net.arrivals) <= net.arrivals
    ensures numRPCs <= c.slots.Length && net.troubles == old(net.troubles) ==> res == |buf| || Endless(c, net, |old(net.arrivals)|)
    ensures numRPCs <= c.slots.Length && net.unsent == old(net.unsent) ==> pending == 0
  {
    hide Inv, Progress, Live, OnTheWay, Pieces, WriteAt, AllSettled, Linked;
    var maxWrite := MaxTransfer(maxWriteSize);
    ghost var job := Job(net.file, net.messages, |c.view.sends|, offset, buf, maxWrite);
    ghost var sent: nat := 0;
    var numPending: nat, done: nat := 0, 0;
    fileLen, most := 0, 0;
    assert buf[0..] == buf && job.Reqs()[0..] == job.Reqs();
    JobStart(job, c.view, net);
    while done < |buf| || numPending > 0
      invariant done <= |buf| && numPending <= most <= numRPCs
      invariant c.Valid() && c.slots == old(c.slots) && Inv(c.view) && net.Valid() && Linked(c.view, net)
      invariant numPending == c.slots.Length - c.numFree && (numPending > 0 ==> c.proc == PROC_WRITE)
      invariant net.troubles >= old(net.troubles) && net.unsent == old(net.unsent) && old(net.arrivals) <= net.arrivals
      invariant Progress(job, c.view, net, sent, fileLen) && (buf == [] ==> fileLen == 0)
      invariant sent <= |job.Reqs()| && job.Reqs()[sent..] == Pieces(offset + done, buf[done..], maxWrite)
      decreases |buf| - done, numPending
    {
      ProgressMeans(job, c.view, net, sent, fileLen);
      PiecesEmpty(offset + done, buf[done..], maxWrite);
      var ok;
      if numPending >= numRPCs || (done == |buf| && numPending > 0) {
        ok, fileLen := WaitWrite(c, net, fileLen, job, sent);
        if !ok {
          return -1, 0, 0, most;
        }
        numPending := numPending - 1;
      }
      if done < |buf| {
        var len;
        ok, len := SendWrite(c, net, offset, buf, done, maxWrite, fileLen, job, sent);
        if !ok {
          return -1, 0, numPending, most;
        }
        numPending, done, sent := numPending + 1, done + len, sent + 1;
        if most < numPending { most := numPending; }
      }
    }
    AllFree(c.view);
    PiecesEmpty(offset + done, buf[done..], maxWrite);
    JobDone(job, c.view, net, sent, fileLen);
    return |buf|, fileLen, 0, most;
  }

  lemma JobStart(job: Job, view: State, net: Network)
    requires job.maxWrite > 0 && (job.f0, job.before, job.base) == (net.file, net.messages, |view.sends|)
    requires Inv(view) && view.numFree == |view.slots| && net.Valid() && Linked(view, net)
    requires AllSettled(job.Goal(), net.messages)
    ensures Progress(job, view, net, 0, 0)
  {
    hide WriteAt, Pieces, AllSettled;
    AllFree(view);
  }

  lemma JobDone(job: Job, view: State, net: Network, sent: nat, size: nat)
    requires job.maxWrite > 0 && Progress(job, view, net, sent, size)
    requires sent == |job.Reqs()| && (forall k :: !Live(view, k)) && (job.buf == [] ==> size == 0)
    ensures OnTheWay(job, net.file, net.messages) && net.file == job.Goal()
    ensures |view.sends| == job.base + |job.Reqs()| && size == if job.buf == [] then 0 else |net.file|
  {
    hide WriteAt, Pieces, AllSettled, Live, Window;
    ProgressMeans(job, view, net, sent, size);
    WindowClosed(view, job.f0, net.file, job.offset, job.buf, job.maxWrite, job.base, job.Reqs(), net.messages, net.executed, size);
  }

  lemma AddedAfterSend(before: map<nat, Request>, messages: map<nat, Request>, offset: nat, buf: seq<Byte>, k: nat, r: Request)
    requires Added(before, messages, offset, buf) && PartOf(r, offset, buf)
    ensures Added(before, messages[k := r], offset, buf)
  {
  }

  lemma PiecesShow(f0: seq<Byte>, offset: nat, buf: seq<Byte>, maxWrite: nat)
    requires maxWrite > 0
    ensures forall r :: r in Pieces(offset, buf, maxWrite) ==>
      PartOf(r, offset, buf) && Effect(WriteAt(f0, offset, buf), r) == WriteAt(f0, offset, buf)
  {
    hide WriteAt, Effect, Pieces, PartOf;
    PiecesAreParts(offset, buf, maxWrite);
    forall r | r in Pieces(offset, buf, maxWrite) ensures Effect(WriteAt(f0, offset, buf), r) == WriteAt(f0, offset, buf) {
      PartShows(f0, r, offset, buf);
    }
  }

  lemma PartialMeans(f0: seq<Byte>, f: seq<Byte>, g: seq<Byte>, base: nat, messages: map<nat, Request>, executed: set<nat>)
    requires Partial(f0, f, g, base, messages, executed)
    ensures Between(f0, f, g) && AllSettled(g, messages) && |f0| <= |f|
  {
  }

  // A send that fails inside the window leaves the earlier request in slot 0,
  // and the next synchronous call then breaks the bookkeeping.
  lemma FailedSendLeavesSlots(s: State, results: int)
    requires Inv(s) && s.numFree == |s.slots| > 1 && |s.sends| + 2 < 0x1_0000
    ensures var t := SendStep(SendStep(s, PROC_WRITE, results, 0, Gone).0, PROC_WRITE, results, 0, CantSend).0;
      t.numFree == |t.slots| - 1 && t.slots[0].inuse && !Inv(CallStep(t, results))
  {
    hide Nth, Bump;
    CountBounds(s.slots);
    var u := SendStep(s, PROC_WRITE, results, 0, Gone).0;
    SendKeeps(s, PROC_WRITE, results, 0, Gone);
    SendKeeps(u, PROC_WRITE, results, 0, CantSend);
    CountBounds(u.slots);
    CallKeeps(SendStep(u, PROC_WRITE, results, 0, CantSend).0, results);
  }

  // ---- nfs_MARead -----------------------------------------------------------------------

  const RNUMASYNC := 5

  // struct rargsent
  datatype ReadEntry = ReadEntry(used: bool, offset: nat, count: nat)

  function CountUsed(rhs: seq<ReadEntry>): nat {
    if rhs == [] then 0 else (if rhs[0].used then 1 else 0) + CountUsed(rhs[1..])
  }

  lemma {:induction false} CountUsedUpdate(rhs: seq<ReadEntry>, i: nat, e: ReadEntry)
    requires i < |rhs|
    ensures CountUsed(rhs[i := e]) == CountUsed(rhs) + (if e.used then 1 else 0) - (if rhs[i].used then 1 else 0)
  {
    if i > 0 {
      assert rhs[i := e][1..] == rhs[1..][i - 1 := e];
      CountUsedUpdate(rhs[1..], i - 1, e);
    }
  }

  lemma {:induction false} SomeEntryFree(rhs: seq<ReadEntry>) returns (i: nat)
    requires CountUsed(rhs) < |rhs|
    ensures i < |rhs| && !rhs[i].used
  {
    if !rhs[0].used {
      i := 0;
    } else {
      i := SomeEntryFree(rhs[1..]);
      i := i + 1;
    }
  }

  lemma {:induction false} NoneUsed(rhs: seq<ReadEntry>)
    requires forall i :: 0 <= i < |rhs| ==> !rhs[i].used
    ensures CountUsed(rhs) == 0
  {
    if rhs != [] {
      NoneUsed(rhs[1..]);
    }
  }

  // The user data of every awaited request is the index of a used entry of its own.
  ghost predicate Entries(view: State, rhs: seq<ReadEntry>) {
    && |view.slots| == |view.owner| && |rhs| == RNUMASYNC
    && (forall k: nat :: Live(view, k) ==> k < |view.sends| && 0 <= view.sends[k].userdata < |rhs| && rhs[view.sends[k].userdata].used)
    && (forall j: nat, k: nat :: j < k && Live(view, j) && Live(view, k) ==> view.sends[j].userdata != view.sends[k].userdata)
  }

  lemma EntriesAfterWait(prev: State, view: State, k: nat, rhs: seq<ReadEntry>)
    requires Entries(prev, rhs) && Completed(prev, view, k) && Live(prev, k)
    ensures var u := prev.sends[k].userdata; 0 <= u < |rhs| && rhs[u].used && Entries(view, rhs[u := rhs[u].(used := false)])
  {
  }

  lemma EntriesAfterSend(prev: State, view: State, rhs: seq<ReadEntry>, i: nat, e: ReadEntry)
    requires Entries(prev, rhs) && |view.slots| == |view.owner|
    requires i < |rhs| && !rhs[i].used && e.used
    requires |view.sends| == |prev.sends| + 1 && prev.sends <= view.sends && view.sends[|prev.sends|].userdata == i
    requires forall j :: Live(view, j) <==> Live(prev, j) || j == |prev.sends|
    ensures Entries(view, rhs[i := e])
  {
  }

  // The search for a free entry starts at `queue` and wraps around
  // (src/nfs.c:472-481); it ends because fewer requests are under way than
  // there are entries.
  method FreeEntry(rhs: array<ReadEntry>, queue: nat) returns (i: nat, queue': nat)
    requires rhs.Length == RNUMASYNC && queue < RNUMASYNC && CountUsed(rhs[..]) < RNUMASYNC
    ensures i < RNUMASYNC && !rhs[i].used && queue' == (i + 1) % RNUMASYNC
  {
    ghost var free := SomeEntryFree(rhs[..]);
    queue' := queue;
    var found := -1;
    while found < 0
      invariant queue' < RNUMASYNC && -1 <= found < RNUMASYNC
      invariant found >= 0 ==> !rhs[found].used && queue' == (found + 1) % RNUMASYNC
      decreases found < 0, (free - queue' + RNUMASYNC) % RNUMASYNC
    {
      if !rhs[queue'].used {
        found := queue';
      }
      queue' := queue' + 1;
      if queue' >= RNUMASYNC {
        queue' := 0;
      }
    }
    return found, queue';
  }

  // The requests of a read, in this order; there is one also for an empty range.
  function ReadPieces(offset: nat, count: nat, maxRead: nat): (r: seq<Request>)
    requires maxRead > 0
    ensures r != []
    decreases count
  {
    if count <= maxRead then [ReadReq(offset, count)]
    else [ReadReq(offset, maxRead)] + ReadPieces(offset + maxRead, count - maxRead, maxRead)
  }

  // They are of at most maxRead bytes and consecutive, over exactly the range.
  lemma {:induction false} ReadsAreConsecutive(offset: nat, count: nat, maxRead: nat)
    requires maxRead > 0
    ensures var p := ReadPieces(offset, count, maxRead);
      && (forall i :: 0 <= i < |p| ==> p[i].ReadReq? && p[i].count <= maxRead)
      && (forall i :: 0 < i < |p| ==> p[i].offset == p[i - 1].offset + p[i - 1].count)
      && p[0].offset == offset && p[|p| - 1].offset + p[|p| - 1].count == offset + count
    decreases count
  {
    if count > maxRead {
      ReadsAreConsecutive(offset + maxRead, count - maxRead, maxRead);
      ReadCons(ReadReq(offset, maxRead), ReadPieces(offset + maxRead, count - maxRead, maxRead), maxRead);
    }
  }

  lemma ReadCons(r: Request, q: seq<Request>, maxRead: nat)
    requires q != [] && forall i :: 0 <= i < |q| ==> q[i].ReadReq? && q[i].count <= maxRead
    requires forall i :: 0 < i < |q| ==> q[i].offset == q[i - 1].offset + q[i - 1].count
    requires r.ReadReq? && r.count <= maxRead && q[0].offset == r.offset + r.count
    ensures var p := [r] + q;
      && (forall i :: 0 <= i < |p| ==> p[i].ReadReq? && p[i].count <= maxRead)
      && (forall i :: 0 < i < |p| ==> p[i].offset == p[i - 1].offset + p[i - 1].count)
  {
  }

  // The first `sent` of the requests were sent, with the numbers from base on.
  ghost predicate Asked(sends: nat, messages: map<nat, Request>, base: nat, reqs: seq<Request>, sent: nat) {
    && sends == base + sent && sent <= |reqs|
    && forall k: nat :: base <= k < base + sent ==> k in messages && messages[k] == reqs[k - base]
  }

  // The next request is sent: what is left to ask for gets shorter by it.
  lemma AskedOn(sends: nat, messages: map<nat, Request>, base: nat, reqs: seq<Request>, sent: nat, at: nat, left: nat, maxRead: nat)
    requires maxRead > 0 && Asked(sends, messages, base, reqs, sent) && reqs[sent..] == ReadPieces(at, left, maxRead)
    ensures var len := if left < maxRead then left else maxRead;
      && sent < |reqs| && Asked(sends + 1, messages[sends := ReadReq(at, len)], base, reqs, sent + 1)
      && (left - len > 0 ==> reqs[sent + 1..] == ReadPieces(at + len, left - len, maxRead))
      && (left - len == 0 ==> sent + 1 == |reqs|)
  {
    assert reqs[sent..][1..] == reqs[sent + 1..] && reqs[sent] == reqs[sent..][0];
  }

  // What holds between two rounds of the loop.
  ghost predicate Reading(view: State, rhs: seq<ReadEntry>, numPending: int) {
    Entries(view, rhs) && CountUsed(rhs) == numPending == |view.slots| - view.numFree
  }

  // A reply's user data names an entry in use, which becomes free
  // (src/nfs.c:417, 463-464).
  method WaitRead(c: Client, net: Network, rhs: array<ReadEntry>, ghost numPending: nat)
    returns (ok: bool, u: nat, answer: Answer)
    requires c.Valid() && Inv(c.view) && |c.view.sends| <= 0x1_0000 && net.Valid() && Linked(c.view, net)
    requires Reading(c.view, rhs[..], numPending)
    modifies c.slots, c`view, c`numFree, net`file, net`executed, net`answers, net`troubles, net`unsent, net`arrivals, rhs
    ensures c.Valid() && Inv(c.view) && net.Valid() && Linked(c.view, net)
    ensures c.view.sends == old(c.view.sends)
    ensures ok ==> u < rhs.Length && old(rhs[..])[u].used && rhs[..] == old(rhs[..])[u := rhs[u]] && !rhs[u].used
    ensures if ok then Reading(c.view, rhs[..], numPending - 1) else c.numFree == c.slots.Length
  {
    hide Inv, Live, Entries, SameWaits;
    var out;
    ghost var k, es, came, v0 := 0, [], [], c.view;
    out, k, es, came := c.Wait(net);
    if out.Failure? {
      AbortKeeps(c.view);
      c.AbortAll();
      return false, 0, Answer(false, 0, 0);
    }
    EntriesAfterWait(v0, c.view, k, rhs[..]);
    assert c.view.numFree == v0.numFree + 1;
    u := out.userdata;
    CountUsedUpdate(rhs[..], u, rhs[u].(used := false));
    rhs[u] := rhs[u].(used := false);
    assert rhs[..] == old(rhs[..])[u := rhs[u]];
    return true, u, out.answer;
  }

  method SendRead(c: Client, net: Network, rhs: array<ReadEntry>, i: nat, offset: nat, count: nat, ghost numPending: nat)
    returns (ok: bool)
    requires c.Valid() && Inv(c.view) && net.Valid() && Linked(c.view, net)
    requires Reading(c.view, rhs[..], numPending)
    requires i < rhs.Length && !rhs[i].used
    modifies c, c.slots, net`xids, net`messages, net`floors, net`troubles, net`unsent, rhs
    ensures c.Valid() && c.slots == old(c.slots) && Inv(c.view) && net.Valid() && Linked(c.view, net)
    ensures if ok then |c.view.sends| == |old(c.view.sends)| + 1 && Reading(c.view, rhs[..], numPending + 1)
            else c.numFree == c.slots.Length
    ensures ok ==> net.messages == old(net.messages)[|old(c.view.sends)| := ReadReq(offset, count)]
  {
    hide Inv, Live, Entries;
    ghost var v0 := c.view;
    ok := SendRequest(c, net, PROC_READ, ReadReq(offset, count), i, i);
    if !ok {
      AbortKeeps(c.view);
      c.AbortAll();
      return;
    }
    EntriesAfterSend(v0, c.view, rhs[..], i, ReadEntry(true, offset, count));
    CountUsedUpdate(rhs[..], i, ReadEntry(true, offset, count));
    rhs[i] := ReadEntry(true, offset, count);
    assert rhs[..] == old(rhs[..])[i := rhs[i]];
  }

  // One request of the loop (src/nfs.c:470-512)
  method SendNext(c: Client, net: Network, rhs: array<ReadEntry>, queue: nat, at: nat, left: nat, maxRead: nat,
                  ghost numPending: nat, ghost base: nat, ghost reqs: seq<Request>, ghost sent: nat)
    returns (ok: bool, queue': nat, len: nat)
    requires c.Valid() && Inv(c.view) && net.Valid() && Linked(c.view, net)
    requires rhs.Length == RNUMASYNC && queue < RNUMASYNC && numPending < RNUMASYNC && Reading(c.view, rhs[..], numPending)
    requires maxRead > 0 && sent <= |reqs| && |c.view.sends| == base + sent && Asked(base + sent, net.messages, base, reqs, sent)
    requires reqs[sent..] == ReadPieces(at, left, maxRead)
    modifies c, c.slots, net`xids, net`messages, net`floors, net`troubles, net`unsent, rhs
    ensures c.Valid() && c.slots == old(c.slots) && Inv(c.view) && net.Valid() && Linked(c.view, net)
    ensures queue' < RNUMASYNC && len <= left && (left > 0 ==> len > 0)
    ensures !ok ==> c.numFree == c.slots.Length
    ensures ok ==> Reading(c.view, rhs[..], numPending + 1)
    ensures ok ==> sent < |reqs| && |c.view.sends| == base + sent + 1 && Asked(base + (sent + 1), net.messages, base, reqs, sent + 1)
    ensures ok ==> if left - len > 0 then reqs[sent + 1..] == ReadPieces(at + len, left - len, maxRead) else sent + 1 == |reqs|
  {
    hide Inv, Reading, Live, ReadPieces, Asked, Linked;
    ReadingCount(c.view, rhs[..], numPending);
    AskedOn(base + sent, net.messages, base, reqs, sent, at, left, maxRead);
    var i;
    i, queue' := FreeEntry(rhs, queue);
    len := if left < maxRead then left else maxRead;
    ok := SendRead(c, net, rhs, i, at, len, numPending);
  }

  // nfs_MARead, as far as requests, slots and entries are concerned: what is asked
  // for is the range from its start on, all of it unless a reply is short, and
  // every way out leaves all slots free. upperOffs starts as -1, which the unsigned
  // comparison takes for the largest offset.
  method MARead(c: Client, net: Network, offset: nat, count: nat, maxReadSize: nat, numRPCs: nat)
    returns (res: int, fileLen: nat, ghost most: nat, ghost sent: nat, ghost short: bool)
    requires c.Valid() && Inv(c.view) && c.numFree == c.slots.Length
    requires net.Valid() && Linked(c.view, net)
    requires maxReadSize > 0 && 0 < numRPCs <= RNUMASYNC
    requires |c.view.sends| + |ReadPieces(offset, count, MaxTransfer(maxReadSize))| <= 0x1_0000
    modifies c, c.slots, net
    ensures c.Valid() && Inv(c.view) && net.Valid() && Linked(c.view, net)
    ensures c.numFree == c.slots.Length
    ensures most <= numRPCs
    ensures res >= 0 ==>
      Asked(|c.view.sends|, net.messages, |old(c.view.sends)|, ReadPieces(offset, count, MaxTransfer(maxReadSize)), sent)
    ensures res >= 0 && !short ==> sent == |ReadPieces(offset, count, MaxTransfer(maxReadSize))|
  {
    hide Inv, Reading, Live, ReadPieces, Asked;
    ghost var base, reqs := |c.view.sends|, ReadPieces(offset, count, MaxTransfer(maxReadSize));
    sent, short := 0, false;
    assert Asked(base, net.messages, base, reqs, 0) by { AskedNone(base, net.messages, reqs); }
    assert reqs[0..] == reqs;
    var maxRead := MaxTransfer(maxReadSize);
    var rhs := new ReadEntry[RNUMASYNC](_ => ReadEntry(false, 0, 0));
    var numPending: nat, queue: nat, left: nat, at: nat := 0, 0, count, offset;
    var reading, eof, upperOffs, totLen := true, false, 0xFFFF_FFFF, 0;
    fileLen, most := 0, 0;
    ReadingStart(c.view, rhs[..]);
    while reading || numPending > 0
      invariant c.Valid() && c.slots == old(c.slots) && Inv(c.view) && net.Valid() && Linked(c.view, net)
      invariant fresh(rhs) && rhs.Length == RNUMASYNC && queue < RNUMASYNC
      invariant Reading(c.view, rhs[..], numPending)
      invariant numPending <= most <= numRPCs
      invariant sent <= |reqs| && |c.view.sends| == base + sent && Asked(base + sent, net.messages, base, reqs, sent)
      invariant reading ==> reqs[sent..] == ReadPieces(at, left, maxRead)
      invariant short <==> eof
      invariant !reading && !short ==> sent == |reqs|
      decreases if reading then left + 1 else 0, numPending
    {
      if (reading && numPending >= numRPCs) || (!reading && numPending > 0) {
        var ok, u, answer := WaitRead(c, net, rhs, numPending);
        if !ok {
          return -1, 0, most, sent, short;
        }
        numPending := numPending - 1;
        if !answer.ok {
          if eof || rhs[u].offset <= upperOffs {
            AbortKeeps(c.view);
            c.AbortAll();
            return -1, 0, most, sent, short;
          }
        } else {
          if answer.len < rhs[u].count {
            if eof {
              if answer.len > 0 {
                AbortKeeps(c.view);
                c.AbortAll();
                return -1, 0, most, sent, short;
              }
            } else {
              eof, reading, upperOffs := true, false, rhs[u].offset + rhs[u].count - 1;
              short := true;
            }
          }
          totLen := totLen + answer.len;
          fileLen := if fileLen > answer.size then fileLen else answer.size;
        }
      }
      if reading {
        var ok, len;
        ok, queue, len := SendNext(c, net, rhs, queue, at, left, maxRead, numPending, base, reqs, sent);
        if !ok {
          return -1, 0, most, sent, short;
        }
        numPending, sent := numPending + 1, sent + 1;
        if most < numPending { most := numPending; }
        at, left := at + len, left - len;
        if left == 0 {
          reading := false;
        }
      }
    }
    ReadingCount(c.view, rhs[..], 0);
    return totLen, fileLen, most, sent, short;
  }

  lemma AskedNone(base: nat, messages: map<nat, Request>, reqs: seq<Request>)
    ensures Asked(base, messages, base, reqs, 0)
  {
  }

  lemma ReadingStart(view: State, rhs: seq<ReadEntry>)
    requires Inv(view) && view.numFree == |view.slots|
    requires |rhs| == RNUMASYNC && forall i :: 0 <= i < |rhs| ==> !rhs[i].used
    ensures Reading(view, rhs, 0)
  {
    hide Live;
    AllFree(view);
    NoneUsed(rhs);
  }

  lemma ReadingCount(view: State, rhs: seq<ReadEntry>, numPending: int)
    requires Reading(view, rhs, numPending)
    ensures CountUsed(rhs) == numPending == |view.slots| - view.numFree
  {
  }
}
