// The flush of src/wbuf.c in its asynchronous form (src/wbuf.c:847-856): every
// dirty range goes out through nfs_MAWrite over the lossy network.
module AsyncFlush {
  import opened AsyncTransfer
  import opened DirtyTable
  import opened LossyNetwork
  import opened NfsTransfer
  import opened RpcClient
  import opened RpcSlots
  import opened ServerFile
  import opened WriteBehind
  import opened WriteHeader

  // Between two ranges nothing is awaited, and every request that may still be
  // under way shows both in the file and in the file g that is to result.
  ghost predicate Resting(c: Client, net: Network, g: seq<Byte>)
    reads c, c.slots, net
  {
    && c.Valid() && Inv(c.view) && c.numFree == c.slots.Length && net.Valid() && Linked(c.view, net)
    && AllSettled(net.file, net.messages) && AllSettled(g, net.messages)
  }

  // The number of requests that a buffer, or a list of buffers, takes.
  ghost function BufferCalls(b: Buffer, maxWrite: nat): nat
    requires maxWrite > 0
    decreases |b.table|
  {
    if b.table == [] then 0
    else
      var r := b.table[0];
      (if 0 <= b.offs && 0 <= r.from <= r.to < |b.data| then |Pieces(b.offs + r.from, b.data[r.from..r.to + 1], maxWrite)| else 0)
      + BufferCalls(b.(table := b.table[1..]), maxWrite)
  }

  ghost function Calls(bs: seq<Buffer>, maxWrite: nat): nat
    requires maxWrite > 0
  {
    if bs == [] then 0 else BufferCalls(bs[0], maxWrite) + Calls(bs[1..], maxWrite)
  }

  // ---- Requests and files on the way --------------------------------------------

  lemma BetweenCompose(f0: seq<Byte>, f: seq<Byte>, h: seq<Byte>, g: seq<Byte>)
    requires Between(f0, f, g) && Between(f, h, g)
    ensures Between(f0, h, g)
  {
  }

  lemma BetweenNearer(f: seq<Byte>, h: seq<Byte>, k: seq<Byte>, g: seq<Byte>)
    requires Between(f, h, k) && Between(f, k, g)
    ensures Between(f, h, g)
  {
  }

  // What shows at both ends shows all the way.
  lemma SettledBetween(f: seq<Byte>, h: seq<Byte>, g: seq<Byte>, messages: map<nat, Request>)
    requires Between(f, h, g) && AllSettled(f, messages) && AllSettled(g, messages)
    ensures AllSettled(h, messages)
  {
  }

  lemma AddedSettled(g: seq<Byte>, before: map<nat, Request>, messages: map<nat, Request>, offset: nat, d: seq<Byte>)
    requires AllSettled(g, before) && Added(before, messages, offset, d) && WriteAt(g, offset, d) == g
    ensures AllSettled(g, messages)
  {
    hide WriteAt, PartOf, Effect;
    forall k | k in messages ensures Effect(g, messages[k]) == g {
      if !(k in before && before[k] == messages[k]) {
        PartShows(g, messages[k], offset, d);
      }
    }
  }

  // The overlay shows the first dirty range, and storing the range leads there.
  lemma StoreOnTheWay(f: seq<Byte>, b: Buffer, rest: seq<Buffer>, g: seq<Byte>)
    requires Sorted([b] + rest) && Shows(f, [b] + rest, g) && b.table != []
    ensures WellFormed(b) && 0 <= b.table[0].from <= b.table[0].to < |b.data|
    ensures var at, d := b.offs + b.table[0].from, b.data[b.table[0].from..b.table[0].to + 1];
      Between(f, WriteAt(f, at, d), g) && WriteAt(g, at, d) == g
  {
    hide Sorted, Shows, Canonical, Covers, WriteAt, Between, Pending;
    FirstSorted(b, rest);
    StoreShows(f, b, rest, g);
    var r := b.table[0];
    forall x | b.offs + r.from <= x <= b.offs + r.to ensures Pending([b] + rest, x) == b.data[x - b.offs] {
      StorePending(b, rest, x);
    }
    StoredBetween(f, [b] + rest, g, b.offs + r.from, b.data[r.from..r.to + 1]);
  }

  lemma StoredBetween(f: seq<Byte>, bs: seq<Buffer>, g: seq<Byte>, at: nat, d: seq<Byte>)
    requires Shows(f, bs, g) && d != []
    requires forall x :: at <= x < at + |d| ==> Pending(bs, x) == d[x - at]
    ensures Between(f, WriteAt(f, at, d), g) && WriteAt(g, at, d) == g
  {
    hide Pending;
    assert Pending(bs, at + |d| - 1) >= 0;
    SameFile(WriteAt(g, at, d), g);
  }

  // ---- The flush ------------------------------------------------------------------

  method FlushRange(c: Client, net: Network, b: Buffer, ghost rest: seq<Buffer>, maxWriteSize: nat, numRPCs: nat, ghost g: seq<Byte>)
    returns (ok: bool)
    requires Resting(c, net, g) && b.table != []
    requires Sorted([b] + rest) && Shows(net.file, [b] + rest, g)
    requires maxWriteSize > 0 && numRPCs > 0
    requires |c.view.sends| + BufferCalls(b, MaxTransfer(maxWriteSize)) <= 0x1_0000
    modifies c, c.slots, net
    ensures c.Valid() && c.slots == old(c.slots) && Inv(c.view) && net.Valid() && Linked(c.view, net)
    ensures Between(old(net.file), net.file, g) && AllSettled(g, net.messages)
    ensures ok ==> Resting(c, net, g)
    ensures ok ==> Sorted([b.(table := b.table[1..])] + rest) && Shows(net.file, [b.(table := b.table[1..])] + rest, g)
    ensures ok ==>
      |c.view.sends| + BufferCalls(b.(table := b.table[1..]), MaxTransfer(maxWriteSize))
      == |old(c.view.sends)| + BufferCalls(b, MaxTransfer(maxWriteSize))
    ensures net.troubles >= old(net.troubles) && old(net.arrivals) <= net.arrivals
    ensures numRPCs <= c.slots.Length && net.troubles == old(net.troubles) ==> ok || Endless(c, net, |old(net.arrivals)|)
  {
    hide Inv, Linked, Sorted, Shows, WellFormed, WriteAt, Pieces, Between, AllSettled, Added;
    ghost var f0, before := net.file, net.messages;
    StoreShows(f0, b, rest, g);
    StoreOnTheWay(f0, b, rest, g);
    var at, d := b.offs + b.table[0].from, b.data[b.table[0].from..b.table[0].to + 1];
    SettledBetween(f0, WriteAt(f0, at, d), g, before);
    var res, len;
    ghost var pending, most;
    res, len, pending, most := MAWrite(c, net, at, d, maxWriteSize, numRPCs);
    BetweenNearer(f0, net.file, WriteAt(f0, at, d), g);
    AddedSettled(g, before, net.messages, at, d);
    return res >= 0;
  }

  method FlushBuffer(c: Client, net: Network, b: Buffer, ghost rest: seq<Buffer>, maxWriteSize: nat, numRPCs: nat, ghost g: seq<Byte>)
    returns (ok: bool)
    requires Resting(c, net, g)
    requires Sorted([b] + rest) && Shows(net.file, [b] + rest, g)
    requires maxWriteSize > 0 && numRPCs > 0
    requires |c.view.sends| + BufferCalls(b, MaxTransfer(maxWriteSize)) <= 0x1_0000
    modifies c, c.slots, net
    ensures c.Valid() && c.slots == old(c.slots) && Inv(c.view) && net.Valid() && Linked(c.view, net)
    ensures Between(old(net.file), net.file, g) && AllSettled(g, net.messages)
    ensures ok ==> Resting(c, net, g) && Sorted(rest) && Shows(net.file, rest, g)
    ensures ok ==> |c.view.sends| == |old(c.view.sends)| + BufferCalls(b, MaxTransfer(maxWriteSize))
    ensures net.troubles >= old(net.troubles) && old(net.arrivals) <= net.arrivals
    ensures numRPCs <= c.slots.Length && net.troubles == old(net.troubles) ==> ok || Endless(c, net, |old(net.arrivals)|)
  {
    hide Inv, Linked, Sorted, Shows, AllSettled, Between;
    var left := b;
    StartBetween(net.file, [b] + rest, g);
    while left.table != []
      invariant Resting(c, net, g) && c.slots == old(c.slots)
      invariant Sorted([left] + rest) && Shows(net.file, [left] + rest, g) && Between(old(net.file), net.file, g)
      invariant |c.view.sends| + BufferCalls(left, MaxTransfer(maxWriteSize)) == |old(c.view.sends)| + BufferCalls(b, MaxTransfer(maxWriteSize))
      invariant net.troubles >= old(net.troubles) && old(net.arrivals) <= net.arrivals
      decreases |left.table|
    {
      ghost var f1 := net.file;
      ok := FlushRange(c, net, left, rest, maxWriteSize, numRPCs, g);
      BetweenCompose(old(net.file), f1, net.file, g);
      if !ok {
        return;
      }
      left := left.(table := left.table[1..]);
    }
    DropShows(net.file, left, rest, g);
    return true;
  }

  lemma StartBetween(f: seq<Byte>, bs: seq<Buffer>, g: seq<Byte>)
    requires Shows(f, bs, g)
    ensures Between(f, f, g)
  {
  }

  // iwc_FlushCache over a sorted list of buffers, g being the overlaid file:
  // a success leaves exactly g on the server, with nothing under way that could
  // change it. A failure, which needs a failed send, a timeout, an error or a
  // bad answer if there are slots enough, leaves old and new bytes only.
  method Flush(c: Client, net: Network, bs: seq<Buffer>, maxWriteSize: nat, numRPCs: nat, ghost g: seq<Byte>) returns (ok: bool)
    requires Resting(c, net, g) && Sorted(bs) && Shows(net.file, bs, g)
    requires maxWriteSize > 0 && numRPCs > 0
    requires |c.view.sends| + Calls(bs, MaxTransfer(maxWriteSize)) <= 0x1_0000
    modifies c, c.slots, net
    ensures Between(old(net.file), net.file, g) && AllSettled(g, net.messages)
    ensures c.Valid() && c.slots == old(c.slots) && Inv(c.view) && net.Valid() && Linked(c.view, net)
    ensures ok ==> net.file == g && Resting(c, net, g)
    ensures net.troubles >= old(net.troubles) && old(net.arrivals) <= net.arrivals
    ensures numRPCs <= c.slots.Length && net.troubles == old(net.troubles) ==> ok || Endless(c, net, |old(net.arrivals)|)
  {
    hide Inv, Linked, Sorted, Shows, AllSettled, Between;
    var left := bs;
    StartBetween(net.file, bs, g);
    while left != []
      invariant Resting(c, net, g) && c.slots == old(c.slots)
      invariant Sorted(left) && Shows(net.file, left, g) && Between(old(net.file), net.file, g)
      invariant |c.view.sends| + Calls(left, MaxTransfer(maxWriteSize)) <= 0x1_0000
      invariant net.troubles >= old(net.troubles) && old(net.arrivals) <= net.arrivals
      decreases |left|
    {
      ghost var f1 := net.file;
      assert left == [left[0]] + left[1..];
      ok := FlushBuffer(c, net, left[0], left[1..], maxWriteSize, numRPCs, g);
      BetweenCompose(old(net.file), f1, net.file, g);
      if !ok {
        return;
      }
      left := left[1..];
    }
    ShowsNothing(net.file, g);
    return true;
  }
}
