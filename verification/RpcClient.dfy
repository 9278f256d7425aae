// The asynchronous RPC client handle of src/rpc/clnt_audp.c: an array of slots
// changed in place, proved step by step against the state machine of RpcSlots.
module RpcClient {
  import opened RpcSlots
  import opened LossyNetwork

  datatype Outcome =
    | Success(userdata: int, answer: Answer) // RPC_SUCCESS, with cla_userdata
    | Failure(why: Reason)                   // any other status

  // GaveUp stands for a wait without an end.
  datatype Reason = BadReply | SelectFailed | ResendFailed | TimeSpent | GaveUp

  // The network has seen exactly the messages of the client.
  ghost predicate Linked(s: State, net: Network)
    reads net
  {
    |net.xids| == |s.sends| && forall k :: 0 <= k < |s.sends| ==> net.xids[k] == s.sends[k].xid
  }

  class Client {
    const wait: nat  // interval between two retransmissions
    const total: nat // time after which a request is given up
    const patience: nat // after how many rounds a wait is taken to be endless
    var slots: array<Slot>
    var numFree: int
    var xid: int
    var proc: int
    ghost var view: State

    ghost predicate Valid()
      reads this, slots
    {
      && |view.owner| == slots.Length > 0 && view.slots == slots[..]
      && view.numFree == numFree && view.xid == xid && view.proc == proc
    }

    // clntaudp_bufcreate
    constructor (numAsync: nat, start: int, wait: nat, total: nat, patience: nat)
      requires numAsync > 0 && start == Nth(start, 0)
      ensures Valid() && Inv(view) && fresh(slots)
      ensures slots.Length == numAsync == numFree && view.sends == [] && view.start == start
    {
      this.wait, this.total, this.patience := wait, total, patience;
      slots := new Slot[numAsync](_ => Slot(false, 0, 0, 0, 0, 0));
      numFree, xid, proc := numAsync, start, 0;
      new;
      view := State(slots[..], numFree, xid, proc, start, [], seq(numAsync, _ => 0), {});
      CountBounds(view.slots);
    }

    // clntaudp_sendsb; fate says whether encoding or sending fails.
    method SendSb(proc': int, results: int, userdata: int, fate: Fate) returns (out: Output)
      requires Valid()
      modifies slots, `view, `numFree, `xid, `proc
      ensures Valid()
      ensures (view, out) == SendStep(old(view), proc', results, userdata, fate)
    {
      if numFree == 0 {
        return Refused;
      }
      var i := 0;
      while i < slots.Length && slots[i].inuse
        invariant 0 <= i <= slots.Length && forall k :: 0 <= k < i ==> slots[k].inuse
      {
        i := i + 1;
      }
      assert FirstFree(view.slots) == i;
      if i == slots.Length {
        return Refused;
      }
      if numFree == slots.Length {
        proc := proc';
      } else if proc != proc' {
        return Refused;
      }
      xid := Bump(xid);
      slots[i] := Slot(false, xid, results, userdata, 0, 2);
      view := view.(xid := xid, proc := proc, sends := view.sends + [Sent(xid, results, userdata)], slots := slots[..]);
      if fate != Gone {
        return Failed;
      }
      slots[i] := slots[i].(inuse := true);
      numFree := numFree - 1;
      assert slots[..] == old(slots[..])[i := slots[i]];
      view := view.(slots := slots[..], numFree := numFree, owner := view.owner[i := |view.sends| - 1]);
      return Accepted;
    }

    // clntaudp_abort
    method AbortAll()
      requires Valid()
      modifies slots, `view, `numFree
      ensures Valid()
      ensures view == AbortStep(old(view))
    {
      var i := 0;
      while i < slots.Length
        invariant 0 <= i <= slots.Length && view == old(view)
        invariant numFree - CountFree(slots[..]) == old(numFree) - CountFree(old(view.slots))
        invariant forall k :: 0 <= k < slots.Length ==>
          slots[k] == if k < i then old(view.slots)[k].(inuse := false) else old(view.slots)[k]
      {
        if slots[i].inuse {
          CountUpdate(slots[..], i, slots[i].(inuse := false));
          assert slots[..][i := slots[i].(inuse := false)] == slots[..i] + [slots[i].(inuse := false)] + slots[i + 1..];
          numFree := numFree + 1;
          slots[i] := slots[i].(inuse := false);
        }
        i := i + 1;
      }
      CountBounds(slots[..]);
      assert slots[..] == AbortSlots(view.slots);
      view := view.(slots := slots[..], numFree := numFree);
    }

    // clntaudp_wait after a timeout of select(); with a slot to send again, or TimedOut
    method Tick(extend: nat -> bool) returns (out: Output)
      requires Valid()
      modifies slots, `view
      ensures Valid()
      ensures (view, out) == TickStep(old(view), 0, wait, total, extend)
    {
      var i := 0;
      while i < slots.Length
        invariant 0 <= i <= slots.Length && Valid()
        invariant TickStep(view, i, wait, total, extend) == TickStep(old(view), 0, wait, total, extend)
      {
        if slots[i].inuse {
          slots[i] := slots[i].(waited := slots[i].waited + wait);
          view := view.(slots := view.slots[i := slots[i]]);
          if slots[i].waited < total || extend(i) {
            return Resent(i);
          }
        }
        i := i + 1;
      }
      return TimedOut;
    }

    // clntaudp_wait once a datagram is there
    method Packet(x: int, verdict: Verdict) returns (out: Output)
      requires Valid()
      modifies slots, `view, `numFree
      ensures Valid()
      ensures (view, out) == PacketStep(old(view), x, verdict)
    {
      var i := 0;
      while i < slots.Length && !(slots[i].inuse && slots[i].xid == x)
        invariant 0 <= i <= slots.Length && forall k :: 0 <= k < i ==> !(slots[k].inuse && slots[k].xid == x)
      {
        i := i + 1;
      }
      assert FirstMatch(view.slots, x) == i;
      if i == slots.Length {
        return Ignored;
      }
      if verdict.Rejected? && verdict.refreshed && slots[i].refreshes > 0 {
        slots[i] := slots[i].(refreshes := slots[i].refreshes - 1);
        view := view.(slots := slots[..]);
        return Stuck(slots[i].results, slots[i].userdata);
      }
      slots[i] := slots[i].(inuse := false);
      numFree := numFree + 1;
      view := FreeSlot(view, i);
      return Delivered(slots[i].results, slots[i].userdata, verdict.Good?);
    }

    // Every request has waited as long as it may.
    ghost predicate AllSpent()
      reads this
    {
      forall k :: 0 <= k < |view.slots| && view.slots[k].inuse ==> view.slots[k].waited >= total
    }

    // What ended a wait, given all that came of it
    ghost predicate Because(why: Reason, came: seq<Arrival>, unsent: nat)
      reads this
    {
      match why
      case BadReply => came != [] && came[|came| - 1].Reply? && !came[|came| - 1].verdict.Good?
      case SelectFailed => came != [] && came[|came| - 1] == Broken
      case ResendFailed => came != [] && came[|came| - 1] == Silence && unsent > 0
      case TimeSpent => came != [] && came[|came| - 1] == Silence && AllSpent()
      case GaveUp => |came| == patience
    }

    // From the arrival of a reply on; not ended if no slot waits for it
    method OnReply(n: nat, x: int, verdict: Verdict, answer: Answer) returns (ended: bool, out: Outcome)
      requires Valid() && Inv(view) && |view.sends| <= 0x1_0000 && n < |view.sends| && x == view.sends[n].xid
      modifies slots, `view, `numFree
      ensures Valid() && Inv(view) && view.sends == old(view.sends)
      ensures !ended ==> SameWaits(old(view), view)
      ensures ended && out.Success? ==> verdict == Good && out == Success(view.sends[n].userdata, answer)
      ensures ended && out.Success? ==> Live(old(view), n) && Completed(old(view), view, n)
      ensures ended && out.Failure? ==> out == Failure(BadReply) && !verdict.Good?
      ensures ended ==> SameWaits(old(view), view) || (Live(old(view), n) && Completed(old(view), view, n))
    {
      hide Inv, SameWaits, Completed, Live, PacketStep;
      ReplyMatches(view, n, verdict);
      PacketKeeps(view, x, verdict);
      WaitsSame(view);
      var o := Packet(x, verdict);
      ended, out := true, Failure(BadReply);
      match o {
        case Delivered(_, userdata, ok) =>
          if ok {
            out := Success(userdata, answer);
          }
        case Stuck(_, _) =>
        case _ => ended := false;
      }
    }

    // After a silent interval
    method OnSilence(net: Network) returns (ended: bool, out: Outcome)
      requires Valid() && Inv(view)
      modifies slots, `view, net`troubles, net`unsent
      ensures Valid() && Inv(view) && view.sends == old(view.sends) && SameWaits(old(view), view)
      ensures net.troubles >= old(net.troubles) && net.unsent >= old(net.unsent)
      ensures !ended ==> net.unsent == old(net.unsent)
      ensures ended ==> (out == Failure(TimeSpent) && AllSpent()) || (out == Failure(ResendFailed) && net.unsent > old(net.unsent))
    {
      hide Inv, SameWaits, TickStep;
      var extend: nat -> bool := *;
      TickWaits(view, wait, total, extend);
      TickKeeps(view, wait, total, extend);
      TickSpent(view, wait, total, extend);
      TickSends(view, wait, total, extend);
      var o := Tick(extend);
      if o.TimedOut? {
        return true, Failure(TimeSpent);
      }
      var sent := net.Resend();
      return !sent, Failure(ResendFailed);
    }

    // One round of the loop of clntaudp_wait
    method Round(net: Network) returns (ended: bool, out: Outcome, ghost k: nat, ghost es: seq<nat>, ghost a: Arrival)
      requires Valid() && Inv(view) && |view.sends| <= 0x1_0000
      requires net.Valid() && Linked(view, net)
      modifies slots, `view, `numFree, net`file, net`executed, net`answers, net`troubles, net`unsent, net`arrivals
      ensures Valid() && Inv(view) && net.Valid() && Linked(view, net)
      ensures forall e :: e in es ==> e in net.messages
      ensures net.file == Carry(old(net.file), net.messages, es)
      ensures net.executed == old(net.executed) + set e | e in es
      ensures net.arrivals == old(net.arrivals) + [a] && view.sends == old(view.sends)
      ensures net.troubles >= old(net.troubles) && net.unsent >= old(net.unsent)
      ensures !ended ==> SameWaits(old(view), view) && net.unsent == old(net.unsent)
      ensures ended && out.Failure? ==>
        out.why != GaveUp && Because(out.why, [a], net.unsent - old(net.unsent)) && net.troubles > old(net.troubles)
      ensures ended && out.Success? ==> net.unsent == old(net.unsent) && (!out.answer.ok ==> net.troubles > old(net.troubles))
      ensures ended && out.Success? ==>
        && Live(old(view), k) && k < |view.sends| && Completed(old(view), view, k)
        && out.userdata == view.sends[k].userdata && a == Reply(k, view.sends[k].xid, Good, out.answer)
        && (k in net.messages && out.answer.ok ==> (k, out.answer.size) in net.answers)
      ensures ended && out.Failure? ==> SameWaits(old(view), view) || (Live(old(view), k) && Completed(old(view), view, k))
    {
      hide Inv, SameWaits, Completed, Live, Carry;
      k := 0;
      WaitsSame(view);
      var came;
      came, es := net.Poll();
      a := came;
      match came {
        case Reply(n, x, verdict, answer) =>
          k := n;
          ended, out := OnReply(n, x, verdict, answer);
        case Silence => ended, out := OnSilence(net);
        case Broken => ended, out := true, Failure(SelectFailed);
      }
    }

    // clntaudp_wait: waits for one reply of any of the messages sent. A silent
    // interval has the first request sent again that has time left; the wait
    // ends with the first reply to an awaited message, and fails for the reason
    // given only.
    method Wait(net: Network) returns (out: Outcome, ghost k: nat, ghost es: seq<nat>, ghost came: seq<Arrival>)
      requires Valid() && Inv(view) && |view.sends| <= 0x1_0000
      requires net.Valid() && Linked(view, net)
      modifies slots, `view, `numFree, net`file, net`executed, net`answers, net`troubles, net`unsent, net`arrivals
      ensures Valid() && Inv(view) && net.Valid() && Linked(view, net)
      ensures forall e :: e in es ==> e in net.messages
      ensures net.file == Carry(old(net.file), net.messages, es)
      ensures net.executed == old(net.executed) + set e | e in es
      ensures net.arrivals == old(net.arrivals) + came && view.sends == old(view.sends)
      ensures net.troubles >= old(net.troubles) && net.unsent >= old(net.unsent)
      ensures out.Failure? ==> Because(out.why, came, net.unsent - old(net.unsent))
      ensures out.Failure? && out.why != GaveUp ==> net.troubles > old(net.troubles)
      ensures out.Success? ==> net.unsent == old(net.unsent) && (!out.answer.ok ==> net.troubles > old(net.troubles))
      ensures out.Success? ==>
        && Live(old(view), k) && k < |view.sends| && Completed(old(view), view, k)
        && out.userdata == view.sends[k].userdata
        && came != [] && came[|came| - 1] == Reply(k, view.sends[k].xid, Good, out.answer)
        && (k in net.messages && out.answer.ok ==> (k, out.answer.size) in net.answers)
      ensures out.Failure? ==> SameWaits(old(view), view) || (Live(old(view), k) && Completed(old(view), view, k))
    {
      hide Inv, SameWaits, Completed, Live, Carry, Linked, Client.AllSpent;
      var rounds := patience;
      k, es, came := 0, [], [];
      CarryNothing(net.file, net.messages);
      WaitsSame(view);
      while rounds > 0
        invariant Valid() && Inv(view) && net.Valid() && Linked(view, net)
        invariant SameWaits(old(view), view)
        invariant 0 <= rounds && |came| == patience - rounds && net.arrivals == old(net.arrivals) + came
        invariant view.sends == old(view.sends) && net.troubles >= old(net.troubles) && net.unsent == old(net.unsent)
        invariant forall e :: e in es ==> e in net.messages
        invariant net.file == Carry(old(net.file), net.messages, es)
        invariant net.executed == old(net.executed) + set e | e in es
      {
        rounds := rounds - 1;
        var ended;
        ghost var more, a, v1 := [], Silence, view;
        ended, out, k, more, a := Round(net);
        CarryConcat(old(net.file), net.messages, es, more);
        es, came := es + more, came + [a];
        WaitsCompose(old(view), v1, view);
        if ended {
          return;
        }
      }
      out := Failure(GaveUp);
    }
  }

  lemma TickSends(s: State, wait: nat, total: nat, extend: nat -> bool)
    ensures TickStep(s, 0, wait, total, extend).0.sends == s.sends
  {
    TickShape(s, 0, wait, total, extend);
  }

  // When the wait times out, every request in use has spent its time.
  lemma TickSpent(s: State, wait: nat, total: nat, extend: nat -> bool)
    ensures var (t, out) := TickStep(s, 0, wait, total, extend);
      out == TimedOut ==> forall k :: 0 <= k < |t.slots| && t.slots[k].inuse ==> t.slots[k].waited >= total
  {
    TickExactly(s, 0, wait, total, extend);
    TickShape(s, 0, wait, total, extend);
  }
}
