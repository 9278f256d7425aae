// The server behind a datagram network that loses, duplicates, delays and
// reorders both calls and replies. Calls are known by their send number.
module LossyNetwork {
  import opened ServerFile
  import opened RpcSlots

  datatype Request = WriteReq(offset: nat, data: seq<Byte>) | ReadReq(offset: nat, count: nat)

  function End(r: Request): nat {
    if r.WriteReq? && r.data != [] then r.offset + |r.data| else 0
  }

  // What carrying out a request does to the file.
  function Effect(f: seq<Byte>, r: Request): seq<Byte> {
    if r.WriteReq? then WriteAt(f, r.offset, r.data) else f
  }

  // The file after the requests with the numbers es, in this order.
  function Carry(f: seq<Byte>, messages: map<nat, Request>, es: seq<nat>): (r: seq<Byte>)
    requires forall e :: e in es ==> e in messages
    ensures |f| <= |r|
  {
    if es == [] then f
    else Effect(Carry(f, messages, es[..|es| - 1]), messages[es[|es| - 1]])
  }

  lemma CarryNothing(f: seq<Byte>, messages: map<nat, Request>)
    ensures Carry(f, messages, []) == f
  {
  }

  lemma CarryOne(f: seq<Byte>, messages: map<nat, Request>, es: seq<nat>, k: nat)
    requires k in messages && forall e :: e in es ==> e in messages
    ensures Carry(f, messages, es + [k]) == Effect(Carry(f, messages, es), messages[k])
  {
  }

  lemma {:induction false} CarryConcat(f: seq<Byte>, messages: map<nat, Request>, a: seq<nat>, b: seq<nat>)
    requires forall e :: e in a + b ==> e in messages
    ensures (forall e :: e in a ==> e in messages) && (forall e :: e in b ==> e in messages)
    ensures Carry(Carry(f, messages, a), messages, b) == Carry(f, messages, a + b)
  {
    hide Effect;
    assert forall e :: e in a ==> e in a + b;
    assert forall e :: e in b ==> e in a + b;
    if b == [] {
      assert a + b == a;
    } else {
      assert (a + b)[..|a + b| - 1] == a + b[..|b| - 1];
      CarryConcat(f, messages, a, b[..|b| - 1]);
    }
  }

  // The file already shows the effect of every request under way.
  ghost predicate AllSettled(f: seq<Byte>, messages: map<nat, Request>) {
    forall k :: k in messages ==> Effect(f, messages[k]) == f
  }

  // That is exactly when no request under way can change the file any more,
  // whenever, how often and in whatever order it is carried out.
  lemma SettledExactly(f: seq<Byte>, messages: map<nat, Request>)
    ensures AllSettled(f, messages)
      <==> forall es: seq<nat> :: (forall e :: e in es ==> e in messages) ==> Carry(f, messages, es) == f
  {
    hide Effect;
    if AllSettled(f, messages) {
      forall es: seq<nat> | forall e :: e in es ==> e in messages ensures Carry(f, messages, es) == f {
        Settled(f, messages, es);
      }
    } else {
      var k :| k in messages && Effect(f, messages[k]) != f;
      CarryNothing(f, messages);
      CarryOne(f, messages, [], k);
      assert forall e :: e in [] + [k] ==> e in messages;
    }
  }

  lemma {:induction false} Settled(f: seq<Byte>, messages: map<nat, Request>, es: seq<nat>)
    requires AllSettled(f, messages) && forall e :: e in es ==> e in messages
    ensures Carry(f, messages, es) == f
  {
    hide Effect;
    if es != [] {
      Settled(f, messages, es[..|es| - 1]);
      assert es[|es| - 1] in es;
    }
  }

  // Reply number k arrives, the wait interval passes, or select() fails.
  datatype Arrival = Reply(k: nat, xid: int, verdict: Verdict, answer: Answer) | Silence | Broken

  // Anything but a good answer
  predicate Trouble(a: Arrival) {
    !(a.Reply? && a.verdict.Good? && a.answer.ok)
  }

  // The NFS status of a reply, the size attribute and the number of bytes read.
  datatype Answer = Answer(ok: bool, size: nat, len: nat)

  class Network {
    var file: seq<Byte>
    var xids: seq<int>
    var messages: map<nat, Request>
    var executed: set<nat>
    var answers: set<(nat, nat)>
    ghost var floors: seq<nat> // the length of the file when each message was sent
    ghost var unsent: nat   // failed sends
    ghost var troubles: nat // failed sends, silent intervals, errors and bad answers
    ghost var arrivals: seq<Arrival> // all that came of waiting so far

    ghost predicate Valid()
      reads this
    {
      && (forall k :: k in messages ==> k < |xids|)
      && (forall k :: k in executed ==> k in messages)
      && |floors| == |xids| && (forall k :: 0 <= k < |floors| ==> floors[k] <= |file|)
      && (forall a :: a in answers ==> Credible(a))
    }

    // A size the server has reported was the size after carrying out the request.
    ghost predicate Credible(a: (nat, nat))
      reads this
    {
      a.0 in executed && a.0 in messages && a.0 < |floors| && floors[a.0] <= a.1 <= |file| && End(messages[a.0]) <= a.1
    }

    // From message `base` on, the file has had at least the length `floor`.
    ghost predicate Above(base: nat, floor: nat)
      reads this
    {
      forall k :: base <= k < |floors| ==> floor <= floors[k]
    }

    // No request is under way; `sent` are the ids of earlier, finished requests.
    constructor (initial: seq<Byte>, sent: seq<int>)
      ensures Valid() && file == initial
      ensures xids == sent && messages == map[] && executed == {} && answers == {}
    {
      file, floors, unsent, troubles, arrivals := initial, seq(|sent|, _ => 0), 0, 0, [];
      xids, messages, executed, answers := sent, map[], {}, {};
    }

    // How encoding and sending a message goes
    method Fare() returns (fate: Fate)
      modifies `troubles, `unsent
      ensures troubles == old(troubles) + if fate == Gone then 0 else 1
      ensures unsent == old(unsent) + if fate == Gone then 0 else 1
    {
      fate := *;
      if fate != Gone {
        troubles, unsent := troubles + 1, unsent + 1;
      }
    }

    // sendto() once more for a message that was sent before
    method Resend() returns (ok: bool)
      modifies `troubles, `unsent
      ensures troubles == old(troubles) + if ok then 0 else 1
      ensures unsent == old(unsent) + if ok then 0 else 1
    {
      ok := *;
      if !ok {
        troubles, unsent := troubles + 1, unsent + 1;
      }
    }

    // sendto(): from now on the message may be carried out at any time.
    method Transmit(xid: int, request: Request, lost: bool)
      requires Valid()
      modifies this`xids, this`messages, this`floors
      ensures Valid() && xids == old(xids) + [xid] && floors == old(floors) + [|file|]
      ensures messages == if lost then old(messages) else old(messages)[|old(xids)| := request]
    {
      if !lost {
        messages := messages[|xids| := request];
      }
      xids, floors := xids + [xid], floors + [|file|];
    }

    // select() and recvfrom(): before anything arrives the server may carry out
    // any requests under way, any number of times and in any order. A good
    // answer to a request under way exists only after it was carried out.
    method Poll() returns (a: Arrival, ghost es: seq<nat>)
      requires Valid()
      modifies `file, `executed, `answers, `troubles, `arrivals
      ensures troubles == old(troubles) + if Trouble(a) then 1 else 0
      ensures arrivals == old(arrivals) + [a]
      ensures Valid()
      ensures forall e :: e in es ==> e in messages
      ensures file == Carry(old(file), messages, es)
      ensures executed == old(executed) + (set e | e in es)
      ensures a.Reply? ==> a.k < |xids| && a.xid == xids[a.k]
      ensures a.Reply? && a.k in messages && a.verdict.Good? && a.answer.ok ==> (a.k, a.answer.size) in answers
    {
      hide WriteAt, Carry;
      es := [];
      var n: nat := *;
      CarryNothing(file, messages);
      while n > 0 && messages != map[]
        invariant Valid()
        invariant forall e :: e in es ==> e in messages
        invariant file == Carry(old(file), messages, es)
        invariant executed == old(executed) + (set e | e in es) && troubles == old(troubles) && arrivals == old(arrivals)
      {
        n := n - 1;
        var k: nat :| k in messages;
        CarryOne(old(file), messages, es, k);
        Grows(file, messages[k]);
        file := Effect(file, messages[k]);
        executed := executed + {k};
        answers := answers + {(k, |file|)};
        es := es + [k];
      }
      a := *;
      if a.Reply? {
        if |xids| <= a.k {
          a := Silence;
        } else {
          a := a.(xid := xids[a.k]);
          if a.k in messages && (a.k, a.answer.size) !in answers {
            a := a.(answer := a.answer.(ok := false));
          }
        }
      }
      arrivals := arrivals + [a];
      if Trouble(a) {
        troubles := troubles + 1;
      }
    }
  }

  lemma Grows(f: seq<Byte>, r: Request)
    ensures |f| <= |Effect(f, r)| && End(r) <= |Effect(f, r)|
  {
  }
}
