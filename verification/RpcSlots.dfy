// The bookkeeping of the asynchronous RPC client (src/rpc/clnt_audp.c) as a
// state machine: slots, transaction ids and the replies that a lossy,
// duplicating and reordering network delivers (section 8 of RFC 1057).
module RpcSlots {
  datatype Slot = Slot(inuse: bool, xid: int, results: int, userdata: int, waited: int, refreshes: int)

  // A call message that was given a transaction id.
  datatype Sent = Sent(xid: int, results: int, userdata: int)

  // sends, owner and done are history: all messages in the order of their
  // ids, the message of each slot, and the messages whose reply was delivered.
  datatype State = State(
    slots: seq<Slot>, numFree: int, xid: int, proc: int,
    start: int, sends: seq<Sent>, owner: seq<int>, done: set<int>)

  datatype Fate = Gone | CantEncode | CantSend
  datatype Verdict = Good | Undecodable | Rejected(refreshed: bool)

  datatype Event =
    | Send(proc: int, results: int, userdata: int, fate: Fate)
    | Packet(xid: int, verdict: Verdict)
    | Tick(wait: nat, total: nat, extend: nat -> bool)
    | Abort
    | Call(results: int)

  datatype Output =
    | Accepted | Refused | Failed       // of a send
    | Ignored                            // a packet that no slot waits for
    | Delivered(results: int, userdata: int, ok: bool)
    | Stuck(results: int, userdata: int) // credentials were refreshed; the slot stays in use
    | Resent(slot: nat) | TimedOut
    | Silent

  // ---- Transaction ids ----------------------------------------------------------

  // Only the upper half of the 32-bit id counts, so it repeats after 65536 messages.
  function Bump(xid: int): int {
    (xid / 0x1_0000 + 1) % 0x1_0000 * 0x1_0000 + xid % 0x1_0000
  }

  function Nth(start: int, k: int): int {
    (start / 0x1_0000 + k) % 0x1_0000 * 0x1_0000 + start % 0x1_0000
  }

  lemma BumpNth(start: int, k: int)
    ensures Bump(Nth(start, k)) == Nth(start, k + 1)
  {
  }

  // Two messages carry the same id exactly when a multiple of 65536 lies between them.
  lemma SameXid(start: int, j: int, k: int)
    ensures Nth(start, j) == Nth(start, k) <==> (j - k) % 0x1_0000 == 0
  {
  }

  // The lower half is the same in all of them.
  lemma LowerHalfStays(start: int, k: int)
    ensures Nth(start, k) % 0x1_0000 == start % 0x1_0000 && Bump(start) % 0x1_0000 == start % 0x1_0000
  {
  }

  // ---- Steps ----------------------------------------------------------------------

  function FirstFree(slots: seq<Slot>): (i: nat)
    ensures i <= |slots|
    ensures i < |slots| ==> !slots[i].inuse
    ensures forall k :: 0 <= k < i ==> slots[k].inuse
  {
    if slots == [] || !slots[0].inuse then 0 else 1 + FirstFree(slots[1..])
  }

  function FirstMatch(slots: seq<Slot>, xid: int): (i: nat)
    ensures i <= |slots|
    ensures i < |slots| ==> slots[i].inuse && slots[i].xid == xid
    ensures forall k :: 0 <= k < i ==> !(slots[k].inuse && slots[k].xid == xid)
  {
    if slots == [] || (slots[0].inuse && slots[0].xid == xid) then 0 else 1 + FirstMatch(slots[1..], xid)
  }

  function CountFree(slots: seq<Slot>): int {
    if slots == [] then 0 else (if slots[0].inuse then 0 else 1) + CountFree(slots[1..])
  }

  // clntaudp_sendsb
  function SendStep(s: State, proc: int, results: int, userdata: int, fate: Fate): (State, Output)
    requires |s.owner| == |s.slots|
  {
    var i := FirstFree(s.slots);
    if s.numFree == 0 || i == |s.slots| then (s, Refused)
    else if s.numFree != |s.slots| && s.proc != proc then (s, Refused)
    else
      var x := Bump(s.xid);
      var slot := Slot(false, x, results, userdata, 0, 2);
      var s' := s.(xid := x, proc := proc, sends := s.sends + [Sent(x, results, userdata)], slots := s.slots[i := slot]);
      if fate != Gone then (s', Failed)
      else (s'.(slots := s.slots[i := slot.(inuse := true)], numFree := s.numFree - 1,
                owner := s.owner[i := |s.sends|]), Accepted)
  }

  function FreeSlot(s: State, i: nat): State
    requires i < |s.slots| == |s.owner|
  {
    s.(slots := s.slots[i := s.slots[i].(inuse := false)], numFree := s.numFree + 1, done := s.done + {s.owner[i]})
  }

  // clntaudp_wait, from the arrival of a datagram on
  function PacketStep(s: State, xid: int, verdict: Verdict): (State, Output)
    requires |s.owner| == |s.slots|
  {
    var i := FirstMatch(s.slots, xid);
    if i == |s.slots| then (s, Ignored)
    else
      var slot := s.slots[i];
      if verdict.Rejected? && verdict.refreshed && slot.refreshes > 0 then
        (s.(slots := s.slots[i := slot.(refreshes := slot.refreshes - 1)]), Stuck(slot.results, slot.userdata))
      else
        (FreeSlot(s, i), Delivered(slot.results, slot.userdata, verdict.Good?))
  }

  // clntaudp_wait when select() times out: the slots from i on in turn; extend
  // says for which of them the user grants more time
  function TickStep(s: State, i: nat, wait: nat, total: nat, extend: nat -> bool): (State, Output)
    requires i <= |s.slots|
    decreases |s.slots| - i
  {
    if i == |s.slots| then (s, TimedOut)
    else if !s.slots[i].inuse then TickStep(s, i + 1, wait, total, extend)
    else
      var s' := s.(slots := s.slots[i := s.slots[i].(waited := s.slots[i].waited + wait)]);
      if s.slots[i].waited + wait < total || extend(i) then (s', Resent(i))
      else TickStep(s', i + 1, wait, total, extend)
  }

  // clntaudp_abort
  function AbortSlots(slots: seq<Slot>): (r: seq<Slot>)
    ensures |r| == |slots|
    ensures forall i :: 0 <= i < |r| ==> r[i] == slots[i].(inuse := false)
  {
    if slots == [] then [] else [slots[0].(inuse := false)] + AbortSlots(slots[1..])
  }

  function AbortStep(s: State): State {
    s.(slots := AbortSlots(s.slots), numFree := s.numFree + (|s.slots| - CountFree(s.slots)))
  }

  // clntaudp_call builds its message in the buffer of slot 0.
  function CallStep(s: State, results: int): State
    requires |s.slots| > 0
  {
    var x := Bump(s.xid);
    s.(xid := x, sends := s.sends + [Sent(x, results, 0)], slots := s.slots[0 := s.slots[0].(xid := x)])
  }

  function Step(s: State, e: Event): (r: (State, Output))
    requires |s.owner| == |s.slots| > 0
    ensures |r.0.owner| == |r.0.slots| == |s.slots|
  {
    match e
    case Send(proc, results, userdata, fate) => SendStep(s, proc, results, userdata, fate)
    case Packet(xid, verdict) => PacketStep(s, xid, verdict)
    case Tick(wait, total, extend) => TickShape(s, 0, wait, total, extend); TickStep(s, 0, wait, total, extend)
    case Abort => (AbortStep(s), Silent)
    case Call(results) => (CallStep(s, results), Silent)
  }

  // A timeout changes nothing but waiting times.
  lemma {:induction false} TickShape(s: State, i: nat, wait: nat, total: nat, extend: nat -> bool)
    requires i <= |s.slots|
    ensures var s' := TickStep(s, i, wait, total, extend).0;
      && s' == s.(slots := s'.slots) && |s'.slots| == |s.slots|
      && (forall k :: 0 <= k < |s.slots| ==> s'.slots[k] == s.slots[k].(waited := s'.slots[k].waited))
    decreases |s.slots| - i
  {
    if i < |s.slots| {
      if !s.slots[i].inuse {
        TickShape(s, i + 1, wait, total, extend);
      } else if !(s.slots[i].waited + wait < total || extend(i)) {
        TickShape(s.(slots := s.slots[i := s.slots[i].(waited := s.slots[i].waited + wait)]), i + 1, wait, total, extend);
      }
    }
  }

  // ---- What is sent again, given up, refused -------------------------------------------

  // With the coming interval slot k has waited as long as a request may.
  ghost predicate Spent(s: State, k: nat, wait: nat, total: nat, extend: nat -> bool)
    requires k < |s.slots|
  {
    !extend(k) && s.slots[k].waited + wait >= total
  }

  // A silent interval ends the wait exactly if every request has spent its time.
  // Otherwise the first that has not is sent again, and exactly the slots in use
  // up to that one have waited an interval longer.
  lemma {:induction false} TickExactly(s: State, i: nat, wait: nat, total: nat, extend: nat -> bool)
    requires i <= |s.slots|
    ensures var (s', out) := TickStep(s, i, wait, total, extend);
      && |s'.slots| == |s.slots|
      && (out == TimedOut <==> forall k :: i <= k < |s.slots| && s.slots[k].inuse ==> Spent(s, k, wait, total, extend))
      && (out != TimedOut ==>
        && out.Resent? && i <= out.slot < |s.slots| && s.slots[out.slot].inuse && !Spent(s, out.slot, wait, total, extend)
        && forall k :: i <= k < out.slot && s.slots[k].inuse ==> Spent(s, k, wait, total, extend))
      && (forall k :: 0 <= k < |s.slots| ==>
        s'.slots[k].waited == s.slots[k].waited + if i <= k && s.slots[k].inuse && (out == TimedOut || k <= out.slot) then wait else 0)
    decreases |s.slots| - i
  {
    if i < |s.slots| {
      if !s.slots[i].inuse {
        TickExactly(s, i + 1, wait, total, extend);
      } else if Spent(s, i, wait, total, extend) {
        var s1 := s.(slots := s.slots[i := s.slots[i].(waited := s.slots[i].waited + wait)]);
        TickExactly(s1, i + 1, wait, total, extend);
        assert forall k :: i < k < |s.slots| ==> Spent(s1, k, wait, total, extend) == Spent(s, k, wait, total, extend);
      }
    }
  }

  // A send is refused exactly if all slots are in use, or one is in use for
  // another procedure; otherwise it is accepted exactly if the message goes out.
  lemma SendExactly(s: State, proc: int, results: int, userdata: int, fate: Fate)
    requires Inv(s)
    ensures var out := SendStep(s, proc, results, userdata, fate).1;
      && (out == Refused <==>
        (forall i :: 0 <= i < |s.slots| ==> s.slots[i].inuse) || (s.proc != proc && exists i :: 0 <= i < |s.slots| && s.slots[i].inuse))
      && (out == Accepted <==> out != Refused && fate == Gone)
  {
    hide Nth, Bump;
    CountBounds(s.slots);
  }

  // A message keeps its slot the first two times that its credentials are rejected
  // and could be refreshed (it is not sent again); a third rejection, and any that
  // cannot be helped, frees the slot.
  lemma RefreshedTwice(s: State, proc: int, results: int, userdata: int)
    requires Inv(s) && |s.sends| < 0x1_0000 && SendStep(s, proc, results, userdata, Gone).1 == Accepted
    ensures var s0 := SendStep(s, proc, results, userdata, Gone).0;
      var (s1, o1) := PacketStep(s0, s0.xid, Rejected(true));
      var (s2, o2) := PacketStep(s1, s0.xid, Rejected(true));
      var o3 := PacketStep(s2, s0.xid, Rejected(true)).1;
      && o1 == o2 == Stuck(results, userdata) && o3 == Delivered(results, userdata, false)
      && PacketStep(s0, s0.xid, Rejected(false)).1 == Delivered(results, userdata, false)
  {
    hide Bump;
    var s0 := SendStep(s, proc, results, userdata, Gone).0;
    var i := FirstFree(s.slots);
    NewIdIsNew(s, proc, results, userdata);
    MatchIs(s0.slots, s0.xid, i);
    var s1 := PacketStep(s0, s0.xid, Rejected(true)).0;
    MatchIs(s1.slots, s0.xid, i);
    var s2 := PacketStep(s1, s0.xid, Rejected(true)).0;
    MatchIs(s2.slots, s0.xid, i);
  }

  lemma MatchIs(slots: seq<Slot>, xid: int, i: nat)
    requires i < |slots| && slots[i].inuse && slots[i].xid == xid
    requires forall k :: 0 <= k < |slots| && slots[k].inuse && slots[k].xid == xid ==> k == i
    ensures FirstMatch(slots, xid) == i
  {
  }

  // ---- The invariant --------------------------------------------------------------

  ghost predicate Owns(s: State, i: nat)
    requires i < |s.slots| == |s.owner|
  {
    && 0 <= s.owner[i] < |s.sends| && s.owner[i] !in s.done
    && s.sends[s.owner[i]] == Sent(s.slots[i].xid, s.slots[i].results, s.slots[i].userdata)
  }

  ghost predicate Inv(s: State) {
    && |s.slots| == |s.owner| > 0
    && s.numFree == CountFree(s.slots)
    && s.xid == Nth(s.start, |s.sends|)
    && (forall k :: 0 <= k < |s.sends| ==> s.sends[k].xid == Nth(s.start, k + 1))
    && (forall k :: k in s.done ==> 0 <= k < |s.sends|)
    && (forall i :: 0 <= i < |s.slots| && s.slots[i].inuse ==> Owns(s, i))
    && (forall i, j :: 0 <= i < j < |s.slots| && s.slots[i].inuse && s.slots[j].inuse ==> s.owner[i] != s.owner[j])
  }

  // Message k is awaited by some slot.
  ghost predicate Live(s: State, k: int)
    requires |s.slots| == |s.owner|
  {
    exists i :: 0 <= i < |s.slots| && s.slots[i].inuse && s.owner[i] == k
  }

  lemma {:induction false} CountUpdate(slots: seq<Slot>, i: nat, t: Slot)
    requires i < |slots|
    ensures CountFree(slots[i := t]) == CountFree(slots)
      + (if t.inuse then 0 else 1) - (if slots[i].inuse then 0 else 1)
  {
    if i > 0 {
      assert slots[i := t][1..] == slots[1..][i - 1 := t];
      CountUpdate(slots[1..], i - 1, t);
    }
  }

  lemma {:induction false} CountSame(a: seq<Slot>, b: seq<Slot>)
    requires |a| == |b| && forall i :: 0 <= i < |a| ==> a[i].inuse == b[i].inuse
    ensures CountFree(a) == CountFree(b)
  {
    if a != [] {
      CountSame(a[1..], b[1..]);
    }
  }

  // The free counter is between 0 and the number of slots, and hits the bounds
  // exactly when all slots are in use, or none is.
  lemma {:induction false} CountBounds(slots: seq<Slot>)
    ensures 0 <= CountFree(slots) <= |slots|
    ensures CountFree(slots) == 0 <==> FirstFree(slots) == |slots|
    ensures CountFree(slots) == |slots| <==> forall i :: 0 <= i < |slots| ==> !slots[i].inuse
  {
    if slots != [] {
      CountBounds(slots[1..]);
      assert forall i :: 1 <= i < |slots| ==> slots[1..][i - 1] == slots[i];
    }
  }

  lemma SendKeeps(s: State, proc: int, results: int, userdata: int, fate: Fate)
    requires Inv(s)
    ensures Inv(SendStep(s, proc, results, userdata, fate).0)
  {
    BumpNth(s.start, |s.sends|);
    var i := FirstFree(s.slots);
    if i < |s.slots| {
      var x := Bump(s.xid);
      CountUpdate(s.slots, i, Slot(false, x, results, userdata, 0, 2));
      CountUpdate(s.slots, i, Slot(true, x, results, userdata, 0, 2));
      var s' := SendStep(s, proc, results, userdata, fate).0;
      forall k | 0 <= k < |s'.slots| && s'.slots[k].inuse ensures Owns(s', k) {
        if k != i { assert Owns(s, k); }
      }
    }
  }

  lemma PacketKeeps(s: State, xid: int, verdict: Verdict)
    requires Inv(s)
    ensures Inv(PacketStep(s, xid, verdict).0) && PacketStep(s, xid, verdict).0.sends == s.sends
  {
    var i := FirstMatch(s.slots, xid);
    if i < |s.slots| {
      CountUpdate(s.slots, i, s.slots[i].(inuse := false));
      CountUpdate(s.slots, i, s.slots[i].(refreshes := s.slots[i].refreshes - 1));
      assert Owns(s, i);
    }
  }

  lemma TickKeeps(s: State, wait: nat, total: nat, extend: nat -> bool)
    requires Inv(s)
    ensures Inv(TickStep(s, 0, wait, total, extend).0)
  {
    TickShape(s, 0, wait, total, extend);
    var s' := TickStep(s, 0, wait, total, extend).0;
    CountSame(s.slots, s'.slots);
    forall i | 0 <= i < |s'.slots| && s'.slots[i].inuse ensures Owns(s', i) {
      assert Owns(s, i);
    }
  }

  lemma AbortKeeps(s: State)
    requires Inv(s)
    ensures Inv(AbortStep(s)) && AbortStep(s).numFree == |s.slots|
  {
    CountBounds(AbortStep(s).slots);
  }

  // clntaudp_call keeps the invariant exactly when slot 0 is idle.
  lemma CallKeeps(s: State, results: int)
    requires Inv(s) && |s.sends| < 0x1_0000
    ensures Inv(CallStep(s, results)) <==> !s.slots[0].inuse
  {
    BumpNth(s.start, |s.sends|);
    var s' := CallStep(s, results);
    CountUpdate(s.slots, 0, s.slots[0].(xid := Bump(s.xid)));
    if s.slots[0].inuse {
      assert Owns(s, 0);
      SameXid(s.start, |s.sends| + 1, s.owner[0] + 1);
      assert !Owns(s', 0);
    } else {
      forall i | 0 <= i < |s'.slots| && s'.slots[i].inuse ensures Owns(s', i) { assert Owns(s, i); }
    }
  }

  // ---- Matching -------------------------------------------------------------------

  lemma StepKeeps(s: State, e: Event)
    requires Inv(s) && (e.Call? ==> !s.slots[0].inuse && |s.sends| < 0x1_0000)
    ensures Inv(Step(s, e).0)
    ensures s.sends <= Step(s, e).0.sends && s.done <= Step(s, e).0.done
    ensures Step(s, e).0.start == s.start
  {
    match e
    case Send(proc, results, userdata, fate) => SendKeeps(s, proc, results, userdata, fate);
    case Packet(xid, verdict) => PacketKeeps(s, xid, verdict);
    case Tick(wait, total, extend) => TickShape(s, 0, wait, total, extend); TickKeeps(s, wait, total, extend);
    case Abort => AbortKeeps(s);
    case Call(results) => CallKeeps(s, results);
  }

  // The same messages are awaited in s and t.
  ghost predicate SameWaits(s: State, t: State) {
    && |s.owner| == |s.slots| == |t.slots| == |t.owner|
    && t.sends == s.sends && t.start == s.start && t.done == s.done && t.numFree == s.numFree
    && forall j :: Live(t, j) <==> Live(s, j)
  }

  // The wait for message k has ended, and nothing else.
  ghost predicate Completed(s: State, t: State, k: nat) {
    && |s.owner| == |s.slots| == |t.slots| == |t.owner|
    && t.sends == s.sends && t.start == s.start && t.done == s.done + {k} && t.numFree == s.numFree + 1
    && forall j :: Live(t, j) <==> Live(s, j) && j != k
  }

  lemma WaitsSame(s: State)
    requires Inv(s)
    ensures SameWaits(s, s)
  {
  }

  lemma WaitsCompose(s: State, t: State, u: State)
    requires SameWaits(s, t)
    ensures SameWaits(t, u) ==> SameWaits(s, u)
    ensures forall k: nat :: Completed(t, u, k) && Live(t, k) ==> Completed(s, u, k) && Live(s, k)
  {
  }

  // An id in use belongs to the message it was given to.
  lemma MatchOwner(s: State, k: nat)
    requires Inv(s) && |s.sends| <= 0x1_0000 && k < |s.sends|
    ensures var i := FirstMatch(s.slots, s.sends[k].xid);
      if Live(s, k) then i < |s.slots| && Owns(s, i) && s.owner[i] == k else i == |s.slots|
  {
    if j :| 0 <= j < |s.slots| && s.slots[j].inuse && s.owner[j] == k {
      assert Owns(s, j);
    }
    var i := FirstMatch(s.slots, s.sends[k].xid);
    if i < |s.slots| {
      assert Owns(s, i);
      SameXid(s.start, s.owner[i] + 1, k + 1);
    }
  }

  // Changing one slot in use affects its own message only.
  lemma SlotWaits(s: State, t: State, i: nat, j: int)
    requires Inv(s) && i < |s.slots| && s.slots[i].inuse
    requires t.owner == s.owner && |t.slots| == |s.slots|
    requires forall m :: 0 <= m < |s.slots| && m != i ==> t.slots[m] == s.slots[m]
    ensures Live(t, j) <==> Live(s, j) && (j != s.owner[i] || t.slots[i].inuse)
  {
  }

  // While no more than 65536 messages were sent, a reply to message k completes
  // the wait with what was passed to that very send if message k is still
  // awaited, and is ignored otherwise.
  lemma ReplyMatches(s: State, k: nat, verdict: Verdict)
    requires Inv(s) && |s.sends| <= 0x1_0000 && k < |s.sends|
    ensures var (s', out) := PacketStep(s, s.sends[k].xid, verdict);
      if !Live(s, k) then s' == s && out == Ignored
      else if verdict.Rejected? && verdict.refreshed && out.Stuck? then
        out == Stuck(s.sends[k].results, s.sends[k].userdata) && SameWaits(s, s')
      else
        && out == Delivered(s.sends[k].results, s.sends[k].userdata, verdict.Good?)
        && k !in s.done && Completed(s, s', k)
  {
    hide Live, FirstMatch, Nth;
    MatchOwner(s, k);
    var i := FirstMatch(s.slots, s.sends[k].xid);
    if i < |s.slots| {
      var s' := PacketStep(s, s.sends[k].xid, verdict).0;
      forall j ensures Live(s', j) <==> Live(s, j) && (s'.slots[i].inuse || j != k) {
        SlotWaits(s, s', i, j);
      }
    }
  }

  // The id of an accepted message is in use in its own slot only.
  lemma NewIdIsNew(s: State, proc: int, results: int, userdata: int)
    requires Inv(s) && |s.sends| < 0x1_0000 && SendStep(s, proc, results, userdata, Gone).1 == Accepted
    ensures var t := SendStep(s, proc, results, userdata, Gone).0;
      var i := FirstFree(s.slots);
      && t.slots[i] == Slot(true, t.xid, results, userdata, 0, 2)
      && forall k :: 0 <= k < |t.slots| && t.slots[k].inuse && t.slots[k].xid == t.xid ==> k == i
  {
    hide Nth, Bump;
    var t := SendStep(s, proc, results, userdata, Gone).0;
    var i := FirstFree(s.slots);
    SendKeeps(s, proc, results, userdata, Gone);
    forall k | 0 <= k < |t.slots| && t.slots[k].inuse && t.slots[k].xid == t.xid ensures k == i {
      assert Owns(t, k) && Owns(t, i);
      SameXid(t.start, t.owner[k] + 1, t.owner[i] + 1);
    }
  }

  // An accepted send makes its own message awaited, a failed one nothing.
  lemma SendWaits(s: State, proc: int, results: int, userdata: int, fate: Fate)
    requires Inv(s)
    ensures var (t, out) := SendStep(s, proc, results, userdata, fate);
      match out
      case Refused => t == s
      case _ =>
        && t.sends == s.sends + [Sent(t.xid, results, userdata)]
        && t.numFree == s.numFree - (if out.Accepted? then 1 else 0) && |t.slots| == |s.slots| == |t.owner|
        && t.done == s.done
        && forall j :: Live(t, j) <==> Live(s, j) || (out.Accepted? && j == |s.sends|)
  {
    var t := SendStep(s, proc, results, userdata, fate).0;
    var i := FirstFree(s.slots);
    forall j ensures t != s ==> (Live(t, j) <==> Live(s, j) || (t.slots[i].inuse && j == |s.sends|)) {
      if m :| 0 <= m < |t.slots| && t.slots[m].inuse && t.owner[m] == j && m != i {
        assert s.slots[m].inuse && s.owner[m] == j;
      }
      if m :| 0 <= m < |s.slots| && s.slots[m].inuse && s.owner[m] == j {
        assert t.slots[m].inuse && t.owner[m] == j;
      }
      if t != s && t.slots[i].inuse {
        assert t.owner[i] == |s.sends|;
      }
    }
  }

  // A timeout leaves the same messages awaited.
  lemma TickWaits(s: State, wait: nat, total: nat, extend: nat -> bool)
    requires Inv(s)
    ensures SameWaits(s, TickStep(s, 0, wait, total, extend).0)
  {
    TickShape(s, 0, wait, total, extend);
    var s' := TickStep(s, 0, wait, total, extend).0;
    forall j ensures Live(s', j) <==> Live(s, j) {
      if Live(s', j) {
        var m :| 0 <= m < |s'.slots| && s'.slots[m].inuse && s'.owner[m] == j;
        assert s.slots[m].inuse && s.owner[m] == j;
      }
      if Live(s, j) {
        var m :| 0 <= m < |s.slots| && s.slots[m].inuse && s.owner[m] == j;
        assert s'.slots[m].inuse && s'.owner[m] == j;
      }
    }
  }

  // All slots are free exactly when no message is awaited.
  lemma AllFree(s: State)
    requires Inv(s)
    ensures s.numFree == |s.slots| <==> forall k :: !Live(s, k)
  {
    CountBounds(s.slots);
    if i :| 0 <= i < |s.slots| && s.slots[i].inuse {
      assert Live(s, s.owner[i]);
    }
  }

  // Once a message is no longer awaited it never is again, so its late and
  // duplicate replies are ignored for good.
  lemma DeadStaysDead(s: State, e: Event, k: nat)
    requires Inv(s) && k < |s.sends| && !Live(s, k)
    ensures !Live(Step(s, e).0, k)
  {
    var s' := Step(s, e).0;
    if e.Tick? { TickShape(s, 0, e.wait, e.total, e.extend); }
    assert forall i :: 0 <= i < |s'.slots| && s'.slots[i].inuse ==> s'.owner[i] != k;
  }

  // After an abort no message is awaited.
  lemma AbortForgets(s: State, k: int)
    requires Inv(s)
    ensures !Live(AbortStep(s), k)
  {
  }

  // ---- Whole runs -----------------------------------------------------------------

  function Run(s: State, es: seq<Event>): (r: (State, seq<Output>))
    requires |s.owner| == |s.slots| > 0
    ensures |r.1| == |es| && |r.0.owner| == |r.0.slots| == |s.slots|
    decreases |es|
  {
    if es == [] then (s, [])
    else
      var (s1, out) := Step(s, es[0]);
      var (s2, outs) := Run(s1, es[1..]);
      (s2, [out] + outs)
  }

  // Synchronous calls are made only while slot 0 is idle.
  ghost predicate CallsWhenIdle(s: State, es: seq<Event>)
    requires |s.owner| == |s.slots| > 0
    decreases |es|
  {
    es == [] || ((es[0].Call? ==> !s.slots[0].inuse) && CallsWhenIdle(Step(s, es[0]).0, es[1..]))
  }

  lemma {:induction false} RunKeeps(s: State, es: seq<Event>)
    requires Inv(s) && CallsWhenIdle(s, es) && |Run(s, es).0.sends| <= 0x1_0000
    ensures Inv(Run(s, es).0) && s.sends <= Run(s, es).0.sends && s.done <= Run(s, es).0.done
    decreases |es|
  {
    if es != [] {
      SendsGrow(Step(s, es[0]).0, es[1..]);
      StepGrows(s, es[0]);
      StepKeeps(s, es[0]);
      RunKeeps(Step(s, es[0]).0, es[1..]);
    }
  }

  lemma StepGrows(s: State, e: Event)
    requires |s.owner| == |s.slots| > 0
    ensures s.sends <= Step(s, e).0.sends
    ensures e.Call? ==> |Step(s, e).0.sends| == |s.sends| + 1
  {
    if e.Tick? { TickShape(s, 0, e.wait, e.total, e.extend); }
  }

  lemma {:induction false} SendsGrow(s: State, es: seq<Event>)
    requires |s.owner| == |s.slots| > 0
    ensures s.sends <= Run(s, es).0.sends
    decreases |es|
  {
    if es != [] {
      StepGrows(s, es[0]);
      SendsGrow(Step(s, es[0]).0, es[1..]);
    }
  }

  // Once a message was completed or given up it is never awaited again, however
  // the run goes on.
  lemma {:induction false} NeverAgain(s: State, es: seq<Event>, k: nat)
    requires |s.owner| == |s.slots| > 0 && Inv(s) && CallsWhenIdle(s, es) && |Run(s, es).0.sends| <= 0x1_0000
    requires k < |s.sends| && !Live(s, k)
    ensures !Live(Run(s, es).0, k)
    decreases |es|
  {
    hide Inv, Step, Live;
    if es != [] {
      SendsGrow(Step(s, es[0]).0, es[1..]);
      StepGrows(s, es[0]);
      StepKeeps(s, es[0]);
      DeadStaysDead(s, es[0], k);
      NeverAgain(Step(s, es[0]).0, es[1..], k);
    }
  }

  // So every late or duplicate reply to a message is ignored for the rest of any
  // run, whether the message was completed or given up by an abort.
  lemma LateReplyIgnored(s: State, es: seq<Event>, k: nat, verdict: Verdict)
    requires |s.owner| == |s.slots| > 0 && Inv(s) && CallsWhenIdle(s, es) && |Run(s, es).0.sends| <= 0x1_0000
    requires k < |s.sends| && (!Live(s, k) || (es != [] && es[0].Abort?))
    ensures var t := Run(s, es).0; k < |t.sends| && PacketStep(t, t.sends[k].xid, verdict) == (t, Ignored)
  {
    hide Inv, Live, PacketStep;
    if Live(s, k) {
      var s1 := Step(s, es[0]).0;
      StepKeeps(s, es[0]);
      AbortForgets(s, k);
      SendsGrow(s1, es[1..]);
      NeverAgain(s1, es[1..], k);
    } else {
      NeverAgain(s, es, k);
    }
    RunKeeps(s, es);
    ReplyMatches(Run(s, es).0, k, verdict);
  }

  // Output out, given for a reply with id xid, delivers a message that was not
  // done in s and is done in t, with what that message was sent with.
  ghost predicate Delivers(s: State, t: State, xid: int, out: Output) {
    exists k: nat :: k < |t.sends| && IsReply(s, t, k, xid, out)
  }

  ghost predicate IsReply(s: State, t: State, k: nat, xid: int, out: Output)
    requires k < |t.sends|
  {
    out.Delivered? && k in t.done && k !in s.done && t.sends[k] == Sent(xid, out.results, out.userdata)
  }

  lemma StepDelivers(s: State, e: Event)
    requires Inv(s) && e.Packet? && Step(s, e).1.Delivered?
    ensures Delivers(s, Step(s, e).0, e.xid, Step(s, e).1)
  {
    var m := FirstMatch(s.slots, e.xid);
    assert Owns(s, m);
    assert IsReply(s, Step(s, e).0, s.owner[m], e.xid, Step(s, e).1);
  }

  lemma DeliversMono(r: State, s: State, t: State, u: State, xid: int, out: Output)
    requires Delivers(s, t, xid, out) && r.done <= s.done && t.done <= u.done && t.sends <= u.sends
    ensures Delivers(r, u, xid, out)
  {
    var k: nat :| k < |t.sends| && IsReply(s, t, k, xid, out);
    assert IsReply(r, u, k, xid, out);
  }

  // Different messages have different ids, so a later delivery is of another id.
  lemma DeliveredOnce(s: State, t: State, u: State, x: int, o: Output, y: int, p: Output)
    requires Inv(u) && |u.sends| <= 0x1_0000 && t.sends <= u.sends
    requires Delivers(s, t, x, o) && Delivers(t, u, y, p)
    ensures x != y
  {
    var k: nat :| k < |t.sends| && IsReply(s, t, k, x, o);
    var l: nat :| l < |u.sends| && IsReply(t, u, l, y, p);
    SameXid(u.start, k + 1, l + 1);
  }

  // Reply matching over any run: every delivery hands back what exactly the
  // message with the reply's id was sent with, and no message is delivered twice.
  lemma {:induction false} RunMatches(s: State, es: seq<Event>, i: nat)
    requires |s.owner| == |s.slots| > 0 && Inv(s) && CallsWhenIdle(s, es) && |Run(s, es).0.sends| <= 0x1_0000
    requires i < |es| && es[i].Packet? && Run(s, es).1[i].Delivered?
    ensures Delivers(s, Run(s, es).0, es[i].xid, Run(s, es).1[i])
    ensures forall j | i < j < |es| && es[j].Packet? && Run(s, es).1[j].Delivered? :: es[j].xid != es[i].xid
    decreases |es|
  {
    hide Inv, Delivers, Step, Nth;
    var s1 := Step(s, es[0]).0;
    SendsGrow(s1, es[1..]);
    StepGrows(s, es[0]);
    StepKeeps(s, es[0]);
    RunKeeps(s1, es[1..]);
    var (t, outs) := Run(s, es);
    assert outs[0] == Step(s, es[0]).1 && outs[1..] == Run(s1, es[1..]).1;
    if i > 0 {
      RunMatches(s1, es[1..], i - 1);
      DeliversMono(s, s1, t, t, es[i].xid, outs[i]);
      forall j | i < j < |es| && es[j].Packet? && outs[j].Delivered? ensures es[j].xid != es[i].xid {
        assert es[1..][j - 1] == es[j] && outs[1..][j - 1] == outs[j];
      }
    } else {
      StepDelivers(s, es[0]);
      DeliversMono(s, s, s1, t, es[0].xid, outs[0]);
      forall j | 0 < j < |es| && es[j].Packet? && outs[j].Delivered? ensures es[j].xid != es[0].xid {
        assert es[1..][j - 1] == es[j] && outs[1..][j - 1] == outs[j];
        RunMatches(s1, es[1..], j - 1);
        DeliveredOnce(s, s1, t, es[0].xid, outs[0], es[j].xid, outs[j]);
      }
    }
  }

  // ---- The two provisos are needed ------------------------------------------------

  // A call made while slot 0 waits takes over the slot's id: the reply to the
  // waiting message is lost, and a duplicate of the call's own reply completes
  // the waiting send.
  lemma CallStealsSlot(s: State, results: int)
    requires Inv(s) && |s.sends| < 0x1_0000 && s.slots[0].inuse
    ensures var s' := CallStep(s, results);
      && PacketStep(s', s.slots[0].xid, Good) == (s', Ignored)
      && PacketStep(s', s'.xid, Good).1 == Delivered(s.slots[0].results, s.slots[0].userdata, true)
  {
    hide Nth, Bump;
    BumpNth(s.start, |s.sends|);
    forall i | 0 <= i < |s.slots| && s.slots[i].inuse
      ensures s.slots[i].xid != Bump(s.xid) && (i != 0 ==> s.slots[i].xid != s.slots[0].xid)
    {
      assert Owns(s, i) && Owns(s, 0);
      SameXid(s.start, |s.sends| + 1, s.owner[i] + 1);
      SameXid(s.start, s.owner[i] + 1, s.owner[0] + 1);
    }
  }
}
