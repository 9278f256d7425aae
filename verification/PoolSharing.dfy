// The pool of src/mbuf.c serves the write caches and read-ahead buffers of all
// handles at once. Each of them conserves what it holds together with the free
// list; here is what that means for all of them.
module PoolSharing {
  import opened Multisets

  ghost function Held<T>(hands: seq<seq<T>>): multiset<T> {
    if hands == [] then multiset{} else multiset(hands[0]) + Held(hands[1..])
  }

  // Everything is free or in one hand, exactly once.
  ghost predicate Shared<T>(free: seq<T>, hands: seq<seq<T>>, all: set<T>) {
    multiset(free) + Held(hands) == multiset(all)
  }

  // The conservation of one owner: what it holds and what is free make up a set.
  ghost predicate Conserves<T>(free: seq<T>, hand: seq<T>, own: set<T>) {
    multiset(hand) + multiset(free) == multiset(own)
  }

  ghost function Own<T>(free: seq<T>, hand: seq<T>): set<T> {
    (set x | x in hand) + (set x | x in free)
  }

  lemma {:induction false} HeldUpdate<T>(hands: seq<seq<T>>, i: nat, hand: seq<T>)
    requires i < |hands|
    ensures Held(hands[i := hand]) + multiset(hands[i]) == Held(hands) + multiset(hand)
  {
    if i == 0 {
      assert hands[i := hand][1..] == hands[1..];
    } else {
      var rest := hands[1..][i - 1 := hand];
      assert hands[i := hand][1..] == rest;
      HeldUpdate(hands[1..], i - 1, hand);
      var first := multiset(hands[0]);
      assert (first + Held(rest)) + multiset(hands[i]) == first + (Held(rest) + multiset(hands[i]));
      assert first + (Held(hands[1..]) + multiset(hand)) == (first + Held(hands[1..])) + multiset(hand);
    }
  }

  lemma {:induction false} HandHeld<T>(hands: seq<seq<T>>, i: nat)
    requires i < |hands|
    ensures multiset(hands[i]) <= Held(hands)
  {
    if i > 0 {
      HandHeld(hands[1..], i - 1);
    }
  }

  // Every owner can go on as if it were alone: its conservation holds.
  lemma EachConserves<T>(free: seq<T>, hands: seq<seq<T>>, all: set<T>, i: nat)
    requires Shared(free, hands, all) && i < |hands|
    ensures Conserves(free, hands[i], Own(free, hands[i]))
  {
    HandHeld(hands, i);
    forall x ensures (multiset(hands[i]) + multiset(free))[x] == multiset(Own(free, hands[i]))[x] {
      assert (multiset(free) + Held(hands))[x] == multiset(all)[x] <= 1;
      assert x in multiset(hands[i]) <==> x in hands[i];
      assert x in multiset(free) <==> x in free;
    }
  }

  // No two owners hold the same thing.
  lemma HandsApart<T>(free: seq<T>, hands: seq<seq<T>>, all: set<T>, i: nat, j: nat, x: T)
    requires Shared(free, hands, all) && i < |hands| && j < |hands| && i != j && x in hands[i]
    ensures x !in hands[j] && x !in free
  {
    HeldUpdate(hands, i, []);
    HandHeld(hands[i := []], j);
    assert (Held(hands[i := []]) + multiset(hands[i]))[x] == (Held(hands) + multiset([]))[x];
    assert (multiset(free) + Held(hands))[x] == multiset(all)[x] <= 1;
    assert x in multiset(hands[i]);
    assert x in multiset(hands[j]) <==> x in hands[j];
    assert x in multiset(free) <==> x in free;
  }

  // One owner acts and conserves what it sees; all together stay conserved.
  lemma OneActs<T>(free: seq<T>, hands: seq<seq<T>>, all: set<T>, i: nat, free': seq<T>, hand': seq<T>, own: set<T>)
    requires Shared(free, hands, all) && i < |hands|
    requires Conserves(free, hands[i], own) && Conserves(free', hand', own)
    ensures Shared(free', hands[i := hand'], all)
  {
    HeldUpdate(hands, i, hand');
    assert multiset(free) + multiset(hands[i]) == multiset(own) == multiset(free') + multiset(hand');
    Exchange(multiset(free'), multiset(hand'), multiset(free), multiset(hands[i]), Held(hands[i := hand']), Held(hands));
  }

  // ---- Any number of owners in any order ---------------------------------------------

  // Owner number `who` acts; afterwards `free` is free and `hand` is in its hand.
  datatype Act<T> = Act(who: nat, free: seq<T>, hand: seq<T>)

  ghost predicate Legal<T(!new)>(free: seq<T>, hands: seq<seq<T>>, acts: seq<Act<T>>)
    decreases |acts|
  {
    if acts == [] then true
    else
      && acts[0].who < |hands|
      && Conserves(free, hands[acts[0].who], Own(free, hands[acts[0].who]))
      && Conserves(acts[0].free, acts[0].hand, Own(free, hands[acts[0].who]))
      && Legal(acts[0].free, hands[acts[0].who := acts[0].hand], acts[1..])
  }

  ghost function After<T>(free: seq<T>, hands: seq<seq<T>>, acts: seq<Act<T>>): (seq<T>, seq<seq<T>>)
    decreases |acts|
  {
    if acts == [] then (free, hands)
    else if acts[0].who < |hands| then After(acts[0].free, hands[acts[0].who := acts[0].hand], acts[1..])
    else After(free, hands, acts[1..])
  }

  lemma {:induction false} RunShares<T(!new)>(free: seq<T>, hands: seq<seq<T>>, all: set<T>, acts: seq<Act<T>>)
    requires Shared(free, hands, all) && Legal(free, hands, acts)
    ensures var (f, hs) := After(free, hands, acts); |hs| == |hands| && Shared(f, hs, all)
    decreases |acts|
  {
    hide Shared;
    if acts != [] {
      var a := acts[0];
      OneActs(free, hands, all, a.who, a.free, a.hand, Own(free, hands[a.who]));
      RunShares(a.free, hands[a.who := a.hand], all, acts[1..]);
    }
  }
}
