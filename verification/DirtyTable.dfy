// The table of dirty byte ranges that every write buffer header carries, as a
// value. Both ends of a range are inclusive offsets into the 8 KB buffer.
module DirtyTable {
  const MBUFSIZE := 8192
  const WBUFHDRINFOSIZE := 59

  datatype Interval = Interval(from: int, to: int)

  function Min(a: int, b: int): int { if a <= b then a else b }
  function Max(a: int, b: int): int { if a <= b then b else a }

  // Non-empty ranges inside the buffer, ascending, with a gap between neighbours.
  ghost predicate Canonical(t: seq<Interval>) {
    && (forall k :: 0 <= k < |t| ==> 0 <= t[k].from <= t[k].to < MBUFSIZE)
    && (forall j, k :: 0 <= j < k < |t| ==> t[j].to + 1 < t[k].from)
  }

  ghost predicate Covers(t: seq<Interval>, x: int) {
    exists k :: 0 <= k < |t| && t[k].from <= x <= t[k].to
  }

  // How many leading ranges end before `from` without touching it.
  ghost function Before(t: seq<Interval>, from: int): (n: nat)
    ensures n <= |t|
    ensures forall k :: 0 <= k < n ==> t[k].to + 1 < from
    ensures n < |t| ==> from <= t[n].to + 1
  {
    if t == [] || from <= t[0].to + 1 then 0 else 1 + Before(t[1..], from)
  }

  // How many leading ranges start at or before the byte after `to`.
  ghost function Reach(t: seq<Interval>, to: int): (n: nat)
    ensures n <= |t|
    ensures forall k :: 0 <= k < n ==> t[k].from <= to + 1
    ensures n < |t| ==> to + 1 < t[n].from
  {
    if t == [] || to + 1 < t[0].from then 0 else 1 + Reach(t[1..], to)
  }

  // The table after marking [from..to] dirty: everything that overlaps or
  // touches the new range melts into one entry.
  ghost function Merged(t: seq<Interval>, from: int, to: int): seq<Interval> {
    var i, j := Before(t, from), Reach(t, to);
    if j <= i then t[..i] + [Interval(from, to)] + t[i..]
    else t[..i] + [Interval(Min(t[i].from, from), Max(t[j - 1].to, to))] + t[j..]
  }

  lemma BeforeIs(t: seq<Interval>, from: int, n: nat)
    requires Canonical(t) && n <= |t|
    requires forall k :: 0 <= k < n ==> t[k].to + 1 < from
    requires n < |t| ==> from <= t[n].to + 1
    ensures Before(t, from) == n
  {
  }

  lemma BeforeReach(t: seq<Interval>, from: int, to: int)
    requires Canonical(t) && from <= to
    ensures Before(t, from) <= Reach(t, to)
  {
  }

  // The three parts of the merged table: what lies before, the one new or
  // melted entry, and what lies after.
  lemma MergedParts(t: seq<Interval>, from: int, to: int) returns (i: nat, j: nat, e: Interval)
    requires Canonical(t) && 0 <= from <= to < MBUFSIZE
    ensures i == Before(t, from) && j == Reach(t, to) && i <= j <= |t|
    ensures e.from == (if i < j then Min(t[i].from, from) else from)
    ensures e.to == (if i < j then Max(t[j - 1].to, to) else to)
    ensures forall k :: 0 <= k < i ==> t[k].to + 1 < e.from
    ensures forall k :: j <= k < |t| ==> e.to + 1 < t[k].from
    ensures 0 <= e.from <= from <= to <= e.to < MBUFSIZE
    ensures Merged(t, from, to) == t[..i] + [e] + t[j..]
  {
    hide Before, Reach;
    BeforeReach(t, from, to);
    i, j := Before(t, from), Reach(t, to);
    assert i < j ==> t[i].from <= t[i].to <= t[j - 1].to && t[i].from <= t[j - 1].from;
    e := if i < j then Interval(Min(t[i].from, from), Max(t[j - 1].to, to)) else Interval(from, to);
  }

  lemma PartsCanonical(t: seq<Interval>, i: nat, j: nat, e: Interval)
    requires Canonical(t) && i <= j <= |t|
    requires forall k :: 0 <= k < i ==> t[k].to + 1 < e.from
    requires forall k :: j <= k < |t| ==> e.to + 1 < t[k].from
    requires 0 <= e.from <= e.to < MBUFSIZE
    ensures Canonical(t[..i] + [e] + t[j..])
  {
  }

  lemma PartsCover(t: seq<Interval>, i: nat, j: nat, e: Interval, x: int)
    requires i <= j <= |t|
    ensures Covers(t[..i] + [e] + t[j..], x)
      <==> e.from <= x <= e.to || Covers(t[..i], x) || Covers(t[j..], x)
  {
    var m := t[..i] + [e] + t[j..];
    if e.from <= x <= e.to { assert m[i] == e; }
    if Covers(t[..i], x) {
      var k :| 0 <= k < i && t[..i][k].from <= x <= t[..i][k].to;
      assert m[k] == t[..i][k];
    }
    if Covers(t[j..], x) {
      var k :| 0 <= k < |t[j..]| && t[j..][k].from <= x <= t[j..][k].to;
      assert m[i + 1 + k] == t[j..][k];
    }
    if Covers(m, x) {
      var k :| 0 <= k < |m| && m[k].from <= x <= m[k].to;
      if k < i { assert t[..i][k] == m[k]; }
      if k > i { assert t[j..][k - i - 1] == m[k]; }
    }
  }

  lemma MiddleCovers(t: seq<Interval>, i: nat, j: nat, x: int)
    requires i <= j <= |t|
    ensures Covers(t, x) <==> Covers(t[..i], x) || Covers(t[i..j], x) || Covers(t[j..], x)
  {
  }

  // u is the canonical table of the bytes of t and of [from..to].
  ghost predicate IsUnion(t: seq<Interval>, u: seq<Interval>, from: int, to: int) {
    && Canonical(u)
    && (forall x :: Covers(u, x) <==> Covers(t, x) || from <= x <= to)
  }

  // Marking a range dirty is set union, and keeps the table canonical.
  lemma MergedIsUnion(t: seq<Interval>, from: int, to: int)
    requires Canonical(t) && 0 <= from <= to < MBUFSIZE
    ensures IsUnion(t, Merged(t, from, to), from, to)
  {
    var i, j, e := MergedParts(t, from, to);
    PartsCanonical(t, i, j, e);
    forall x ensures Covers(Merged(t, from, to), x) <==> Covers(t, x) || from <= x <= to {
      PartsCover(t, i, j, e, x);
      MiddleCovers(t, i, j, x);
      MeltedCovers(t, i, j, from, to, e, x);
    }
  }

  // Inside the melted span, everything the new entry covers was covered before
  // or is new: the gaps between melted neighbours all lie in the new range.
  lemma MeltedCovers(t: seq<Interval>, i: nat, j: nat, from: int, to: int, e: Interval, x: int)
    requires Canonical(t) && 0 <= from <= to < MBUFSIZE
    requires i == Before(t, from) && j == Reach(t, to) && i <= j
    requires e.from == (if i < j then Min(t[i].from, from) else from)
    requires e.to == (if i < j then Max(t[j - 1].to, to) else to)
    ensures e.from <= x <= e.to <==> Covers(t[i..j], x) || from <= x <= to
  {
    if e.from <= x < from { assert t[i..j][0].from <= x <= t[i..j][0].to; }
    if to < x <= e.to {
      assert t[i..j][j - i - 1] == t[j - 1];
      assert t[i..j][j - i - 1].from <= x <= t[i..j][j - i - 1].to;
    }
    if Covers(t[i..j], x) {
      var k :| 0 <= k < j - i && t[i..j][k].from <= x <= t[i..j][k].to;
      assert t[i + k] == t[i..j][k];
      assert t[i].from <= t[i + k].from && t[i + k].to <= t[j - 1].to;
    }
  }

  // What the in-place update has to do in each of its three situations.
  lemma MergedInserts(t: seq<Interval>, i: nat, from: int, to: int)
    requires Canonical(t) && 0 <= from <= to && i <= |t|
    requires forall k :: 0 <= k < i ==> t[k].to + 1 < from
    requires i < |t| ==> from <= t[i].to + 1 && to + 1 < t[i].from
    ensures Merged(t, from, to) == t[..i] + [Interval(from, to)] + t[i..]
  {
  }

  // Entries i to last as one entry, stretched over [from..to].
  ghost function Melted(t: seq<Interval>, i: nat, last: nat, from: int, to: int): seq<Interval>
    requires i <= last < |t|
  {
    t[..i] + [Interval(Min(t[i].from, from), Max(to, t[last].to))] + t[last + 1..]
  }

  // `last` is the last entry that [..to] overlaps or touches.
  ghost predicate LastTouched(t: seq<Interval>, last: nat, to: int) {
    && last < |t| && t[last].from <= to + 1
    && (last + 1 == |t| || to <= t[last].to || to + 1 < t[last + 1].from)
  }

  lemma MergedMelts(t: seq<Interval>, i: nat, last: nat, from: int, to: int)
    requires Canonical(t) && 0 <= from <= to && i <= last < |t|
    requires forall k :: 0 <= k < i ==> t[k].to + 1 < from
    requires from <= t[i].to + 1 && LastTouched(t, last, to)
    ensures Merged(t, from, to) == Melted(t, i, last, from, to)
  {
    BeforeIs(t, from, i);
    ReachLast(t, to, last);
    MergedFrom(t, i, last, from, to);
  }

  lemma ReachLast(t: seq<Interval>, to: int, last: nat)
    requires Canonical(t) && LastTouched(t, last, to)
    ensures Reach(t, to) == last + 1
  {
  }

  lemma MergedFrom(t: seq<Interval>, i: nat, last: nat, from: int, to: int)
    requires i == Before(t, from) && last + 1 == Reach(t, to) && i <= last < |t|
    ensures Merged(t, from, to) == Melted(t, i, last, from, to)
  {
  }

  lemma UpdateCases(t: seq<Interval>, i: nat, from: int, to: int)
    requires Canonical(t) && 0 <= from <= to && i <= |t|
    requires forall k :: 0 <= k < i ==> t[k].to + 1 < from
    requires i < |t| ==> from <= t[i].to + 1
    ensures i == |t| || to + 1 < t[i].from ==> Merged(t, from, to) == t[..i] + [Interval(from, to)] + t[i..]
    ensures forall last | i <= last < |t| && LastTouched(t, last, to) ::
      Merged(t, from, to) == Melted(t, i, last, from, to)
  {
    if i == |t| || to + 1 < t[i].from { MergedInserts(t, i, from, to); }
    forall last | i <= last < |t| && LastTouched(t, last, to)
      ensures Merged(t, from, to) == Melted(t, i, last, from, to)
    {
      MergedMelts(t, i, last, from, to);
    }
  }

  // There is exactly one canonical table for a set of bytes, so the two
  // properties above fix the result of every update completely.
  lemma {:induction false} CanonicalUnique(a: seq<Interval>, b: seq<Interval>)
    requires Canonical(a) && Canonical(b)
    requires forall x :: Covers(a, x) <==> Covers(b, x)
    ensures a == b
  {
    if a == [] {
      if b != [] { assert Covers(b, b[0].from); }
    } else {
      assert Covers(a, a[0].from);
      assert b != [];
      FirstIsMinimal(a, b);
      FirstIsMinimal(b, a);
      FirstEnds(a, b);
      FirstEnds(b, a);
      forall x ensures Covers(a[1..], x) <==> Covers(b[1..], x) {
        TailCovers(a, x);
        TailCovers(b, x);
      }
      CanonicalUnique(a[1..], b[1..]);
    }
  }

  lemma FirstIsMinimal(a: seq<Interval>, b: seq<Interval>)
    requires Canonical(a) && Canonical(b) && a != [] && b != []
    requires forall x :: Covers(a, x) <==> Covers(b, x)
    ensures b[0].from <= a[0].from
  {
    assert Covers(a, a[0].from);
    var k :| 0 <= k < |b| && b[k].from <= a[0].from <= b[k].to;
  }

  lemma FirstEnds(a: seq<Interval>, b: seq<Interval>)
    requires Canonical(a) && Canonical(b) && a != [] && b != []
    requires a[0].from == b[0].from
    requires forall x :: Covers(a, x) <==> Covers(b, x)
    ensures b[0].to <= a[0].to
  {
    assert !Covers(a, a[0].to + 1);
  }

  lemma TailCovers(t: seq<Interval>, x: int)
    requires Canonical(t) && t != []
    ensures Covers(t[1..], x) <==> Covers(t, x) && t[0].to < x
  {
  }

  // ---- Table size -----------------------------------------------------------

  // The bound every header keeps between two writes: 57 entries, or 58 when the
  // first byte of the buffer is dirty.
  ghost predicate Roomy(t: seq<Interval>) {
    |t| <= 57 || (|t| == 58 && t[0].from == 0)
  }

  // An update adds at most one entry, and none at all if it starts at the first
  // byte of a table whose first byte is already dirty.
  ghost predicate GrowsByOne(t: seq<Interval>, u: seq<Interval>, from: int) {
    && 1 <= |u| <= |t| + 1
    && (from == 0 || (t != [] && t[0].from == 0) ==> u[0].from == 0)
    && (from == 0 && t != [] && t[0].from == 0 ==> |u| <= |t|)
  }

  lemma MergedSize(t: seq<Interval>, from: int, to: int)
    requires Canonical(t) && 0 <= from <= to < MBUFSIZE
    ensures GrowsByOne(t, Merged(t, from, to), from)
  {
  }

  // A write that starts inside the buffer may fill the table to 59 entries, but
  // never beyond; a write at the first byte leaves the table roomy on its own.
  lemma RoomyUpdate(t: seq<Interval>, from: int, to: int)
    requires Canonical(t) && Roomy(t) && 0 <= from <= to < MBUFSIZE
    ensures |Merged(t, from, to)| <= WBUFHDRINFOSIZE
    ensures from == 0 ==> Roomy(Merged(t, from, to))
  {
  }
}
