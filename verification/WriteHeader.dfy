// One write buffer header of src/wbuf.c: an 8 KB data buffer at a fixed place
// of the file and the in-place table of its dirty ranges.
module WriteHeader {
  import opened DirtyTable
  import opened ServerFile

  // The value a header stands for.
  datatype Buffer = Buffer(offs: int, table: seq<Interval>, data: seq<Byte>)

  // c is the buffer b after `d` was copied to offset `o` of it.
  ghost predicate Filled(b: Buffer, c: Buffer, o: int, d: seq<Byte>) {
    && c.offs == b.offs && 0 <= o && d != [] && o + |d| <= |b.data|
    && c.data == b.data[..o] + d + b.data[o + |d|..]
    && IsUnion(b.table, c.table, o, o + |d| - 1)
    && GrowsByOne(b.table, c.table, o)
  }

  lemma FilledBy(b: Buffer, c: Buffer, o: nat, d: seq<Byte>)
    requires Canonical(b.table) && |b.data| == MBUFSIZE && c.offs == b.offs && d != [] && o + |d| <= MBUFSIZE
    requires c.data == b.data[..o] + d + b.data[o + |d|..]
    requires c.table == Merged(b.table, o, o + |d| - 1)
    ensures Filled(b, c, o, d)
  {
    hide Merged, IsUnion, GrowsByOne, Canonical;
    MergedIsUnion(b.table, o, o + |d| - 1);
    MergedSize(b.table, o, o + |d| - 1);
  }

  class WBufHdr {
    var fileOffs: int
    var numInfo: nat
    const info: array<Interval>
    var data: array<Byte>

    constructor ()
      ensures fresh(info) && fresh(data) && info.Length == WBUFHDRINFOSIZE && data.Length == MBUFSIZE
      ensures numInfo == 0
    {
      fileOffs, numInfo := 0, 0;
      info := new Interval[WBUFHDRINFOSIZE](_ => Interval(0, 0));
      data := new Byte[MBUFSIZE](_ => 0);
    }

    ghost predicate Ok()
      reads this
    {
      info.Length == WBUFHDRINFOSIZE && numInfo <= info.Length && data.Length == MBUFSIZE
    }

    ghost function Table(): seq<Interval>
      requires Ok()
      reads this, info
    {
      info[..numInfo]
    }

    ghost function View(): Buffer
      requires Ok()
      reads this, info, data
    {
      Buffer(fileOffs, Table(), data[..])
    }

    // memmove inside the table.
    method MoveInfo(dst: nat, src: nat, n: nat)
      requires dst + n <= info.Length && src + n <= info.Length
      modifies info
      ensures forall k :: 0 <= k < info.Length ==>
        info[k] == if dst <= k < dst + n then old(info[src + (k - dst)]) else old(info[k])
    {
      forall k | 0 <= k < n {
        info[dst + k] := info[src + k];
      }
    }

    // WBufDoMelt, first half: the last entry that [..to] overlaps or touches,
    // when it touches at least the entry after `i`.
    method MeltEnd(i: nat, to: int) returns (j: nat)
      requires Ok() && i + 1 < numInfo && info[i + 1].from <= to + 1
      requires forall k :: i < k < numInfo ==> info[k].from <= info[k].to
      ensures i < j && LastTouched(info[..numInfo], j, to)
    {
      var num := numInfo;
      j := i + 1;
      while j < num - 1 && to > info[j].to
        invariant i < j < num
        invariant j == i + 1 || to > info[j - 1].to
      {
        j := j + 1;
      }
      if to + 1 < info[j].from {
        j := j - 1;
      }
    }

    // WBufDoMelt: entries `i` to `last` become one.
    method DoMelt(i: nat, offs: int, to: int) returns (ghost last: nat)
      requires Ok() && i + 1 < numInfo && info[i + 1].from <= to + 1
      requires Canonical(Table())
      modifies this`numInfo, info
      ensures Ok() && i < last && LastTouched(old(Table()), last, to)
      ensures Table() == Melted(old(Table()), i, last, offs, to)
    {
      var num := numInfo;
      var j := MeltEnd(i, to);
      last := j;
      numInfo := numInfo - (j - i);
      info[i] := Interval(Min(info[i].from, offs), Max(to, info[j].to));
      if j + 1 < num {
        MoveInfo(i + 1, j + 1, num - j - 1);
      }
    }

    // Cases A to G without a melt: entry `i` grows.
    method Stretch(i: nat, offs: int, to: int)
      requires Ok() && i < numInfo
      modifies info
      ensures Ok() && Table() == Melted(old(Table()), i, i, offs, to)
    {
      info[i] := Interval(Min(info[i].from, offs), Max(info[i].to, to));
    }

    // Cases H and I: no overlap with entry `i`, the new range goes before it.
    method InsertAt(i: nat, offs: int, to: int)
      requires Ok() && i <= numInfo < WBUFHDRINFOSIZE
      modifies this`numInfo, info
      ensures Ok() && Table() == old(Table())[..i] + [Interval(offs, to)] + old(Table())[i..]
    {
      MoveInfo(i + 1, i, numInfo - i);
      info[i] := Interval(offs, to);
      numInfo := numInfo + 1;
    }

    // The start of the update: skip the entries that end before the range.
    method Locate(offs: int) returns (i: nat)
      requires Ok()
      ensures i <= numInfo
      ensures forall k :: 0 <= k < i ==> info[k].to + 1 < offs
      ensures i < numInfo ==> offs <= info[i].to + 1
    {
      i := 0;
      while i < numInfo && !(offs <= info[i].to + 1)
        invariant 0 <= i <= numInfo
        invariant forall k :: 0 <= k < i ==> info[k].to + 1 < offs
      {
        i := i + 1;
      }
    }

    // WBufUpdateInfo: mark [offs .. offs + len - 1] dirty.
    method UpdateInfo(offs: int, len: int, ghost t: seq<Interval>)
      requires Ok() && Table() == t && Canonical(t) && numInfo < WBUFHDRINFOSIZE
      requires 0 <= offs && 0 < len && offs + len <= MBUFSIZE
      modifies this`numInfo, info
      ensures Ok() && Table() == Merged(t, offs, offs + len - 1)
    {
      hide Merged, Melted, Canonical;
      var to := offs + len - 1;
      var i := Locate(offs);
      UpdateCases(t, i, offs, to);
      if i == numInfo || to + 1 < info[i].from {
        // an empty table, case I (at the tail) and case H (before entry i)
        InsertAt(i, offs, to);
      } else if i + 1 < numInfo && to + 1 >= info[i + 1].from {
        ghost var last := DoMelt(i, offs, to);
      } else {
        assert LastTouched(t, i, to);
        Stretch(i, offs, to);
      }
    }

    // CopyMem of the caller's bytes into the data buffer.
    method CopyIn(offs: nat, d: seq<Byte>)
      requires Ok() && offs + |d| <= MBUFSIZE
      modifies data
      ensures data[..] == old(data[..offs]) + d + old(data[offs + |d|..])
    {
      forall k | 0 <= k < |d| {
        data[offs + k] := d[k];
      }
    }

    // The data and the table of one write.
    method Fill(offs: nat, d: seq<Byte>)
      requires Ok() && Canonical(Table()) && numInfo < WBUFHDRINFOSIZE
      requires d != [] && offs + |d| <= MBUFSIZE
      modifies this`numInfo, info, data
      ensures Ok() && Filled(old(View()), View(), offs, d)
    {
      hide Filled, Merged, Canonical;
      ghost var b := View();
      CopyIn(offs, d);
      assert Table() == b.table && data[..] == b.data[..offs] + d + b.data[offs + |d|..];
      UpdateInfo(offs, |d|, b.table);
      FilledBy(b, View(), offs, d);
    }
  }
}
