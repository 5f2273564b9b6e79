/**
 * The flat view that MakeBulk exposes: the selected segments, end to end. A transfer is
 * seen here as its descriptors and, beside them, the bytes each segment points to.
 */
module Layout {
  import opened Basics
  import opened Wire

  /** BIT_OPT(u32, 0), and the flag built from it. */
  const DT_EXPOSE: bv32 := 1
  const DT_WRITE: bv32 := 2 | DT_EXPOSE

  /** Every buffer has the size its descriptor announces. */
  ghost predicate Fits(descs: seq<Desc>, bufs: seq<seq<byte>>) {
    |bufs| == |descs| && forall i | 0 <= i < |descs| :: |bufs[i]| == descs[i].size
  }

  /** SegmentedTransfer::size without the wrap-around. */
  function TotalBytes(descs: seq<Desc>): nat {
    if descs == [] then 0 else descs[0].size + TotalBytes(descs[1..])
  }

  lemma {:induction false} TotalAppend(descs: seq<Desc>, d: Desc)
    ensures TotalBytes([]) == 0 && TotalBytes(descs + [d]) == TotalBytes(descs) + d.size
  {
    if descs == [] {
      assert [] + [d] == [d] && [d][1..] == [];
    } else {
      assert (descs + [d])[1..] == descs[1..] + [d];
      TotalAppend(descs[1..], d);
    }
  }

  /** The bytes MakeBulk plans for, without the wrap-around. */
  function PlannedBytes(descs: seq<Desc>, flag: bv32): nat {
    if descs == [] then 0 else
      (if Any(descs[0].flags, flag) then descs[0].size else 0) + PlannedBytes(descs[1..], flag)
  }

  function FlatView(descs: seq<Desc>, bufs: seq<seq<byte>>, flag: bv32): seq<byte>
    requires |bufs| == |descs|
  {
    if descs == [] then [] else
      (if Any(descs[0].flags, flag) then bufs[0] else []) + FlatView(descs[1..], bufs[1..], flag)
  }

  /** The server's filter takes a segment unless its flag word is a multiple of four. */
  lemma WriteMask(f: bv32)
    ensures Any(f, DT_WRITE) <==> f % 4 != 0
  {}

  /** Which segments move, and a segment flagged DT_EXPOSE alone is one of them. */
  lemma PlannedOne(f: bv32, n: u64)
    ensures PlannedBytes([Desc(f, n)], DT_WRITE) == if f % 4 != 0 then n else 0
    ensures PlannedBytes([Desc(1, n)], DT_WRITE) == n
  {
    hide Any;
    WriteMask(f);
    WriteMask(1);
    PlannedAppend([], Desc(f, n), DT_WRITE);
    PlannedAppend([], Desc(1, n), DT_WRITE);
    assert [] + [Desc(f, n)] == [Desc(f, n)] && [] + [Desc(1, n)] == [Desc(1, n)];
  }

  lemma {:induction false} FlatLength(descs: seq<Desc>, bufs: seq<seq<byte>>, flag: bv32)
    requires Fits(descs, bufs)
    ensures |FlatView(descs, bufs, flag)| == PlannedBytes(descs, flag)
  {
    if descs == [] {
    } else {
      FlatLength(descs[1..], bufs[1..], flag);
    }
  }

  lemma {:induction false} PlannedAppend(descs: seq<Desc>, d: Desc, flag: bv32)
    ensures PlannedBytes(descs + [d], flag)
         == PlannedBytes(descs, flag) + (if Any(d.flags, flag) then d.size else 0)
  {
    if descs == [] {
      assert [] + [d] == [d] && [d][1..] == [];
    } else {
      assert (descs + [d])[1..] == descs[1..] + [d];
      PlannedAppend(descs[1..], d, flag);
    }
  }

  /** Segment i of the selection sits at the offset the descriptors before it add up to. */
  lemma {:induction false} FlatAt(descs: seq<Desc>, bufs: seq<seq<byte>>, flag: bv32, i: nat, j: nat)
    requires Fits(descs, bufs) && i < |descs| && Any(descs[i].flags, flag) && j < descs[i].size
    ensures PlannedBytes(descs[..i], flag) + j < |FlatView(descs, bufs, flag)|
    ensures FlatView(descs, bufs, flag)[PlannedBytes(descs[..i], flag) + j] == bufs[i][j]
  {
    if i == 0 {
    } else {
      FlatAt(descs[1..], bufs[1..], flag, i - 1, j);
      assert descs[..i][1..] == descs[1..][..i - 1];
    }
  }

  /** Equal flat views over one descriptor list mean equal selected segments. */
  lemma FlatInjective(descs: seq<Desc>, bufs: seq<seq<byte>>, bufs': seq<seq<byte>>, flag: bv32)
    requires Fits(descs, bufs) && Fits(descs, bufs')
    requires FlatView(descs, bufs, flag) == FlatView(descs, bufs', flag)
    ensures forall i | 0 <= i < |descs| && Any(descs[i].flags, flag) :: bufs[i] == bufs'[i]
  {
    forall i | 0 <= i < |descs| && Any(descs[i].flags, flag)
      ensures bufs[i] == bufs'[i]
    {
      forall j | 0 <= j < descs[i].size
        ensures bufs[i][j] == bufs'[i][j]
      {
        FlatAt(descs, bufs, flag, i, j);
        FlatAt(descs, bufs', flag, i, j);
      }
    }
  }

  /** Planned bytes never exceed the total, and reach it exactly when no nonempty segment is left out. */
  lemma {:induction false} PlannedVersusTotal(descs: seq<Desc>, flag: bv32)
    ensures PlannedBytes(descs, flag) <= TotalBytes(descs)
    ensures PlannedBytes(descs, flag) == TotalBytes(descs)
        <==> forall i | 0 <= i < |descs| && descs[i].size > 0 :: Any(descs[i].flags, flag)
  {
    if descs == [] {
    } else {
      PlannedVersusTotal(descs[1..], flag);
      assert forall i | 0 <= i < |descs| - 1 :: descs[1..][i] == descs[i + 1];
      if PlannedBytes(descs[1..], flag) == TotalBytes(descs[1..]) {
        forall i | 1 <= i < |descs| && descs[i].size > 0
          ensures Any(descs[i].flags, flag)
        {
          assert descs[i] == descs[1..][i - 1];
        }
      }
    }
  }

  /** The bytes a flag leaves out. */
  function LeftOut(descs: seq<Desc>, flag: bv32): nat {
    if descs == [] then 0 else
      (if Any(descs[0].flags, flag) then 0 else descs[0].size) + LeftOut(descs[1..], flag)
  }

  lemma {:induction false} PlannedPlusLeftOut(descs: seq<Desc>, flag: bv32)
    ensures PlannedBytes(descs, flag) + LeftOut(descs, flag) == TotalBytes(descs)
  {
    if descs == [] {
    } else {
      PlannedPlusLeftOut(descs[1..], flag);
    }
  }

  /**
   * size() is at least the planned bytes exactly when the segments left out make up for
   * what its sum loses by wrapping around; in particular whenever it does not wrap.
   */
  lemma PlannedVersusSize(descs: seq<Desc>, flag: bv32)
    ensures PlannedBytes(descs, flag) <= Wrap(TotalBytes(descs))
        <==> TotalBytes(descs) / TWO_TO_64 * TWO_TO_64 <= LeftOut(descs, flag)
    ensures TotalBytes(descs) < TWO_TO_64 ==> PlannedBytes(descs, flag) <= Wrap(TotalBytes(descs))
  {
    PlannedPlusLeftOut(descs, flag);
    hide PlannedBytes, LeftOut, TotalBytes;
    var total := TotalBytes(descs);
    assert total == total / TWO_TO_64 * TWO_TO_64 + Wrap(total);
  }

  /** Store one byte at a position of the flat view. */
  function WriteFlat(descs: seq<Desc>, bufs: seq<seq<byte>>, flag: bv32, pos: nat, b: byte): (bufs': seq<seq<byte>>)
    requires Fits(descs, bufs) && pos < PlannedBytes(descs, flag)
    ensures Fits(descs, bufs')
  {
    if !Any(descs[0].flags, flag) then
      [bufs[0]] + WriteFlat(descs[1..], bufs[1..], flag, pos, b)
    else if pos < descs[0].size then
      bufs[0 := bufs[0][pos := b]]
    else
      [bufs[0]] + WriteFlat(descs[1..], bufs[1..], flag, pos - descs[0].size, b)
  }

  /** The segment, and the offset in it, where a position of the flat view lies. */
  function LocateFlat(descs: seq<Desc>, flag: bv32, pos: nat): (at: (nat, nat))
    requires pos < PlannedBytes(descs, flag)
    ensures at.0 < |descs| && Any(descs[at.0].flags, flag) && at.1 < descs[at.0].size
    ensures PlannedBytes(descs[..at.0], flag) + at.1 == pos
  {
    if Any(descs[0].flags, flag) && pos < descs[0].size then (0, pos) else
      var (i, off) := LocateFlat(descs[1..], flag, if Any(descs[0].flags, flag) then pos - descs[0].size else pos);
      assert descs[..i + 1][1..] == descs[1..][..i];
      (i + 1, off)
  }

  lemma StoreInTail(bufs: seq<seq<byte>>, i: nat, off: nat, b: byte)
    requires i + 1 < |bufs| && off < |bufs[i + 1]|
    ensures [bufs[0]] + bufs[1..][i := bufs[1..][i][off := b]] == bufs[i + 1 := bufs[i + 1][off := b]]
  {}

  /** Storing at a position of the view is storing in the one buffer where it lies. */
  lemma {:induction false} WriteFlatLocated(descs: seq<Desc>, bufs: seq<seq<byte>>, flag: bv32, pos: nat, b: byte)
    requires Fits(descs, bufs) && pos < PlannedBytes(descs, flag)
    ensures var (i, off) := LocateFlat(descs, flag, pos);
            WriteFlat(descs, bufs, flag, pos, b) == bufs[i := bufs[i][off := b]]
  {
    hide Any;
    if Any(descs[0].flags, flag) && pos < descs[0].size {
    } else {
      var rest := if Any(descs[0].flags, flag) then pos - descs[0].size else pos;
      WriteFlatLocated(descs[1..], bufs[1..], flag, rest, b);
      var (i, off) := LocateFlat(descs[1..], flag, rest);
      StoreInTail(bufs, i, off, b);
    }
  }

  /** WriteFlat changes that position of the view and nothing else, selected or not. */
  lemma {:induction false} WriteFlatEffect(descs: seq<Desc>, bufs: seq<seq<byte>>, flag: bv32, pos: nat, b: byte)
    requires Fits(descs, bufs) && pos < PlannedBytes(descs, flag)
    ensures pos < |FlatView(descs, bufs, flag)|
    ensures FlatView(descs, WriteFlat(descs, bufs, flag, pos, b), flag) == FlatView(descs, bufs, flag)[pos := b]
    ensures forall i | 0 <= i < |descs| && !Any(descs[i].flags, flag) ::
              WriteFlat(descs, bufs, flag, pos, b)[i] == bufs[i]
  {
    FlatLength(descs, bufs, flag);
    var bufs' := WriteFlat(descs, bufs, flag, pos, b);
    if Any(descs[0].flags, flag) && pos < descs[0].size {
      assert bufs'[1..] == bufs[1..];
    } else {
      var rest := if Any(descs[0].flags, flag) then pos - descs[0].size else pos;
      WriteFlatEffect(descs[1..], bufs[1..], flag, rest, b);
      assert bufs'[1..] == WriteFlat(descs[1..], bufs[1..], flag, rest, b);
    }
  }

  ghost predicate SameSelection(f: bv32, g: bv32) {
    forall descs: seq<Desc> :: PlannedBytes(descs, f) == PlannedBytes(descs, g)
  }

  /** The two ends plan the same bytes for every transfer exactly when they filter by the same mask. */
  lemma MasksAgreeIff(clientFlag: bv32, serverFlag: bv32)
    ensures SameSelection(clientFlag, serverFlag) <==> clientFlag == serverFlag
  {
    if clientFlag != serverFlag {
      var x := clientFlag ^ serverFlag;
      LowestDifference(clientFlag, serverFlag);
      var d := Desc(x & (0 - x), 1);
      PlannedAppend([], d, clientFlag);
      PlannedAppend([], d, serverFlag);
      assert PlannedBytes([] + [d], clientFlag) != PlannedBytes([] + [d], serverFlag);
    }
  }

  /** The lowest bit in which two masks differ is in just one of them. */
  lemma LowestDifference(f: bv32, g: bv32)
    requires f != g
    ensures Any((f ^ g) & (0 - (f ^ g)), f) != Any((f ^ g) & (0 - (f ^ g)), g)
  {}
}
