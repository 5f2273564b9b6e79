/** When the client's io_flag picks the bytes that the server, which always filters by DT_WRITE, expects. */
module Masks {
  import opened Basics
  import opened Wire
  import opened Layout

  predicate Within(picks: seq<nat>, n: nat) { forall l | 0 <= l < |picks| :: picks[l] < n }

  /** The nonempty segments of the first k that a flag selects, by index. */
  function ChosenUpTo(descs: seq<Desc>, flag: bv32, k: nat): (picks: seq<nat>)
    requires k <= |descs|
    ensures Within(picks, k) && forall l | 0 <= l < |picks| :: descs[picks[l]].size > 0
  {
    if k == 0 then [] else
      ChosenUpTo(descs, flag, k - 1) + if Any(descs[k - 1].flags, flag) && descs[k - 1].size > 0 then [k - 1] else []
  }

  function Chosen(descs: seq<Desc>, flag: bv32): (picks: seq<nat>)
    ensures Within(picks, |descs|) && forall l | 0 <= l < |picks| :: descs[picks[l]].size > 0
  {
    ChosenUpTo(descs, flag, |descs|)
  }

  function Gather(bufs: seq<seq<byte>>, picks: seq<nat>): seq<byte>
    requires Within(picks, |bufs|)
  {
    if picks == [] then [] else
      var k := |picks| - 1;
      Gather(bufs, picks[..k]) + bufs[picks[k]]
  }

  lemma FlatCons(d: Desc, descs: seq<Desc>, b: seq<byte>, bufs: seq<seq<byte>>, flag: bv32)
    requires |descs| == |bufs|
    ensures FlatView([d] + descs, [b] + bufs, flag)
         == (if Any(d.flags, flag) then b else []) + FlatView(descs, bufs, flag)
  {
    assert ([d] + descs)[1..] == descs && ([b] + bufs)[1..] == bufs;
  }

  lemma {:induction false} FlatAppend(descs: seq<Desc>, bufs: seq<seq<byte>>, d: Desc, b: seq<byte>, flag: bv32)
    requires |descs| == |bufs|
    ensures FlatView(descs + [d], bufs + [b], flag)
         == FlatView(descs, bufs, flag) + if Any(d.flags, flag) then b else []
  {
    if descs == [] {
      FlatCons(d, [], b, [], flag);
      assert [d] + [] == [] + [d] && [b] + [] == [] + [b];
    } else {
      hide Any, FlatView;
      var first, rest, b0, bufs' := descs[0], descs[1..], bufs[0], bufs[1..];
      FlatAppend(rest, bufs', d, b, flag);
      FlatCons(first, rest, b0, bufs', flag);
      FlatCons(first, rest + [d], b0, bufs' + [b], flag);
      assert descs == [first] + rest && bufs == [b0] + bufs';
      assert descs + [d] == [first] + (rest + [d]) && bufs + [b] == [b0] + (bufs' + [b]);
    }
  }

  lemma EmptyView(flag: bv32)
    ensures FlatView([], [], flag) == []
  {}

  lemma GatherOne(bufs: seq<seq<byte>>, init: seq<nat>, i: nat)
    requires Within(init, |bufs|) && i < |bufs|
    ensures Gather(bufs, init + [i]) == Gather(bufs, init) + bufs[i]
  {
    assert (init + [i])[..|init|] == init;
  }

  /** One more segment adds its bytes when the flag selects it; an empty one adds none either way. */
  lemma ChosenNext(descs: seq<Desc>, bufs: seq<seq<byte>>, flag: bv32, k: nat)
    requires Fits(descs, bufs) && 0 < k <= |descs|
    ensures Gather(bufs, ChosenUpTo(descs, flag, k))
         == Gather(bufs, ChosenUpTo(descs, flag, k - 1)) + if Any(descs[k - 1].flags, flag) then bufs[k - 1] else []
  {
    hide Any, Gather;
    var init := ChosenUpTo(descs, flag, k - 1);
    if Any(descs[k - 1].flags, flag) && descs[k - 1].size > 0 {
      GatherOne(bufs, init, k - 1);
    } else {
      assert init + [] == init && Gather(bufs, init) + [] == Gather(bufs, init);
    }
  }

  /** The flat view is made of the chosen segments. */
  lemma {:induction false} FlatIsGathered(descs: seq<Desc>, bufs: seq<seq<byte>>, flag: bv32, k: nat)
    requires Fits(descs, bufs) && k <= |descs|
    ensures FlatView(descs[..k], bufs[..k], flag) == Gather(bufs, ChosenUpTo(descs, flag, k))
  {
    if k == 0 {
      EmptyView(flag);
    } else {
      hide FlatView, Any, Gather, ChosenUpTo;
      FlatIsGathered(descs, bufs, flag, k - 1);
      assert descs[..k] == descs[..k - 1] + [descs[k - 1]] && bufs[..k] == bufs[..k - 1] + [bufs[k - 1]];
      FlatAppend(descs[..k - 1], bufs[..k - 1], descs[k - 1], bufs[k - 1], flag);
      ChosenNext(descs, bufs, flag, k);
    }
  }

  lemma {:induction false} GatherAppend(bufs: seq<seq<byte>>, picks: seq<nat>, more: seq<nat>)
    requires Within(picks, |bufs|) && Within(more, |bufs|)
    ensures Gather(bufs, picks + more) == Gather(bufs, picks) + Gather(bufs, more)
  {
    if more == [] {
      assert picks + more == picks;
    } else {
      var k := |more| - 1;
      GatherAppend(bufs, picks, more[..k]);
      assert more == more[..k] + [more[k]] && picks + more == (picks + more[..k]) + [more[k]];
      GatherOne(bufs, more[..k], more[k]);
      GatherOne(bufs, picks + more[..k], more[k]);
    }
  }

  /** Entry k of a selection starts where the entries before it end. */
  lemma GatherAt(bufs: seq<seq<byte>>, picks: seq<nat>, k: nat)
    requires Within(picks, |bufs|) && k < |picks| && bufs[picks[k]] != []
    ensures |Gather(bufs, picks[..k])| < |Gather(bufs, picks)|
    ensures Gather(bufs, picks)[|Gather(bufs, picks[..k])|] == bufs[picks[k]][0]
  {
    GatherAppend(bufs, picks[..k + 1], picks[k + 1..]);
    GatherOne(bufs, picks[..k], picks[k]);
    assert picks[..k + 1] + picks[k + 1..] == picks && picks[..k + 1] == picks[..k] + [picks[k]];
  }

  lemma {:induction false} FirstDifference(a: seq<nat>, b: seq<nat>) returns (k: nat)
    requires !(a <= b)
    ensures k < |a| && k <= |b| && a[..k] == b[..k] && (k == |b| || a[k] != b[k])
  {
    if b == [] || a[0] != b[0] {
      k := 0;
    } else {
      k := FirstDifference(a[1..], b[1..]);
      k := k + 1;
      assert a[..k] == [a[0]] + a[1..][..k - 1] && b[..k] == [b[0]] + b[1..][..k - 1];
    }
  }

  /** Ones in segment i, zeros elsewhere. */
  function Marked(descs: seq<Desc>, i: nat): (bufs: seq<seq<byte>>)
    ensures Fits(descs, bufs)
    ensures forall k, j | 0 <= k < |descs| && 0 <= j < descs[k].size :: bufs[k][j] == if k == i then 1 else 0
  {
    seq(|descs|, k requires 0 <= k < |descs| => seq(descs[k].size, _ => if k == i then 1 as byte else 0 as byte))
  }

  ghost predicate ViewsNested(descs: seq<Desc>, f: bv32, g: bv32) {
    forall bufs | Fits(descs, bufs) :: FlatView(descs, bufs, f) <= FlatView(descs, bufs, g)
  }

  /** One flag's view starts with another's, whatever the memory, exactly when its nonempty selection does. */
  lemma ViewsNestedIff(descs: seq<Desc>, f: bv32, g: bv32)
    ensures ViewsNested(descs, f, g) <==> Chosen(descs, f) <= Chosen(descs, g)
  {
    hide ChosenUpTo, Gather, FlatView;
    var c, e := Chosen(descs, f), Chosen(descs, g);
    if c <= e {
      forall bufs | Fits(descs, bufs)
        ensures FlatView(descs, bufs, f) <= FlatView(descs, bufs, g)
      {
        ViewGathered(descs, bufs, f);
        ViewGathered(descs, bufs, g);
        GatherAppend(bufs, c, e[|c|..]);
        assert c + e[|c|..] == e;
      }
    } else {
      var k := FirstDifference(c, e);
      var bufs := Marked(descs, c[k]);
      ViewGathered(descs, bufs, f);
      ViewGathered(descs, bufs, g);
      GatherAt(bufs, c, k);
      if k < |e| {
        GatherAt(bufs, e, k);
      } else {
        assert e[..k] == e;
      }
    }
  }

  lemma ViewGathered(descs: seq<Desc>, bufs: seq<seq<byte>>, flag: bv32)
    requires Fits(descs, bufs)
    ensures FlatView(descs, bufs, flag) == Gather(bufs, Chosen(descs, flag))
  {
    FlatIsGathered(descs, bufs, flag, |descs|);
    assert descs[..|descs|] == descs && bufs[..|descs|] == bufs;
  }

  // ---- A whole call with a given io_flag ----

  function ServerPlan(descs: seq<Desc>): nat { PlannedBytes(descs, DT_WRITE) }

  /** The client exposes memory that can be read from. */
  predicate Readable(descs: seq<Desc>, ioFlag: bv32) { Wrap(PlannedBytes(descs, ioFlag)) != 0 && Any(ioFlag, DT_WRITE) }

  /** The server dies for want of a handle it can read from. */
  predicate Fatal(descs: seq<Desc>, ioFlag: bv32) { Wrap(ServerPlan(descs)) != 0 && !Readable(descs, ioFlag) }

  /** The bytes the server pulls. */
  function MovedBytes(descs: seq<Desc>, ioFlag: bv32): nat {
    if Wrap(ServerPlan(descs)) == 0 || Fatal(descs, ioFlag) then 0
    else Min(PlannedBytes(descs, ioFlag), ServerPlan(descs))
  }

  /** What a call leaves in the server's view, which held `before` as allocated. */
  ghost function ServerView(descs: seq<Desc>, bufs: seq<seq<byte>>, ioFlag: bv32, before: seq<byte>): Option<seq<byte>>
    requires Fits(descs, bufs) && |before| == ServerPlan(descs)
  {
    if Fatal(descs, ioFlag) then None else
      FlatLength(descs, bufs, ioFlag);
      var n := MovedBytes(descs, ioFlag);
      Some(FlatView(descs, bufs, ioFlag)[..n] + before[n..])
  }

  /** The call hands over the client's writable segments, whatever is in memory at either end. */
  ghost predicate AlwaysDelivers(descs: seq<Desc>, ioFlag: bv32) {
    forall bufs, before | Fits(descs, bufs) && |before| == ServerPlan(descs) ::
      ServerView(descs, bufs, ioFlag, before) == Some(FlatView(descs, bufs, DT_WRITE))
  }

  /**
   * There is nothing to deliver, or both plans are visible in size_t, the flag makes the
   * memory readable, and the segments the server wants are the first that the client exposes.
   */
  predicate FlagFits(descs: seq<Desc>, ioFlag: bv32) {
    || ServerPlan(descs) == 0
    || (Wrap(ServerPlan(descs)) != 0 && Readable(descs, ioFlag) && Chosen(descs, DT_WRITE) <= Chosen(descs, ioFlag))
  }

  lemma DeliversIffFlagFits(descs: seq<Desc>, ioFlag: bv32)
    ensures AlwaysDelivers(descs, ioFlag) <==> FlagFits(descs, ioFlag)
  {
    hide FlatView, PlannedBytes, Chosen;
    ViewsNestedIff(descs, DT_WRITE, ioFlag);
    if FlagFits(descs, ioFlag) {
      forall bufs, before | Fits(descs, bufs) && |before| == ServerPlan(descs)
        ensures ServerView(descs, bufs, ioFlag, before) == Some(FlatView(descs, bufs, DT_WRITE))
      {
        FlatLength(descs, bufs, DT_WRITE);
        FlatLength(descs, bufs, ioFlag);
        var wanted, sent := FlatView(descs, bufs, DT_WRITE), FlatView(descs, bufs, ioFlag);
        assert ServerPlan(descs) > 0 ==> wanted <= sent;
        assert !Fatal(descs, ioFlag) && MovedBytes(descs, ioFlag) == |wanted|;
        assert sent[..|wanted|] + before[|wanted|..] == wanted;
      }
    }
    if AlwaysDelivers(descs, ioFlag) && ServerPlan(descs) > 0 {
      forall bufs | Fits(descs, bufs)
        ensures FlatView(descs, bufs, DT_WRITE) <= FlatView(descs, bufs, ioFlag)
        ensures Wrap(ServerPlan(descs)) != 0 && Readable(descs, ioFlag)
      {
        ArrivesOverAnything(descs, bufs, ioFlag);
      }
      assert Fits(descs, Marked(descs, 0));
    }
  }

  /** A view that arrives over any allocated memory comes from the client, to the last byte. */
  lemma ArrivesOverAnything(descs: seq<Desc>, bufs: seq<seq<byte>>, ioFlag: bv32)
    requires AlwaysDelivers(descs, ioFlag) && ServerPlan(descs) > 0 && Fits(descs, bufs)
    ensures FlatView(descs, bufs, DT_WRITE) <= FlatView(descs, bufs, ioFlag)
    ensures Wrap(ServerPlan(descs)) != 0 && Readable(descs, ioFlag)
  {
    hide FlatView, PlannedBytes, Chosen, Readable, Any, Wrap;
    FlatLength(descs, bufs, DT_WRITE);
    FlatLength(descs, bufs, ioFlag);
    var wanted, last := FlatView(descs, bufs, DT_WRITE), ServerPlan(descs) - 1;
    var before := wanted[last := if wanted[last] == 0 then 1 else 0];
    assert before[last] != wanted[last];
    assert ServerView(descs, bufs, ioFlag, before) == Some(wanted);
  }
}
