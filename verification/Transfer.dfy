/**
 * rpc_thallium.h and serialize_defn.h on real buffers: exposing a transfer, shipping its
 * descriptors, reallocating it at the server and pulling the bytes across.
 */
module Transfer {
  import opened Basics
  import opened Wire
  import opened Layout
  import opened Masks

  /** A pointer that holds nothing usable, as after a load, is an array too short for `size`. */
  datatype DataTransfer = DataTransfer(flags: bv32, data: array<byte>, size: u64)

  datatype Region = Region(data: array<byte>, size: u64)

  datatype BulkMode = ReadOnly | WriteOnly

  datatype Bulk = NoBulk | Exposed(regions: seq<Region>, mode: BulkMode)

  /** Every region lies inside an allocated buffer. */
  ghost predicate Backed(rs: seq<Region>) {
    forall i | 0 <= i < |rs| :: rs[i].size <= rs[i].data.Length
  }

  ghost predicate Distinct(rs: seq<Region>) {
    forall i, j | 0 <= i < j < |rs| :: rs[i].data != rs[j].data
  }

  ghost function Arrays(rs: seq<Region>): set<object> {
    set r | r in rs :: r.data
  }

  ghost predicate Disjoint(rs: seq<Region>, ts: seq<Region>) { Arrays(rs) !! Arrays(ts) }

  function Snapshot(rs: seq<Region>): (bufs: seq<seq<byte>>)
    requires Backed(rs)
    reads Arrays(rs)
    ensures |bufs| == |rs|
  {
    if rs == [] then [] else
      assert rs[0] in rs && forall r | r in rs[1..] :: r in rs;
      [rs[0].data[..rs[0].size]] + Snapshot(rs[1..])
  }

  lemma {:induction false} SnapshotAt(rs: seq<Region>)
    requires Backed(rs)
    ensures forall i | 0 <= i < |rs| :: Snapshot(rs)[i] == rs[i].data[..rs[i].size]
  {
    if rs == [] {
    } else {
      SnapshotAt(rs[1..]);
    }
  }

  function Flatten(bufs: seq<seq<byte>>): seq<byte> {
    if bufs == [] then [] else bufs[0] + Flatten(bufs[1..])
  }

  /** The bytes behind a list of regions, end to end. */
  function Memory(rs: seq<Region>): seq<byte>
    requires Backed(rs)
    reads Arrays(rs)
  {
    Flatten(Snapshot(rs))
  }

  function RegionsOf(xs: seq<DataTransfer>): (rs: seq<Region>)
    ensures |rs| == |xs| && forall i | 0 <= i < |xs| :: rs[i] == Region(xs[i].data, xs[i].size)
  {
    seq(|xs|, i requires 0 <= i < |xs| => Region(xs[i].data, xs[i].size))
  }

  function DescList(xs: seq<DataTransfer>): (ds: seq<Desc>)
    ensures |ds| == |xs| && forall i | 0 <= i < |xs| :: ds[i] == Desc(xs[i].flags, xs[i].size)
  {
    seq(|xs|, i requires 0 <= i < |xs| => Desc(xs[i].flags, xs[i].size))
  }

  function Selection(xs: seq<DataTransfer>, flag: bv32): seq<Region> {
    if xs == [] then [] else
      (if Any(xs[0].flags, flag) then [Region(xs[0].data, xs[0].size)] else []) + Selection(xs[1..], flag)
  }

  lemma {:induction false} SelectionBacked(xs: seq<DataTransfer>, flag: bv32)
    ensures forall r | r in Selection(xs, flag) :: r in RegionsOf(xs)
    ensures Backed(RegionsOf(xs)) ==> Backed(Selection(xs, flag))
  {
    if xs == [] {
    } else {
      SelectionBacked(xs[1..], flag);
      assert RegionsOf(xs) == [RegionsOf(xs)[0]] + RegionsOf(xs[1..]);
    }
  }

  lemma {:induction false} SelectionDistinct(xs: seq<DataTransfer>, flag: bv32)
    requires Distinct(RegionsOf(xs))
    ensures Distinct(Selection(xs, flag))
  {
    if xs == [] {
    } else {
      var rs, tail := RegionsOf(xs), RegionsOf(xs[1..]);
      assert forall i | 0 <= i < |tail| :: tail[i] == rs[i + 1];
      SelectionDistinct(xs[1..], flag);
      SelectionBacked(xs[1..], flag);
      assert forall r | r in tail :: r.data != rs[0].data;
    }
  }

  lemma {:induction false} MemoryCons(r: Region, tail: seq<Region>)
    requires r.size <= r.data.Length && Backed(tail)
    ensures Backed([r] + tail) && Memory([r] + tail) == r.data[..r.size] + Memory(tail)
  {
    var rs := [r] + tail;
    assert rs[1..] == tail;
    assert forall i | 0 <= i < |tail| :: tail[i] == rs[i + 1];
    assert Snapshot(rs) == [r.data[..r.size]] + Snapshot(tail);
    assert Snapshot(rs)[1..] == Snapshot(tail);
  }

  lemma {:induction false} RegionsOfTail(xs: seq<DataTransfer>)
    requires xs != []
    ensures RegionsOf(xs) == [Region(xs[0].data, xs[0].size)] + RegionsOf(xs[1..])
    ensures DescList(xs)[1..] == DescList(xs[1..])
  {}

  /** The memory MakeBulk exposes is the flat view of the transfer. */
  lemma {:induction false} SelectionMemory(xs: seq<DataTransfer>, flag: bv32)
    requires Backed(RegionsOf(xs))
    ensures Backed(Selection(xs, flag))
    ensures Memory(Selection(xs, flag)) == FlatView(DescList(xs), Snapshot(RegionsOf(xs)), flag)
  {
    hide RegionsOf, DescList, Any, Flatten, Snapshot;
    SelectionBacked(xs, flag);
    if xs == [] {
      NoMemory();
    } else {
      var r, regions, tail := Region(xs[0].data, xs[0].size), RegionsOf(xs[1..]), Selection(xs[1..], flag);
      RegionsOfTail(xs);
      MemoryCons(r, regions);
      SelectionMemory(xs[1..], flag);
      SnapshotAt(RegionsOf(xs));
      SnapshotAt(regions);
      assert Snapshot(RegionsOf(xs))[1..] == Snapshot(regions);
      if Any(xs[0].flags, flag) {
        MemoryCons(r, tail);
      } else {
        assert Selection(xs, flag) == tail;
      }
    }
  }

  lemma {:induction false} NoMemory()
    ensures Memory([]) == []
  {}

  lemma {:induction false} SnapshotFits(xs: seq<DataTransfer>)
    requires Backed(RegionsOf(xs))
    ensures Fits(DescList(xs), Snapshot(RegionsOf(xs)))
  {
    SnapshotAt(RegionsOf(xs));
  }

  /** Changing one byte of one region changes that byte of the flat memory. */
  lemma {:induction false} FlattenUpdate(bufs: seq<seq<byte>>, j: nat, off: nat, b: byte)
    requires j < |bufs| && off < |bufs[j]|
    ensures |Flatten(bufs[..j])| + off < |Flatten(bufs)|
    ensures Flatten(bufs[j := bufs[j][off := b]]) == Flatten(bufs)[|Flatten(bufs[..j])| + off := b]
  {
    var bufs' := bufs[j := bufs[j][off := b]];
    if j == 0 {
      assert bufs'[1..] == bufs[1..];
    } else {
      FlattenUpdate(bufs[1..], j - 1, off, b);
      assert bufs'[1..] == bufs[1..][j - 1 := bufs[j][off := b]];
      assert bufs[..j][1..] == bufs[1..][..j - 1];
    }
  }

  function Extent(rs: seq<Region>): nat { if rs == [] then 0 else rs[0].size + Extent(rs[1..]) }

  /** The region, and the offset in it, where a position of the flat memory lies. */
  function Locate(rs: seq<Region>, pos: nat): (at: (nat, nat))
    requires pos < Extent(rs)
    ensures at.0 < |rs| && at.1 < rs[at.0].size && Extent(rs[..at.0]) + at.1 == pos
  {
    if pos < rs[0].size then (0, pos) else
      var (j, off) := Locate(rs[1..], pos - rs[0].size);
      assert rs[..j + 1][1..] == rs[1..][..j];
      (j + 1, off)
  }

  lemma {:induction false} ExtentIsLength(rs: seq<Region>, bufs: seq<seq<byte>>)
    requires |bufs| == |rs| && forall i | 0 <= i < |rs| :: |bufs[i]| == rs[i].size
    ensures |Flatten(bufs)| == Extent(rs)
  {
    if rs == [] {
    } else {
      ExtentIsLength(rs[1..], bufs[1..]);
    }
  }

  /** One byte lands in one region. */
  method Store(rs: seq<Region>, j: nat, off: nat, b: byte)
    requires Backed(rs) && Distinct(rs) && j < |rs| && off < rs[j].size
    modifies Arrays(rs)
    ensures |Memory(rs)| == |old(Memory(rs))| == Extent(rs) && Extent(rs[..j]) + off < Extent(rs)
    ensures Memory(rs) == old(Memory(rs))[Extent(rs[..j]) + off := b]
  {
    hide Flatten, Snapshot, Extent;
    ghost var bufs := Snapshot(rs);
    SnapshotAt(rs);
    FlattenUpdate(bufs, j, off, b);
    ExtentIsLength(rs[..j], bufs[..j]);
    ExtentIsLength(rs, bufs);
    assert rs[j] in rs;
    rs[j].data[off] := b;
    SnapshotAt(rs);
    assert Snapshot(rs) == bufs[j := bufs[j][off := b]];
  }

  lemma {:induction false} SplicedAt(now: seq<byte>, src: seq<byte>, before: seq<byte>, n: nat)
    requires n <= |src| && n <= |before| == |now|
    requires forall k | 0 <= k < |now| :: now[k] == if k < n then src[k] else before[k]
    ensures now == src[..n] + before[n..]
  {}

  /**
   * The assumed contract of thallium's `source >> target`: the first min(source, target)
   * bytes of the remote view replace those of the local view. It wants a readable remote
   * handle and a writable local one.
   */
  method Pull(source: Bulk, target: Bulk) returns (n: nat)
    requires source.Exposed? && source.mode == ReadOnly && target.Exposed? && target.mode == WriteOnly
    requires Backed(source.regions) && Backed(target.regions) && Distinct(target.regions)
    requires Disjoint(source.regions, target.regions)
    modifies Arrays(target.regions)
    ensures n == Min(|old(Memory(source.regions))|, |old(Memory(target.regions))|)
    ensures Memory(target.regions) == old(Memory(source.regions))[..n] + old(Memory(target.regions))[n..]
  {
    var local, src := target.regions, Memory(source.regions);
    ghost var before := Memory(local);
    SnapshotAt(local);
    ExtentIsLength(local, Snapshot(local));
    var limit := Min(|src|, Extent(local));
    hide Flatten, Snapshot, Extent;
    n := 0;
    ghost var now := before;
    while n < limit
      invariant n <= limit && |now| == |before|
      invariant Memory(local) == now
      invariant forall k | 0 <= k < |now| :: now[k] == if k < n then src[k] else before[k]
    {
      var (j, off) := Locate(local, n);
      Store(local, j, off, src[n]);
      now := now[n := src[n]];
      n := n + 1;
    }
    SplicedAt(now, src, before, n);
  }

  /** What is collected so far and what the remaining segments still add make up the whole. */
  ghost predicate Accumulated(xs: seq<DataTransfer>, flag: bv32, i: nat, segments: seq<Region>, sum: nat) {
    && i <= |xs|
    && segments + Selection(xs[i..], flag) == Selection(xs, flag)
    && sum + PlannedBytes(DescList(xs[i..]), flag) == PlannedBytes(DescList(xs), flag)
  }

  lemma {:induction false} AccumulateNext(xs: seq<DataTransfer>, flag: bv32, i: nat, segments: seq<Region>, sum: nat)
    requires Accumulated(xs, flag, i, segments, sum) && i < |xs|
    ensures if Any(xs[i].flags, flag)
            then Accumulated(xs, flag, i + 1, segments + [Region(xs[i].data, xs[i].size)], sum + xs[i].size)
            else Accumulated(xs, flag, i + 1, segments, sum)
  {
    hide Any;
    var rest, next := xs[i..], xs[i + 1..];
    assert rest[0] == xs[i] && rest[1..] == next && DescList(rest)[1..] == DescList(next);
    var r := [Region(xs[i].data, xs[i].size)];
    assert segments + (r + Selection(next, flag)) == segments + r + Selection(next, flag);
    assert [] + Selection(next, flag) == Selection(next, flag);
  }

  lemma {:induction false} AccumulateEnds(xs: seq<DataTransfer>, flag: bv32, segments: seq<Region>, sum: nat)
    ensures Accumulated(xs, flag, 0, [], 0)
    ensures Accumulated(xs, flag, |xs|, segments, sum) ==>
              segments == Selection(xs, flag) && sum == PlannedBytes(DescList(xs), flag)
  {
    assert xs[0..] == xs && xs[|xs|..] == [] && DescList(xs[|xs|..]) == [];
    assert [] + Selection(xs, flag) == Selection(xs, flag) && segments + [] == segments;
  }

  method MakeBulk(xfers: seq<DataTransfer>, chiFlag: bv32, tlFlag: BulkMode) returns (bulk: Bulk, sizeBytes: u64)
    ensures sizeBytes == Wrap(PlannedBytes(DescList(xfers), chiFlag))
    ensures bulk == if sizeBytes == 0 then NoBulk else Exposed(Selection(xfers, chiFlag), tlFlag)
  {
    hide Accumulated, Selection, PlannedBytes, DescList, Any, Wrap;
    sizeBytes := 0;
    var segments: seq<Region> := [];
    ghost var sum: nat := 0;
    WrapSmall(sum);
    AccumulateEnds(xfers, chiFlag, segments, sum);
    var i := 0;
    while i < |xfers|
      invariant i <= |xfers| && sizeBytes == Wrap(sum)
      invariant Accumulated(xfers, chiFlag, i, segments, sum)
    {
      var xfer := xfers[i];
      AccumulateNext(xfers, chiFlag, i, segments, sum);
      if Any(xfer.flags, chiFlag) {
        segments := segments + [Region(xfer.data, xfer.size)];
        WrapAdd(sum, xfer.size);
        sizeBytes, sum := Wrap(sizeBytes + xfer.size), sum + xfer.size;
      }
      i := i + 1;
    }
    AccumulateEnds(xfers, chiFlag, segments, sum);
    bulk := if sizeBytes != 0 then Exposed(segments, tlFlag) else NoBulk;
  }

  method MakeBulkClient(xfers: seq<DataTransfer>, chiFlag: bv32) returns (bulk: Bulk, sizeBytes: u64)
    ensures sizeBytes == Wrap(PlannedBytes(DescList(xfers), chiFlag))
    ensures bulk == if sizeBytes == 0 then NoBulk
                    else Exposed(Selection(xfers, chiFlag), if Any(chiFlag, DT_WRITE) then ReadOnly else WriteOnly)
  {
    bulk, sizeBytes := MakeBulk(xfers, chiFlag, if chiFlag & DT_WRITE != 0 then ReadOnly else WriteOnly);
  }

  method MakeBulkServer(xfers: seq<DataTransfer>, chiFlag: bv32) returns (bulk: Bulk, sizeBytes: u64)
    ensures sizeBytes == Wrap(PlannedBytes(DescList(xfers), chiFlag))
    ensures bulk == if sizeBytes == 0 then NoBulk
                    else Exposed(Selection(xfers, chiFlag), if Any(chiFlag, DT_WRITE) then WriteOnly else ReadOnly)
  {
    bulk, sizeBytes := MakeBulk(xfers, chiFlag, if chiFlag & DT_WRITE != 0 then WriteOnly else ReadOnly);
  }

  /** The bytes of a transfer's writable segments, end to end. */
  ghost function View(xs: seq<DataTransfer>): seq<byte>
    requires Backed(RegionsOf(xs))
    reads Arrays(RegionsOf(xs))
  {
    FlatView(DescList(xs), Snapshot(RegionsOf(xs)), DT_WRITE)
  }

  /** Pulling into the selected segments is a write to the transfer's flat view, and to nothing else. */
  method PullSelected(remote: Bulk, xs: seq<DataTransfer>, local: Bulk) returns (n: nat)
    requires Backed(RegionsOf(xs)) && Distinct(RegionsOf(xs)) && local == Exposed(Selection(xs, DT_WRITE), WriteOnly)
    requires remote.Exposed? && remote.mode == ReadOnly
    requires Backed(remote.regions) && Disjoint(remote.regions, RegionsOf(xs))
    modifies Arrays(RegionsOf(xs))
    ensures |old(View(xs))| == PlannedBytes(DescList(xs), DT_WRITE)
    ensures n == Min(|old(Memory(remote.regions))|, |old(View(xs))|)
    ensures View(xs) == old(Memory(remote.regions))[..n] + old(View(xs))[n..]
    ensures forall i | 0 <= i < |xs| && !Any(xs[i].flags, DT_WRITE) :: xs[i].data[..] == old(xs[i].data[..])
  {
    hide Flatten, Snapshot, RegionsOf, DescList, Selection, FlatView, PlannedBytes;
    ExposedView(xs, DT_WRITE);
    SelectionDistinct(xs, DT_WRITE);
    SelectionApart(xs, DT_WRITE);
    n := Pull(remote, local);
    SelectionMemory(xs, DT_WRITE);
  }

  class SegmentedTransfer {
    var retNode: u32
    var bulk: seq<DataTransfer>
    var md: seq<byte>

    constructor (retNode: u32, bulk: seq<DataTransfer>, md: seq<byte>)
      ensures this.retNode == retNode && this.bulk == bulk && this.md == md
    {
      this.retNode, this.bulk, this.md := retNode, bulk, md;
    }

    /** What a loading archive builds: descriptors without usable addresses. */
    constructor Load(l: Loaded)
      ensures retNode == l.retNode && md == l.md && DescList(bulk) == l.descs
      ensures forall i | 0 <= i < |bulk| :: bulk[i].data.Length == 0
    {
      retNode, md := l.retNode, l.md;
      var nowhere := new byte[0];
      bulk := seq(|l.descs|, i requires 0 <= i < |l.descs| => DataTransfer(l.descs[i].flags, nowhere, l.descs[i].size));
    }

    /** Give every segment a buffer of its own, whatever it pointed to before. */
    method AllocateBulksServer()
      modifies this`bulk
      ensures DescList(bulk) == old(DescList(bulk))
      ensures Backed(RegionsOf(bulk)) && Distinct(RegionsOf(bulk))
      ensures forall i | 0 <= i < |bulk| :: bulk[i].data.Length == bulk[i].size
      ensures fresh(Arrays(RegionsOf(bulk)))
    {
      ghost var descs := DescList(bulk);
      var i := 0;
      while i < |bulk|
        invariant i <= |bulk| && DescList(bulk) == descs
        invariant forall k | 0 <= k < i ::
                    fresh(bulk[k].data) && bulk[k].data.Length == bulk[k].size
        invariant forall k, l | 0 <= k < l < i :: bulk[k].data != bulk[l].data
      {
        var data := new byte[bulk[i].size];
        bulk := bulk[i := bulk[i].(data := data)];
        i := i + 1;
      }
    }

    method Size() returns (size: u64)
      ensures size == Wrap(TotalBytes(DescList(bulk)))
    {
      size := 0;
      ghost var descs := DescList(bulk);
      ghost var sum: nat := 0;
      var i := 0;
      while i < |bulk|
        invariant i <= |bulk| && size == Wrap(sum)
        invariant sum + TotalBytes(descs[i..]) == TotalBytes(descs)
      {
        assert descs[i..][0] == descs[i] && descs[i..][1..] == descs[i + 1..];
        WrapAdd(sum, bulk[i].size);
        size, sum := Wrap(size + bulk[i].size), sum + bulk[i].size;
        i := i + 1;
      }
    }

    /**
     * IoCallServerWrite: re-filter the list, and pull unless nothing is planned. A remote
     * handle that cannot be read from makes thallium throw, which is fatal.
     */
    method IoCallServerWrite(remote: Bulk) returns (r: Result<nat>)
      requires Backed(RegionsOf(bulk)) && Distinct(RegionsOf(bulk))
      requires remote.Exposed? ==> Backed(remote.regions) && Disjoint(remote.regions, RegionsOf(bulk))
      modifies Arrays(RegionsOf(bulk))
      ensures Wrap(PlannedBytes(DescList(bulk), DT_WRITE)) == 0 ==>
                r == Ok(0) && View(bulk) == old(View(bulk))
      ensures Wrap(PlannedBytes(DescList(bulk), DT_WRITE)) > 0 ==>
                if !(remote.Exposed? && remote.mode == ReadOnly) then r.Err? && View(bulk) == old(View(bulk))
                else
                  && r == Ok(Min(|old(Memory(remote.regions))|, PlannedBytes(DescList(bulk), DT_WRITE)))
                  && |old(View(bulk))| == PlannedBytes(DescList(bulk), DT_WRITE)
                  && View(bulk) == old(Memory(remote.regions))[..r.value] + old(View(bulk))[r.value..]
      ensures forall i | 0 <= i < |bulk| && !Any(bulk[i].flags, DT_WRITE) :: bulk[i].data[..] == old(bulk[i].data[..])
    {
      hide Flatten, Snapshot, RegionsOf, DescList, Selection, FlatView, PlannedBytes;
      var local, planned := MakeBulkServer(bulk, DT_WRITE);
      if planned == 0 {
        return Ok(0);
      }
      if remote.NoBulk? || remote.mode != ReadOnly {
        return Err("Failed to perform bulk I/O thallium");
      }
      assert unchanged(Arrays(remote.regions));
      assert Memory(remote.regions) == old(Memory(remote.regions));
      assert View(bulk) == old(View(bulk));
      var n := PullSelected(remote, bulk, local);
      return Ok(n);
    }

    /** The handler: allocate, pull, respond. `answer` is the response, `moved` the bytes pulled. */
    method RpcTaskSubmit(remote: Bulk) returns (answer: Result<int>, moved: nat)
      requires remote.Exposed? ==> Backed(remote.regions)
      modifies this`bulk
      ensures DescList(bulk) == old(DescList(bulk))
      ensures Backed(RegionsOf(bulk)) && Distinct(RegionsOf(bulk)) && fresh(Arrays(RegionsOf(bulk)))
      ensures forall i | 0 <= i < |bulk| :: bulk[i].data.Length == bulk[i].size
      ensures |View(bulk)| == PlannedBytes(DescList(bulk), DT_WRITE)
      ensures if Wrap(PlannedBytes(DescList(bulk), DT_WRITE)) == 0 then answer == Ok(0) && moved == 0
              else if !(remote.Exposed? && remote.mode == ReadOnly) then answer.Err? && moved == 0
              else
                && answer == Ok(0)
                && moved == Min(|old(Memory(remote.regions))|, PlannedBytes(DescList(bulk), DT_WRITE))
                && View(bulk)[..moved] == old(Memory(remote.regions))[..moved]
    {
      hide Flatten, Snapshot, RegionsOf, DescList, Selection, FlatView, PlannedBytes;
      ghost var theirs := if remote.Exposed? then Arrays(remote.regions) else {};
      AllocateBulksServer();
      assert theirs !! Arrays(RegionsOf(bulk)) && unchanged(theirs);
      assert remote.Exposed? ==> Memory(remote.regions) == old(Memory(remote.regions));
      SnapshotFits(bulk);
      FlatLength(DescList(bulk), Snapshot(RegionsOf(bulk)), DT_WRITE);
      var r := IoCallServerWrite(remote);
      if r.Err? {
        return Err(r.error), 0;
      }
      answer, moved := Ok(0), r.value;
    }
  }

  /** Selected and unselected segments never share a buffer when no two segments do. */
  lemma {:induction false} SelectionApart(xs: seq<DataTransfer>, flag: bv32)
    requires Distinct(RegionsOf(xs))
    ensures forall i, r | 0 <= i < |xs| && !Any(xs[i].flags, flag) && r in Selection(xs, flag) :: r.data != xs[i].data
  {
    if xs == [] {
    } else {
      var rs, tail := RegionsOf(xs), RegionsOf(xs[1..]);
      assert forall i, j | 0 <= i < j < |tail| :: tail[i] == rs[i + 1] && tail[j] == rs[j + 1];
      SelectionApart(xs[1..], flag);
      SelectionBacked(xs[1..], flag);
      forall i, r | 0 <= i < |xs| && !Any(xs[i].flags, flag) && r in Selection(xs, flag)
        ensures r.data != xs[i].data
      {
        if i > 0 {
          assert xs[i] == xs[1..][i - 1];
        } else {
          assert forall k | 0 <= k < |tail| :: tail[k] == rs[k + 1];
        }
      }
    }
  }

  /** The descriptors as saved; `addresses` are the numbers the pointers cast to. */
  function SegmentsOf(xs: seq<DataTransfer>, addresses: seq<u64>): (ss: seq<Segment>)
    requires |addresses| == |xs|
    ensures |ss| == |xs| && forall i | 0 <= i < |xs| :: ss[i] == Segment(xs[i].flags, addresses[i], xs[i].size)
  {
    seq(|xs|, i requires 0 <= i < |xs| => Segment(xs[i].flags, addresses[i], xs[i].size))
  }

  /** What IoCall puts in a request: the serialised transfer and a handle on the exposed memory. */
  method IoCall(client: SegmentedTransfer, ioFlag: bv32, addresses: seq<u64>)
    returns (remote: Bulk, wire: seq<byte>, planned: u64)
    requires |addresses| == |client.bulk|
    ensures planned == Wrap(PlannedBytes(DescList(client.bulk), ioFlag))
    ensures remote == if planned == 0 then NoBulk
                      else Exposed(Selection(client.bulk, ioFlag),
                                   if Any(ioFlag, DT_WRITE) then ReadOnly else WriteOnly)
    ensures wire == Encode(Message(client.retNode, client.md, SegmentsOf(client.bulk, addresses)))
  {
    remote, planned := MakeBulkClient(client.bulk, ioFlag);
    wire := Encode(Message(client.retNode, client.md, SegmentsOf(client.bulk, addresses)));
  }

  /** The plan survives size_t: it does not wrap around to zero. */
  ghost predicate PlanVisible(xs: seq<DataTransfer>) {
    Wrap(PlannedBytes(DescList(xs), DT_WRITE)) == 0 ==> PlannedBytes(DescList(xs), DT_WRITE) == 0
  }

  /** What the client exposes under a flag. */
  ghost function SentView(xs: seq<DataTransfer>, ioFlag: bv32): seq<byte>
    requires Backed(RegionsOf(xs))
    reads Arrays(RegionsOf(xs))
  {
    FlatView(DescList(xs), Snapshot(RegionsOf(xs)), ioFlag)
  }

  /**
   * One RpcTaskSubmit call, with any io_flag, from the client's transfer to the server's.
   * The server dies, or pulls the front of what the client exposed into buffers of its own;
   * when the flag fits the transfer every selected segment arrives whole.
   */
  method SubmitCall(client: SegmentedTransfer, ioFlag: bv32, addresses: seq<u64>, trailing: seq<byte>)
    returns (server: SegmentedTransfer, answer: Result<int>, planned: u64, moved: nat)
    requires |addresses| == |client.bulk| < TWO_TO_64 && |client.md| < TWO_TO_64
    requires Backed(RegionsOf(client.bulk))
    ensures fresh(server) && server.retNode == client.retNode && server.md == client.md
    ensures DescList(server.bulk) == DescList(client.bulk)
    ensures planned == Wrap(PlannedBytes(DescList(client.bulk), ioFlag))
    ensures answer.Err? <==> Fatal(DescList(client.bulk), ioFlag)
    ensures answer.Ok? ==> answer == Ok(0)
    ensures moved == MovedBytes(DescList(client.bulk), ioFlag)
    ensures Backed(RegionsOf(server.bulk)) && Distinct(RegionsOf(server.bulk)) && fresh(Arrays(RegionsOf(server.bulk)))
    ensures forall i | 0 <= i < |server.bulk| :: server.bulk[i].data.Length == server.bulk[i].size
    ensures moved <= |View(server.bulk)| && moved <= |SentView(client.bulk, ioFlag)|
    ensures View(server.bulk)[..moved] == SentView(client.bulk, ioFlag)[..moved]
    ensures FlagFits(DescList(client.bulk), ioFlag) ==>
              forall i | 0 <= i < |server.bulk| && Any(server.bulk[i].flags, DT_WRITE) ::
                server.bulk[i].data[..] == client.bulk[i].data[..client.bulk[i].size]
  {
    hide Flatten, Snapshot, RegionsOf, DescList, Selection, FlatView, PlannedBytes, TotalBytes,
      Encode, Decode, SegmentsOf, FlagFits, Fatal, MovedBytes;
    var remote, wire;
    remote, wire, planned := IoCall(client, ioFlag, addresses);
    WireRebuilds(client.retNode, client.md, client.bulk, addresses, trailing);
    server := new SegmentedTransfer.Load(Decode(wire + trailing).value.0);
    assert unchanged(client) && unchanged(Arrays(RegionsOf(client.bulk)));
    answer, moved := Serve(server, remote, client.bulk, ioFlag);
    if FlagFits(DescList(client.bulk), ioFlag) {
      FittingPullIsWhole(client.bulk, server.bulk, ioFlag, moved);
      Delivered(client.bulk, server.bulk);
    }
  }

  /** The handler on a freshly loaded transfer, with the handle that the client's flag made. */
  method Serve(server: SegmentedTransfer, remote: Bulk, ghost xs: seq<DataTransfer>, ghost ioFlag: bv32)
    returns (answer: Result<int>, moved: nat)
    requires Backed(RegionsOf(xs)) && DescList(server.bulk) == DescList(xs)
    requires remote == if Wrap(PlannedBytes(DescList(xs), ioFlag)) == 0 then NoBulk
                       else Exposed(Selection(xs, ioFlag), if Any(ioFlag, DT_WRITE) then ReadOnly else WriteOnly)
    modifies server`bulk
    ensures answer.Err? <==> Fatal(DescList(xs), ioFlag)
    ensures answer.Ok? ==> answer == Ok(0)
    ensures moved == MovedBytes(DescList(xs), ioFlag)
    ensures DescList(server.bulk) == DescList(xs)
    ensures Backed(RegionsOf(server.bulk)) && Distinct(RegionsOf(server.bulk)) && fresh(Arrays(RegionsOf(server.bulk)))
    ensures forall i | 0 <= i < |server.bulk| :: server.bulk[i].data.Length == server.bulk[i].size
    ensures SentView(xs, ioFlag) == old(SentView(xs, ioFlag))
    ensures moved <= |View(server.bulk)| && moved <= |SentView(xs, ioFlag)|
    ensures View(server.bulk)[..moved] == SentView(xs, ioFlag)[..moved]
  {
    hide Flatten, Snapshot, RegionsOf, DescList, Selection, FlatView, PlannedBytes, Any;
    ExposedView(xs, ioFlag);
    ghost var sent := SentView(xs, ioFlag);
    ghost var buffers := Arrays(RegionsOf(xs));
    answer, moved := server.RpcTaskSubmit(remote);
    assert unchanged(buffers) && SentView(xs, ioFlag) == sent;
  }

  /** When the flag fits, what was pulled is the client's whole writable view. */
  lemma {:induction false} FittingPullIsWhole(xs: seq<DataTransfer>, ys: seq<DataTransfer>, ioFlag: bv32, moved: nat)
    requires Backed(RegionsOf(xs)) && Backed(RegionsOf(ys)) && DescList(xs) == DescList(ys)
    requires FlagFits(DescList(xs), ioFlag) && moved == MovedBytes(DescList(xs), ioFlag)
    requires moved <= |View(ys)| && moved <= |SentView(xs, ioFlag)|
    requires View(ys)[..moved] == SentView(xs, ioFlag)[..moved]
    ensures View(ys) == View(xs)
  {
    hide Flatten, Snapshot, RegionsOf, DescList, Selection, FlatView, PlannedBytes, FlagFits;
    SnapshotFits(xs);
    ExposedView(ys, DT_WRITE);
    DeliversIffFlagFits(DescList(xs), ioFlag);
    assert ServerView(DescList(xs), Snapshot(RegionsOf(xs)), ioFlag, View(ys)) == Some(View(xs));
    assert View(ys) == View(ys)[..moved] + View(ys)[moved..];
  }

  /** With DT_WRITE only a plan that wraps around to zero keeps a call from delivering. */
  lemma {:induction false} WriteFlagFits(xs: seq<DataTransfer>)
    ensures var descs := DescList(xs);
            && !Fatal(descs, DT_WRITE) && (PlanVisible(xs) <==> FlagFits(descs, DT_WRITE))
            && MovedBytes(descs, DT_WRITE) == if PlanVisible(xs) then PlannedBytes(descs, DT_WRITE) else 0
  {
    hide DescList, PlannedBytes, Chosen;
    assert Any(DT_WRITE, DT_WRITE);
  }

  /**
   * One RpcTaskSubmit call as the benchmark makes it, with DT_WRITE. The addresses sent do
   * not matter, both ends plan the same bytes, and those are moved: each selected segment
   * arrives whole in a buffer of its own. Only a plan that wraps around to zero moves nothing.
   */
  method WriteCall(client: SegmentedTransfer, addresses: seq<u64>, trailing: seq<byte>)
    returns (server: SegmentedTransfer, answer: Result<int>, planned: u64, moved: nat)
    requires |addresses| == |client.bulk| < TWO_TO_64 && |client.md| < TWO_TO_64
    requires Backed(RegionsOf(client.bulk))
    ensures fresh(server) && answer == Ok(0)
    ensures server.retNode == client.retNode && server.md == client.md
    ensures DescList(server.bulk) == DescList(client.bulk)
    ensures planned == Wrap(PlannedBytes(DescList(client.bulk), DT_WRITE))
    ensures moved == if PlanVisible(client.bulk) then PlannedBytes(DescList(client.bulk), DT_WRITE) else 0
    ensures moved <= TotalBytes(DescList(client.bulk))
    ensures moved <= Wrap(TotalBytes(DescList(client.bulk))) <==>
              || !PlanVisible(client.bulk)
              || TotalBytes(DescList(client.bulk)) / TWO_TO_64 * TWO_TO_64 <= LeftOut(DescList(client.bulk), DT_WRITE)
    ensures Backed(RegionsOf(server.bulk)) && Distinct(RegionsOf(server.bulk)) && fresh(Arrays(RegionsOf(server.bulk)))
    ensures PlanVisible(client.bulk) ==> forall i | 0 <= i < |server.bulk| && Any(server.bulk[i].flags, DT_WRITE) ::
              server.bulk[i].data[..] == client.bulk[i].data[..client.bulk[i].size]
    ensures |server.bulk| == |client.bulk|
    ensures TotalBytes(DescList(client.bulk)) < TWO_TO_64 ==> forall i | 0 <= i < |client.bulk| ::
              && server.bulk[i].flags == client.bulk[i].flags
              && server.bulk[i].data.Length == server.bulk[i].size == client.bulk[i].size
              && (client.bulk[i].flags % 4 != 0 ==>
                    server.bulk[i].data[..] == client.bulk[i].data[..client.bulk[i].size])
  {
    hide *;
    WriteFlagFits(client.bulk);
    PlannedVersusTotal(DescList(client.bulk), DT_WRITE);
    PlannedVersusSize(DescList(client.bulk), DT_WRITE);
    server, answer, planned, moved := SubmitCall(client, DT_WRITE, addresses, trailing);
    SameDescs(server.bulk, client.bulk);
    if TotalBytes(DescList(client.bulk)) < TWO_TO_64 {
      SmallPlanVisible(client.bulk);
    }
  }

  lemma {:induction false} SameDescs(xs: seq<DataTransfer>, ys: seq<DataTransfer>)
    requires DescList(xs) == DescList(ys)
    ensures |xs| == |ys|
    ensures forall i | 0 <= i < |xs| :: xs[i].flags == ys[i].flags && xs[i].size == ys[i].size
    ensures forall i | 0 <= i < |xs| :: Any(xs[i].flags, DT_WRITE) <==> xs[i].flags % 4 != 0
  {
    assert |DescList(xs)| == |xs|;
    forall i | 0 <= i < |xs|
      ensures xs[i].flags == ys[i].flags && xs[i].size == ys[i].size
      ensures Any(xs[i].flags, DT_WRITE) <==> xs[i].flags % 4 != 0
    {
      assert DescList(xs)[i] == DescList(ys)[i];
      WriteMask(xs[i].flags);
    }
  }

  lemma {:induction false} SmallPlanVisible(xs: seq<DataTransfer>)
    requires TotalBytes(DescList(xs)) < TWO_TO_64
    ensures PlanVisible(xs)
  {
    PlannedVersusTotal(DescList(xs), DT_WRITE);
  }

  /** The server loads the client's descriptors, whatever the addresses and whatever follows on the wire. */
  lemma {:induction false} WireRebuilds(retNode: u32, md: seq<byte>, xs: seq<DataTransfer>,
                                        addresses: seq<u64>, trailing: seq<byte>)
    requires |addresses| == |xs| < TWO_TO_64 && |md| < TWO_TO_64
    ensures Decode(Encode(Message(retNode, md, SegmentsOf(xs, addresses))) + trailing)
         == Some((Loaded(retNode, md, DescList(xs)), trailing))
  {
    hide Encode, Decode;
    var message := Message(retNode, md, SegmentsOf(xs, addresses));
    RoundTrip(message, trailing);
    assert DescsOf(message.segments) == DescList(xs);
  }

  lemma {:induction false} ExposedView(xs: seq<DataTransfer>, flag: bv32)
    requires Backed(RegionsOf(xs))
    ensures Backed(Selection(xs, flag)) && Memory(Selection(xs, flag)) == SentView(xs, flag)
    ensures |SentView(xs, flag)| == PlannedBytes(DescList(xs), flag)
    ensures Arrays(Selection(xs, flag)) <= Arrays(RegionsOf(xs))
  {
    SelectionBacked(xs, flag);
    SelectionMemory(xs, flag);
    SnapshotFits(xs);
    FlatLength(DescList(xs), Snapshot(RegionsOf(xs)), flag);
  }

  /** Equal views of transfers with equal descriptors hold equal selected segments. */
  lemma {:induction false} Delivered(xs: seq<DataTransfer>, ys: seq<DataTransfer>)
    requires Backed(RegionsOf(xs)) && Backed(RegionsOf(ys)) && DescList(xs) == DescList(ys) && View(xs) == View(ys)
    ensures forall i | 0 <= i < |xs| && Any(xs[i].flags, DT_WRITE) ::
              xs[i].data[..xs[i].size] == ys[i].data[..ys[i].size]
  {
    hide Flatten, Snapshot, RegionsOf, DescList, Selection, FlatView, PlannedBytes;
    SnapshotFits(xs);
    SnapshotFits(ys);
    SnapshotAt(RegionsOf(xs));
    SnapshotAt(RegionsOf(ys));
    FlatInjective(DescList(xs), Snapshot(RegionsOf(xs)), Snapshot(RegionsOf(ys)), DT_WRITE);
    forall i | 0 <= i < |xs| && Any(xs[i].flags, DT_WRITE)
      ensures xs[i].data[..xs[i].size] == ys[i].data[..ys[i].size]
    {
      assert Any(DescList(xs)[i].flags, DT_WRITE) && DescList(xs)[i] == DescList(ys)[i];
    }
  }
}
