/**
 * One RPC request at a server, from the pool to the response, in steps small enough that
 * handlers of the same node may interleave anywhere: a pull moves a single byte at a time.
 */
module Handler {
  import opened Basics
  import opened Wire
  import opened Layout

  datatype Kind = Io | Metadata

  /** What the driver sends over and over: the transfer, and the client memory behind it. */
  datatype Call = Call(kind: Kind, message: Message, bufs: seq<seq<byte>>)

  datatype Phase =
    | Queued
    | Allocated
    | Pulling(done: nat)
    | Pulled(moved: nat)
    | Answered(moved: nat)
    | Collected(moved: nat)

  /**
   * `remote` is the exposed client memory, `retNode` and `md` what the handler was given of the
   * wire, `fill` what malloc happened to return.
   */
  datatype Request = Request(
    wire: seq<byte>, remote: Option<seq<byte>>,
    retNode: Option<u32>, md: Option<seq<byte>>, descs: seq<Desc>,
    fill: seq<seq<byte>>, bufs: seq<seq<byte>>,
    phase: Phase)

  datatype Move = Start(fill: seq<seq<byte>>) | Ping | BeginPull | PullByte | EndPull | Respond

  datatype Stage = InPool | InHandler | Replied | Taken

  function StageOf(q: Request): Stage {
    match q.phase
    case Queued => InPool
    case Answered(_) => Replied
    case Collected(_) => Taken
    case _ => InHandler
  }

  function ClientDescs(call: Call): seq<Desc> { DescsOf(call.message.segments) }

  /** The bytes one call has to move. */
  function Planned(call: Call): nat { PlannedBytes(ClientDescs(call), DT_WRITE) }

  ghost predicate ValidCall(call: Call) {
    && Sendable(call.message)
    && Fits(ClientDescs(call), call.bufs)
    && Planned(call) < TWO_TO_64
    && (call.kind.Metadata? ==> call.message.segments == [])
  }

  /** A fresh request: MakeBulkClient exposes nothing when nothing is planned. */
  function NewRequest(call: Call): Request
    requires |call.bufs| == |ClientDescs(call)|
  {
    Request(
      if call.kind.Io? then Encode(call.message) else EncodeString(call.message.md),
      if Wrap(Planned(call)) == 0 then None else Some(FlatView(ClientDescs(call), call.bufs, DT_WRITE)),
      None, None, [], [], [], Queued)
  }

  /** The bytes thallium moves for this request: min(remote, local). */
  function PullSize(q: Request): nat {
    Min(if q.remote.Some? then |q.remote.value| else 0, PlannedBytes(q.descs, DT_WRITE))
  }

  ghost predicate CanMove(call: Call, q: Request, m: Move) {
    match m
    case Start(fill) =>
      call.kind.Io? && q.phase.Queued? && Decode(q.wire).Some? && Fits(Decode(q.wire).value.0.descs, fill)
    case Ping => call.kind.Metadata? && q.phase.Queued? && TakeString(q.wire).Some?
    case BeginPull =>
      q.phase.Allocated? && (Wrap(PlannedBytes(q.descs, DT_WRITE)) != 0 ==> q.remote.Some?)
    case PullByte => q.phase.Pulling? && q.phase.done < PullSize(q) && Fits(q.descs, q.bufs)
    case EndPull => q.phase.Pulling? && q.phase.done == PullSize(q)
    case Respond => q.phase.Pulled?
  }

  ghost function Moved(call: Call, q: Request, m: Move): Request
    requires CanMove(call, q, m)
  {
    match m
    case Start(fill) =>
      var loaded := Decode(q.wire).value.0;
      q.(retNode := Some(loaded.retNode), md := Some(loaded.md), descs := loaded.descs,
         fill := fill, bufs := fill, phase := Allocated)
    case Ping => q.(md := Some(TakeString(q.wire).value.0), phase := Pulled(0))
    case BeginPull =>
      q.(phase := if Wrap(PlannedBytes(q.descs, DT_WRITE)) == 0 then Pulled(0) else Pulling(0))
    case PullByte =>
      var pos := q.phase.done;
      q.(bufs := WriteFlat(q.descs, q.bufs, DT_WRITE, pos, q.remote.value[pos]), phase := Pulling(pos + 1))
    case EndPull => q.(phase := Pulled(q.phase.done))
    case Respond => q.(phase := Answered(q.phase.moved))
  }

  /** The request carries what the driver put in it. */
  ghost predicate Genuine(call: Call, q: Request)
    requires ValidCall(call)
  {
    q.wire == NewRequest(call).wire && q.remote == NewRequest(call).remote
  }

  /** The handler was given the client's string and, with a transfer, the node to return to. */
  predicate Told(call: Call, q: Request) {
    q.md == Some(call.message.md) && q.retNode == if call.kind.Io? then Some(call.message.retNode) else None
  }

  /** The server's buffers mirror the client's layout; the ones not selected are as allocated. */
  ghost predicate Mirrors(call: Call, q: Request) {
    && Told(call, q)
    && q.descs == ClientDescs(call)
    && Fits(q.descs, q.bufs)
    && Fits(q.descs, q.fill)
    && forall i | 0 <= i < |q.descs| && !Any(q.descs[i].flags, DT_WRITE) :: q.bufs[i] == q.fill[i]
  }

  /** The first `n` bytes of the flat view have arrived. */
  ghost predicate Arrived(call: Call, q: Request, n: nat)
    requires ValidCall(call)
  {
    && Mirrors(call, q)
    && n <= Planned(call) == |FlatView(q.descs, q.bufs, DT_WRITE)| == |FlatView(q.descs, call.bufs, DT_WRITE)|
    && FlatView(q.descs, q.bufs, DT_WRITE)[..n] == FlatView(q.descs, call.bufs, DT_WRITE)[..n]
  }

  ghost predicate RequestInv(call: Call, q: Request)
    requires ValidCall(call)
  {
    && Genuine(call, q)
    && match q.phase
       case Queued => q.retNode.None? && q.md.None? && q.descs == [] && q.fill == [] && q.bufs == []
       case Allocated => Mirrors(call, q)
       case Pulling(done) => Planned(call) > 0 && Arrived(call, q, done)
       case Pulled(moved) => moved == Planned(call) && Arrived(call, q, moved)
       case Answered(moved) => moved == Planned(call) && Arrived(call, q, moved)
       case Collected(moved) => moved == Planned(call) && Arrived(call, q, moved)
  }

  lemma NewRequestInv(call: Call)
    requires ValidCall(call)
    ensures RequestInv(call, NewRequest(call))
  {}

  /** A ping hands over its string; it carries no segments, so there is nothing to mirror. */
  lemma PingArrives(call: Call, q: Request)
    requires ValidCall(call) && call.kind.Metadata?
    requires RequestInv(call, q) && CanMove(call, q, Ping)
    ensures RequestInv(call, Moved(call, q, Ping))
  {
    hide EncodeString, TakeString;
    PingReads(call);
  }

  lemma PingReads(call: Call)
    requires ValidCall(call)
    ensures TakeString(EncodeString(call.message.md)) == Some((call.message.md, []))
  {
    hide EncodeString, TakeString;
    StringRoundTrip(call.message.md, []);
    assert EncodeString(call.message.md) + [] == EncodeString(call.message.md);
  }

  lemma StartMirrors(call: Call, q: Request, fill: seq<seq<byte>>)
    requires ValidCall(call) && RequestInv(call, q) && CanMove(call, q, Start(fill))
    ensures RequestInv(call, Moved(call, q, Start(fill)))
  {
    hide Encode, Decode;
    RoundTrip(call.message, []);
    assert Encode(call.message) + [] == Encode(call.message);
  }

  /** Once the whole view has arrived every selected buffer equals the client's. */
  lemma DeliveredWhole(call: Call, q: Request)
    requires ValidCall(call) && Arrived(call, q, Planned(call))
    ensures forall i | 0 <= i < |q.descs| && Any(q.descs[i].flags, DT_WRITE) :: q.bufs[i] == call.bufs[i]
  {
    var mine, theirs := FlatView(q.descs, q.bufs, DT_WRITE), FlatView(q.descs, call.bufs, DT_WRITE);
    assert mine == mine[..Planned(call)] && theirs == theirs[..Planned(call)];
    FlatInjective(q.descs, q.bufs, call.bufs, DT_WRITE);
  }

  lemma PullByteArrives(call: Call, q: Request)
    requires ValidCall(call) && RequestInv(call, q) && CanMove(call, q, PullByte)
    ensures RequestInv(call, Moved(call, q, PullByte))
  {
    hide WriteFlat, PlannedBytes, FlatView, Encode, DescsOf;
    var pos := q.phase.done;
    var theirs := FlatView(q.descs, call.bufs, DT_WRITE);
    WriteFlatEffect(q.descs, q.bufs, DT_WRITE, pos, q.remote.value[pos]);
    assert q.remote.value == theirs;
    assert theirs[..pos + 1] == theirs[..pos] + [theirs[pos]];
    var view' := FlatView(q.descs, q.bufs, DT_WRITE)[pos := theirs[pos]];
    assert view'[..pos + 1] == FlatView(q.descs, q.bufs, DT_WRITE)[..pos] + [theirs[pos]];
  }

  /** The server starts a pull exactly when the client exposed memory, and then as much as it plans. */
  lemma PullsExactlyWhenExposed(call: Call, q: Request)
    requires ValidCall(call) && RequestInv(call, q) && q.phase.Allocated?
    ensures CanMove(call, q, BeginPull)
    ensures Moved(call, q, BeginPull).phase.Pulling? <==> q.remote.Some?
    ensures q.remote.Some? ==> |q.remote.value| == Planned(call) == PullSize(q) > 0
  {
    hide Encode, FlatView, PlannedBytes, DescsOf;
    FlatLength(q.descs, call.bufs, DT_WRITE);
  }

  /** The number of steps a request still needs, the driver's wait included. */
  function Work(call: Call, q: Request): nat {
    match q.phase
    case Queued => Planned(call) + 5
    case Allocated => Planned(call) + 4
    case Pulling(done) => (if done < Planned(call) then Planned(call) - done else 0) + 3
    case Pulled(_) => 2
    case Answered(_) => 1
    case Collected(_) => 0
  }

  /** Every move keeps the request genuine and its bytes right, and uses up work. */
  lemma MoveKeepsRequest(call: Call, q: Request, m: Move)
    requires ValidCall(call) && RequestInv(call, q) && CanMove(call, q, m)
    ensures RequestInv(call, Moved(call, q, m))
    ensures Work(call, Moved(call, q, m)) < Work(call, q)
  {
    hide WriteFlat, PlannedBytes, FlatView, Encode, Decode, DescsOf, Fits, EncodeString, TakeString;
    match m
    case Start(fill) => StartMirrors(call, q, fill);
    case Ping => PingArrives(call, q);
    case BeginPull =>
      FlatLength(q.descs, q.bufs, DT_WRITE);
      FlatLength(q.descs, call.bufs, DT_WRITE);
    case PullByte => PullByteArrives(call, q);
    case EndPull =>
    case Respond =>
  }

  /** The next step of a handler; the fill of fresh buffers is arbitrary, here zeros. */
  function NextMove(call: Call, q: Request): Move {
    match q.phase
    case Queued => if call.kind.Io? then Start(Zeros(ClientDescs(call))) else Ping
    case Allocated => BeginPull
    case Pulling(done) => if done < PullSize(q) then PullByte else EndPull
    case _ => Respond
  }

  function Zeros(descs: seq<Desc>): seq<seq<byte>> {
    seq(|descs|, i requires 0 <= i < |descs| => seq(descs[i].size, _ => 0 as byte))
  }

  /** A request that is not answered can always take its next step: no handler gets stuck. */
  lemma NeverStuck(call: Call, q: Request)
    requires ValidCall(call) && RequestInv(call, q)
    requires q.phase.Queued? || StageOf(q).InHandler?
    ensures CanMove(call, q, NextMove(call, q))
  {
    hide PlannedBytes, FlatView, Encode, Decode, DescsOf, EncodeString, TakeString;
    if q.phase.Queued? && call.kind.Io? {
      RoundTrip(call.message, []);
      assert Encode(call.message) + [] == Encode(call.message);
    } else if q.phase.Queued? {
      PingReads(call);
    }
  }
}
