/** What holds over whole runs of the benchmark, whatever the interleaving. */
module Runs {
  import opened Basics
  import opened Wire
  import opened Layout
  import opened Handler
  import opened Protocol
  import opened Safety

  /** The server side of a request holds the client's string and bytes, position by position. */
  ghost predicate Delivered(call: Call, q: Request) {
    && q.md == Some(call.message.md) && q.retNode == (if call.kind.Io? then Some(call.message.retNode) else None)
    && q.descs == ClientDescs(call)
    && |q.bufs| == |q.fill| == |call.bufs| == |q.descs|
    && forall i | 0 <= i < |q.descs| :: q.bufs[i] == if Any(q.descs[i].flags, DT_WRITE) then call.bufs[i] else q.fill[i]
  }

  /** In every reachable state, a request whose response has arrived has been delivered whole. */
  lemma DeliveryOverEveryRun(cfg: Config, ss: seq<State>, acts: seq<Action>, k: nat, r: nat)
    requires ValidConfig(cfg) && Run(cfg, ss, acts) && k < |ss| && r < |ss[k].reqs|
    requires StageOf(ss[k].reqs[r]).Replied? || StageOf(ss[k].reqs[r]).Taken?
    ensures Delivered(cfg.call, ss[k].reqs[r]) && ss[k].reqs[r].phase.moved == Planned(cfg.call)
    ensures var q, segments := ss[k].reqs[r], cfg.call.message.segments;
            && q.md == Some(cfg.call.message.md) && |q.bufs| == |q.descs| == |cfg.call.bufs| == |segments|
            && forall i | 0 <= i < |segments| ::
                 && q.descs[i].flags == segments[i].flags && q.descs[i].size == segments[i].size
                 && (segments[i].flags % 4 != 0 ==> q.bufs[i] == cfg.call.bufs[i])
  {
    hide Placed, DaemonsInv, LedgerInv, Encode, PlannedBytes, FlatView;
    RunInv(cfg, ss, acts, k);
    DeliveredWhole(cfg.call, ss[k].reqs[r]);
    FlagWords(cfg.call);
  }

  /** What the client's descriptors say, segment by segment. */
  lemma FlagWords(call: Call)
    ensures var ds, segments := ClientDescs(call), call.message.segments;
            |ds| == |segments| && forall i | 0 <= i < |segments| ::
              && ds[i].flags == segments[i].flags && ds[i].size == segments[i].size
              && (Any(ds[i].flags, DT_WRITE) <==> segments[i].flags % 4 != 0)
  {
    var ds := ClientDescs(call);
    forall i | 0 <= i < |ds|
      ensures Any(ds[i].flags, DT_WRITE) <==> ds[i].flags % 4 != 0
    {
      WriteMask(ds[i].flags);
    }
  }

  /** Partial pulls never misplace a byte: what has arrived so far is a prefix of the client's view. */
  lemma PartialPullIsPrefix(cfg: Config, ss: seq<State>, acts: seq<Action>, k: nat, r: nat)
    requires ValidConfig(cfg) && Run(cfg, ss, acts) && k < |ss| && r < |ss[k].reqs| && ss[k].reqs[r].phase.Pulling?
    ensures Arrived(cfg.call, ss[k].reqs[r], ss[k].reqs[r].phase.done)
  {
    hide Placed, DaemonsInv, LedgerInv, Encode, PlannedBytes, FlatView, Arrived;
    RunInv(cfg, ss, acts, k);
  }

  ghost predicate Complete(cfg: Config, s: State)
    requires WellSized(cfg, s)
  {
    && |s.reqs| == Nodes(cfg) * cfg.rep
    && (forall n | 1 <= n <= Nodes(cfg) :: Issued(s.targets, n) == cfg.rep && RanBy(s, n) == cfg.rep)
    && (forall r | 0 <= r < |s.reqs| :: StageOf(s.reqs[r]).Taken? && Delivered(cfg.call, s.reqs[r]))
    && s.payload == Nodes(cfg) * cfg.rep * PerCall(cfg)
  }

  lemma AllTakenIsComplete(cfg: Config, s: State)
    requires ValidConfig(cfg) && Inv(cfg, s) && Full(cfg, s) && TakenUpTo(s, |s.reqs|)
    ensures Complete(cfg, s)
  {
    hide Placed, DaemonsInv, Encode, PlannedBytes, FlatView, Issued, Tally, Count;
    forall n | 1 <= n <= Nodes(cfg)
      ensures RanBy(s, n) == cfg.rep
    {
      AllAtStage(s.targets, s.reqs, n, Taken);
    }
    AllAtStage(s.targets, s.reqs, 0, Taken);
    forall r | 0 <= r < |s.reqs|
      ensures Delivered(cfg.call, s.reqs[r])
    {
      DeliveredWhole(cfg.call, s.reqs[r]);
    }
  }

  /** The counts of a complete state, request by request. */
  lemma CompleteCounts(cfg: Config, s: State, n: nat)
    requires WellSized(cfg, s) && Complete(cfg, s) && 1 <= n <= |cfg.threads|
    ensures |set r: nat | r < |s.targets| && s.targets[r] == n| == cfg.rep == s.ran[n - 1]
    ensures |s.reqs| == |cfg.threads| * cfg.rep
    ensures forall r | 0 <= r < |s.reqs| :: s.reqs[r].phase.Collected? && s.reqs[r].md == Some(cfg.call.message.md)
  {
    IssuedIsCount(s.targets, n);
    assert RanBy(s, n) == s.ran[n - 1];
    assert forall r | 0 <= r < |s.reqs| :: StageOf(s.reqs[r]).Taken? && Delivered(cfg.call, s.reqs[r]);
  }

  /** When the call loop returns normally, all N * rep requests were handled, delivered and collected. */
  lemma ReturnMeansComplete(cfg: Config, ss: seq<State>, acts: seq<Action>, k: nat)
    requires ValidConfig(cfg) && Run(cfg, ss, acts) && k < |ss| && Finished(ss[k].driver)
    ensures WellSized(cfg, ss[k]) && Complete(cfg, ss[k])
  {
    hide DaemonsInv, LedgerInv, RequestsInv, Full, TakenUpTo, Progressed, Complete;
    RunInv(cfg, ss, acts, k);
    AllTakenIsComplete(cfg, ss[k]);
  }

  /** No stop is heard, and no engine finalised, while any call is unanswered; and this holds of failing runs too. */
  lemma DrainBeforeStop(cfg: Config, ss: seq<State>, acts: seq<Action>, k: nat, n: nat)
    requires ValidConfig(cfg) && Run(cfg, ss, acts) && k < |ss| && 1 <= n <= |ss[k].daemons|
    requires Rank(DaemonOf(ss[k], n)) > 0
    ensures WellSized(cfg, ss[k]) && Complete(cfg, ss[k])
  {
    hide Placed, LedgerInv, RequestsInv, Full, TakenUpTo, Complete, Rank;
    RunInv(cfg, ss, acts, k);
    AllTakenIsComplete(cfg, ss[k]);
  }

  /** Requests of a node are conserved, and split as the driver's counters say. */
  lemma Conservation(cfg: Config, ss: seq<State>, acts: seq<Action>, k: nat, n: nat)
    requires ValidConfig(cfg) && Run(cfg, ss, acts) && k < |ss| && 1 <= n <= Nodes(cfg)
    ensures var s := ss[k];
            && WellSized(cfg, s)
            && Issued(s.targets, n) == Tally(s.targets, s.reqs, n, InPool) + Tally(s.targets, s.reqs, n, InHandler)
                                     + Tally(s.targets, s.reqs, n, Replied) + Tally(s.targets, s.reqs, n, Taken)
            && RanBy(s, n) == Tally(s.targets, s.reqs, n, Replied) + Tally(s.targets, s.reqs, n, Taken)
            && (match Position(s.driver)
                case Issuing(node, i) =>
                  Issued(s.targets, n) == if n < node then cfg.rep else if n == node then i else 0
                case Awaiting(node, i) =>
                  Issued(s.targets, n) == if n < node then cfg.rep else if n == node then i + 1 else 0
                case _ => Issued(s.targets, n) == cfg.rep)
            && s.payload == (Count(s.reqs, Replied) + Count(s.reqs, Taken)) * PerCall(cfg)
  {
    hide RequestsInv, DaemonsInv, Issued, Tally, Count;
    RunInv(cfg, ss, acts, k);
    TallyPartition(ss[k].targets, ss[k].reqs, n);
  }

  /** Calls issued but not collected. */
  function Outstanding(s: State): nat { Count(s.reqs, InPool) + Count(s.reqs, InHandler) + Count(s.reqs, Replied) }

  lemma {:induction false} CountPartition(reqs: seq<Request>)
    ensures Count(reqs, InPool) + Count(reqs, InHandler) + Count(reqs, Replied) + Count(reqs, Taken) == |reqs|
  {
    if reqs == [] {
    } else {
      CountPartition(reqs[..|reqs| - 1]);
    }
  }

  lemma {:induction false} CountTakenPrefix(reqs: seq<Request>, k: nat)
    requires k <= |reqs| && forall r | 0 <= r < |reqs| :: StageOf(reqs[r]).Taken? <==> r < k
    ensures Count(reqs, Taken) == k
  {
    if reqs == [] {
    } else {
      CountTakenPrefix(reqs[..|reqs| - 1], if k < |reqs| then k else k - 1);
    }
  }

  /** The sync driver never has more than one call outstanding; the async one never more than N * rep. */
  lemma OutstandingBounded(cfg: Config, ss: seq<State>, acts: seq<Action>, k: nat)
    requires ValidConfig(cfg) && Run(cfg, ss, acts) && k < |ss|
    ensures Outstanding(ss[k]) <= if cfg.isAsync then Nodes(cfg) * cfg.rep else 1
    ensures cfg.isAsync && Position(ss[k].driver).Issuing? ==> Outstanding(ss[k]) == |ss[k].reqs|
  {
    hide RequestsInv, DaemonsInv, LedgerInv, Issued, Count;
    RunInv(cfg, ss, acts, k);
    var s := ss[k];
    CountPartition(s.reqs);
    var position := Position(s.driver);
    var taken := match position
                 case Issuing(_, _) => if cfg.isAsync then 0 else |s.reqs|
                 case Awaiting(_, _) => |s.reqs| - 1
                 case Collecting(c) => c
                 case _ => |s.reqs|;
    assert TakenUpTo(s, taken);
    CountTakenPrefix(s.reqs, taken);
    if position.Issuing? {
      IssuedBound(cfg, position.node, position.i);
    }
  }

  lemma IssuedBound(cfg: Config, node: nat, i: nat)
    requires 1 <= node <= Nodes(cfg) + 1 && i <= cfg.rep && (node > Nodes(cfg) ==> i == 0)
    ensures (node - 1) * cfg.rep + i <= Nodes(cfg) * cfg.rep
  {
    if node <= Nodes(cfg) {
      assert (node - 1) * cfg.rep + cfg.rep == node * cfg.rep;
      assert node * cfg.rep + (Nodes(cfg) - node) * cfg.rep == Nodes(cfg) * cfg.rep;
    }
  }

  /** Runs of the sync and the async loop end alike: same counts per node, same bytes in every server buffer. */
  lemma SyncAndAsyncAgree(sync: Config, async: Config, ss: seq<State>, acts: seq<Action>, k: nat,
                                             ts: seq<State>, bcts: seq<Action>, l: nat)
    requires ValidConfig(sync) && !sync.isAsync && async == sync.(isAsync := true)
    requires Run(sync, ss, acts) && k < |ss| && Finished(ss[k].driver)
    requires Run(async, ts, bcts) && l < |ts| && Finished(ts[l].driver)
    ensures |ss[k].reqs| == |ts[l].reqs| && ss[k].ran == ts[l].ran && ss[k].payload == ts[l].payload
    ensures forall r, i | 0 <= r < |ss[k].reqs| && 0 <= i < |ClientDescs(sync.call)|
                && Any(ClientDescs(sync.call)[i].flags, DT_WRITE) ::
              && i < |ss[k].reqs[r].bufs| && i < |ts[l].reqs[r].bufs|
              && ss[k].reqs[r].bufs[i] == ts[l].reqs[r].bufs[i]
  {
    hide Issued, Tally, Count, Run, Placed, PlannedBytes;
    ReturnMeansComplete(sync, ss, acts, k);
    ReturnMeansComplete(async, ts, bcts, l);
    forall n | 0 <= n < Nodes(sync)
      ensures ss[k].ran[n] == ts[l].ran[n]
    {
      assert RanBy(ss[k], n + 1) == RanBy(ts[l], n + 1);
    }
  }

  /** std::string(n, 1). */
  function Ones(n: nat): (s: seq<byte>)
    ensures |s| == n && forall k | 0 <= k < n :: s[k] == 1
  {
    seq(n, _ => 1 as byte)
  }

  /** The transfer IoCalls builds: one writable segment, and a string of bytes of value 1. */
  function IoCallsTransfer(retNode: u32, address: u64, data: seq<byte>, mdSize: nat): Call
    requires |data| < TWO_TO_64
  {
    Call(Io, Message(retNode, Ones(mdSize), [Segment(DT_WRITE, address, |data|)]), [data])
  }

  /** What MetadataCalls sends: the string alone. */
  function MetadataCallsPing(mdSize: nat): Call { Call(Metadata, Message(0, Ones(mdSize), []), []) }

  lemma IoCallsTransferValid(retNode: u32, address: u64, data: seq<byte>, mdSize: nat)
    requires |data| < TWO_TO_64 && mdSize < TWO_TO_64
    ensures ValidCall(IoCallsTransfer(retNode, address, data, mdSize))
    ensures ClientDescs(IoCallsTransfer(retNode, address, data, mdSize)) == [Desc(DT_WRITE, |data|)]
    ensures Planned(IoCallsTransfer(retNode, address, data, mdSize)) == |data|
  {
    var call := IoCallsTransfer(retNode, address, data, mdSize);
    var ds := ClientDescs(call);
    assert ds == [Desc(DT_WRITE, |data|)];
    PlannedAppend([], Desc(DT_WRITE, |data|), DT_WRITE);
    assert [] + [Desc(DT_WRITE, |data|)] == ds;
  }

  /** The product that IoCalls divides by the time, in size_t. */
  function Ops(hosts: nat, rep: nat, ioSize: nat, mdSize: nat): u64 {
    Wrap(Wrap(Wrap(hosts) * Wrap(rep)) * Wrap(ioSize + mdSize))
  }

  lemma OpsWrapsOnce(hosts: nat, rep: nat, ioSize: nat, mdSize: nat)
    ensures Ops(hosts, rep, ioSize, mdSize) == Wrap(hosts * rep * (ioSize + mdSize))
  {
    hide Wrap;
    WrapTimes(hosts, rep);
    WrapTimes(hosts * rep, ioSize + mdSize);
  }

  /**
   * The rate IoCalls reports is over the bytes that moved, modulo 2^64: it counts them all
   * exactly when they fit a size_t. Each server buffer equals the client's data either way.
   */
  lemma IoCallsMovesOps(retNode: u32, address: u64, data: seq<byte>, mdSize: nat,
                                           cfg: Config, ss: seq<State>, acts: seq<Action>, k: nat)
    requires |data| < TWO_TO_64 && mdSize < TWO_TO_64 && cfg.call == IoCallsTransfer(retNode, address, data, mdSize)
    requires ValidConfig(cfg) && Run(cfg, ss, acts) && k < |ss| && Finished(ss[k].driver)
    ensures ss[k].payload == Nodes(cfg) * cfg.rep * (|data| + mdSize)
    ensures Wrap(ss[k].payload) == Ops(Nodes(cfg), cfg.rep, |data|, mdSize)
    ensures Ops(Nodes(cfg), cfg.rep, |data|, mdSize) == ss[k].payload <==> ss[k].payload < TWO_TO_64
    ensures forall r | 0 <= r < |ss[k].reqs| ::
              && ss[k].reqs[r].bufs == [data] && ss[k].reqs[r].descs == [Desc(3, |data|)]
              && ss[k].reqs[r].retNode == Some(retNode) && HasOnes(ss[k].reqs[r], mdSize)
  {
    hide Issued, Tally, Count, Run, Placed, PlannedBytes, Ops;
    OpsWrapsOnce(Nodes(cfg), cfg.rep, |data|, mdSize);
    IoCallsTransferValid(retNode, address, data, mdSize);
    ReturnMeansComplete(cfg, ss, acts, k);
    assert PerCall(cfg) == |data| + mdSize;
    forall r | 0 <= r < |ss[k].reqs|
      ensures ss[k].reqs[r].bufs == [data] && ss[k].reqs[r].descs == [Desc(3, |data|)]
      ensures ss[k].reqs[r].retNode == Some(retNode) && HasOnes(ss[k].reqs[r], mdSize)
    {
      assert Delivered(cfg.call, ss[k].reqs[r]) && Any(DT_WRITE, DT_WRITE);
    }
  }

  /** The handler read n bytes, each of value 1. */
  ghost predicate HasOnes(q: Request, n: nat) {
    q.md.Some? && |q.md.value| == n && forall k | 0 <= k < n :: q.md.value[k] == 1
  }

  /**
   * When MetadataCalls returns, every node has answered rep pings and each handler has read
   * the string that was sent. The number of calls it reports a rate for is theirs modulo 2^64.
   */
  lemma MetadataCallsReachAll(mdSize: nat, cfg: Config, ss: seq<State>, acts: seq<Action>, k: nat)
    requires mdSize < TWO_TO_64 && cfg.call == MetadataCallsPing(mdSize)
    requires ValidConfig(cfg) && Run(cfg, ss, acts) && k < |ss| && Finished(ss[k].driver)
    ensures |ss[k].reqs| == Nodes(cfg) * cfg.rep && ss[k].payload == Nodes(cfg) * cfg.rep * mdSize
    ensures Wrap(Wrap(Nodes(cfg)) * Wrap(cfg.rep)) == Wrap(|ss[k].reqs|)
    ensures |ss[k].ran| == Nodes(cfg) && forall n | 0 <= n < Nodes(cfg) :: ss[k].ran[n] == cfg.rep
    ensures forall r | 0 <= r < |ss[k].reqs| :: HasOnes(ss[k].reqs[r], mdSize)
  {
    hide Issued, Tally, Count, Run, Placed;
    ReturnMeansComplete(cfg, ss, acts, k);
    WrapTimes(Nodes(cfg), cfg.rep);
    assert ClientDescs(cfg.call) == [] && PerCall(cfg) == mdSize;
    forall n | 0 <= n < Nodes(cfg)
      ensures ss[k].ran[n] == cfg.rep
    {
      assert RanBy(ss[k], n + 1) == cfg.rep;
    }
    forall r | 0 <= r < |ss[k].reqs|
      ensures HasOnes(ss[k].reqs[r], mdSize)
    {
      assert Delivered(cfg.call, ss[k].reqs[r]);
    }
  }

  // ---- The stop protocol ----

  /** One step moves at most one node's stop forward, by one. */
  lemma StepRank(cfg: Config, s: State, a: Action, s': State, n: nat)
    requires ValidConfig(cfg) && Inv(cfg, s) && Step(cfg, s, a, s') && 1 <= n <= Nodes(cfg)
    ensures WellSized(cfg, s')
    ensures Rank(DaemonOf(s, n)) <= Rank(DaemonOf(s', n)) <= Rank(DaemonOf(s, n)) + 1
    ensures a == AnswerStop(n) <==> Rank(DaemonOf(s, n)) == 1 && Rank(DaemonOf(s', n)) == 2
    ensures a == FinalizeClient(n) <==> Rank(DaemonOf(s, n)) == 2 && Rank(DaemonOf(s', n)) == 3
    ensures a == FinalizeServer(n) <==> Rank(DaemonOf(s, n)) == 3 && Rank(DaemonOf(s', n)) == 4
  {
    hide RequestsInv, LedgerInv, Moved, CanMove, NewRequest, ValidCall, Issued, Full, TakenUpTo;
    StepKeepsDaemons(cfg, s, a, s');
  }

  lemma {:induction false} RankMonotone(cfg: Config, ss: seq<State>, acts: seq<Action>, j: nat, k: nat, n: nat)
    requires ValidConfig(cfg) && Run(cfg, ss, acts) && j <= k < |ss| && 1 <= n <= Nodes(cfg)
    ensures WellSized(cfg, ss[j]) && WellSized(cfg, ss[k]) && Rank(DaemonOf(ss[j], n)) <= Rank(DaemonOf(ss[k], n))
    decreases k
  {
    hide Step, Rank, Placed, RequestsInv, DaemonsInv, LedgerInv, Initial;
    RunInv(cfg, ss, acts, j);
    RunInv(cfg, ss, acts, k);
    if j == k {
    } else {
      RankMonotone(cfg, ss, acts, j, k - 1, n);
      RunInv(cfg, ss, acts, k - 1);
      StepRank(cfg, ss[k - 1], acts[k - 1], ss[k], n);
    }
  }

  /** A node whose stop has come to rank r passed from r - 1 to r in some earlier step. */
  lemma {:induction false} RankPassed(cfg: Config, ss: seq<State>, acts: seq<Action>, k: nat, n: nat, rank: nat)
    returns (j: nat)
    requires ValidConfig(cfg) && Run(cfg, ss, acts) && k < |ss| && 1 <= n <= Nodes(cfg)
    requires WellSized(cfg, ss[k]) && 0 < rank <= Rank(DaemonOf(ss[k], n))
    ensures j < k && WellSized(cfg, ss[j]) && WellSized(cfg, ss[j + 1])
    ensures Rank(DaemonOf(ss[j], n)) == rank - 1 && Rank(DaemonOf(ss[j + 1], n)) == rank
  {
    hide Step, Placed, RequestsInv, DaemonsInv, LedgerInv;
    assert DaemonOf(Initial(cfg), n) == Serving;
    RunInv(cfg, ss, acts, k - 1);
    StepRank(cfg, ss[k - 1], acts[k - 1], ss[k], n);
    if Rank(DaemonOf(ss[k - 1], n)) < rank {
      j := k - 1;
    } else {
      j := RankPassed(cfg, ss, acts, k - 1, n, rank);
    }
  }

  /** A node answers its stop before it finalises the client engine, and that before the server engine. */
  lemma StopInOrder(cfg: Config, ss: seq<State>, acts: seq<Action>, k: nat, n: nat)
    returns (i: nat, j: nat)
    requires ValidConfig(cfg) && Run(cfg, ss, acts) && k < |acts| && 1 <= n <= Nodes(cfg)
    requires acts[k] == FinalizeServer(n)
    ensures i < j < k && acts[i] == AnswerStop(n) && acts[j] == FinalizeClient(n)
  {
    hide Rank, Placed, RequestsInv, DaemonsInv, LedgerInv, Initial, Step;
    RunInv(cfg, ss, acts, k);
    StepRank(cfg, ss[k], acts[k], ss[k + 1], n);
    j := RankPassed(cfg, ss, acts, k, n, 3);
    i := RankPassed(cfg, ss, acts, j, n, 2);
    RunInv(cfg, ss, acts, i);
    RunInv(cfg, ss, acts, j);
    StepRank(cfg, ss[i], acts[i], ss[i + 1], n);
    StepRank(cfg, ss[j], acts[j], ss[j + 1], n);
  }

  /** No node handles two stops. */
  lemma StopHandledOnce(cfg: Config, ss: seq<State>, acts: seq<Action>, j: nat, k: nat, n: nat)
    requires ValidConfig(cfg) && Run(cfg, ss, acts) && j < |acts| && k < |acts| && 1 <= n <= Nodes(cfg)
    requires acts[j] == acts[k] == AnswerStop(n)
    ensures j == k
  {
    hide Rank, Placed, RequestsInv, DaemonsInv, LedgerInv, Initial, Step;
    RunInv(cfg, ss, acts, j);
    RunInv(cfg, ss, acts, k);
    StepRank(cfg, ss[j], acts[j], ss[j + 1], n);
    StepRank(cfg, ss[k], acts[k], ss[k + 1], n);
    if j < k {
      RankMonotone(cfg, ss, acts, j + 1, k, n);
    } else if k < j {
      RankMonotone(cfg, ss, acts, k + 1, j, n);
    }
  }

  /** RunDaemon returns only once the server engine is finalised, StopAllDaemons only once all nodes answered. */
  lemma StopReturns(cfg: Config, ss: seq<State>, acts: seq<Action>, k: nat, n: nat)
    requires ValidConfig(cfg) && Run(cfg, ss, acts) && k < |ss| && 1 <= n <= Nodes(cfg)
    ensures WellSized(cfg, ss[k])
    ensures ExitedAt(ss[k], n) ==> DaemonOf(ss[k], n).ServerFinalized?
    ensures ss[k].driver.Returned? ==> Rank(DaemonOf(ss[k], n)) >= 2
  {
    hide Placed, RequestsInv, LedgerInv, Full, TakenUpTo;
    RunInv(cfg, ss, acts, k);
  }

  /** The driver's own process never runs RunDaemon. */
  lemma {:induction false} DriverRunsNoDaemon(cfg: Config, ss: seq<State>, acts: seq<Action>, k: nat)
    requires ValidConfig(cfg) && Run(cfg, ss, acts) && k < |ss| && |cfg.threads| > 0
    ensures |ss[k].exited| == |cfg.threads| && !ss[k].exited[0]
  {
    hide Moved, CanMove, NewRequest, ValidCall;
    if k == 0 {
    } else {
      DriverRunsNoDaemon(cfg, ss, acts, k - 1);
      assert Step(cfg, ss[k - 1], acts[k - 1], ss[k]);
    }
  }

  /** The driver is gone and node n has not heard of any stop. */
  ghost predicate Abandoned(cfg: Config, s: State, n: nat) {
    && s.driver.Aborted? && 1 <= n <= |s.daemons| == |s.exited|
    && DaemonOf(s, n).Serving? && !ExitedAt(s, n)
  }

  lemma AbandonedStays(cfg: Config, s: State, a: Action, s': State, n: nat)
    requires ValidConfig(cfg) && Step(cfg, s, a, s')
    requires Abandoned(cfg, s, n)
      || (a.Fail? && Benchmarking(s.driver) && Inv(cfg, s) && 1 <= n <= Nodes(cfg))
    ensures Abandoned(cfg, s', n)
  {
    hide Placed, RequestsInv, LedgerInv, Moved, CanMove, NewRequest, ValidCall, Full, TakenUpTo;
    if a.Fail? {
      assert Rank(DaemonOf(s, n)) == 0 || s.driver.Aborted?;
    }
  }

  /** A call that fails during the benchmark ends the driver, so no node is ever stopped. */
  lemma {:induction false} FailedBenchmarkStopsNobody(cfg: Config, ss: seq<State>, acts: seq<Action>,
                                                      j: nat, k: nat, n: nat)
    requires ValidConfig(cfg) && Run(cfg, ss, acts) && j < k < |ss| && 1 <= n <= Nodes(cfg)
    requires Benchmarking(ss[j].driver) && acts[j].Fail?
    ensures Abandoned(cfg, ss[k], n)
    decreases k
  {
    hide Inv, Step, Abandoned, Initial;
    RunInv(cfg, ss, acts, k - 1);
    if j < k - 1 {
      FailedBenchmarkStopsNobody(cfg, ss, acts, j, k - 1, n);
    }
    AbandonedStays(cfg, ss[k - 1], acts[k - 1], ss[k], n);
  }

  /** The loop counters stay within NodeId and int, so the machine's unbounded ones are the source's. */
  lemma CountersFit(cfg: Config, ss: seq<State>, acts: seq<Action>, k: nat)
    requires ValidConfig(cfg) && Run(cfg, ss, acts) && k < |ss|
    ensures match Position(ss[k].driver)
            case Issuing(node, i) => node < TWO_TO_32 && i < 0x8000_0000
            case Awaiting(node, i) => node < TWO_TO_32 && i + 1 < 0x8000_0000
            case Stopping(node) => node < TWO_TO_32
            case StopWaiting(node) => node < TWO_TO_32
            case _ => true
  {
    hide RequestsInv, DaemonsInv, LedgerInv, Issued, Full, TakenUpTo, Progressed;
    RunInv(cfg, ss, acts, k);
  }
}
