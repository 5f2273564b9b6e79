/**
 * chi_net_bench.cc as a step machine: one driver runs IoCalls or MetadataCalls and then
 * StopAllDaemons, while every node serves its pool of requests. Any step that is enabled
 * may come next, so a run is an arbitrary interleaving.
 */
module Protocol {
  import opened Basics
  import opened Handler

  /** threads[n - 1] is the number of RPC threads of node n; nodes count from 1. */
  datatype Config = Config(call: Call, isAsync: bool, threads: seq<nat>, rep: nat)

  /** Where the driver is in its loops, or where an exception ended it. */
  datatype Driver =
    | Issuing(node: nat, i: nat)
    | Awaiting(node: nat, i: nat)
    | Collecting(k: nat)
    | Stopping(node: nat)
    | StopWaiting(node: nat)
    | Returned
    | Aborted(at: Driver)

  /** How far a node is with its stop request. */
  datatype Daemon = Serving | StopQueued | StopAnswered | ClientFinalized | ServerFinalized

  /**
   * targets[r] is the node request r went to. `ran` and `payload` are history: the handlers
   * each node completed, and the bytes those calls carried. exited[n - 1] says that
   * RunDaemon returned on node n.
   */
  datatype State = State(
    driver: Driver, targets: seq<nat>, reqs: seq<Request>,
    daemons: seq<Daemon>, exited: seq<bool>,
    ran: seq<nat>, payload: nat)

  datatype Action =
    | Issue
    | NextNode
    | EndIssue
    | Collect
    | EndCollect
    | Handle(r: nat, move: Move)
    | SendStop
    | EndSend
    | CollectStop
    | EndStop
    | AnswerStop(node: nat)
    | FinalizeClient(node: nat)
    | FinalizeServer(node: nat)
    | ExitDaemon(node: nat)
    | Fail

  ghost predicate ValidConfig(cfg: Config) {
    && ValidCall(cfg.call)
    && |cfg.threads| + 1 < TWO_TO_32
    && cfg.rep < 0x8000_0000
  }

  function Nodes(cfg: Config): nat { |cfg.threads| }

  function ThreadsOf(cfg: Config, n: nat): nat
    requires 1 <= n <= Nodes(cfg)
  {
    cfg.threads[n - 1]
  }

  function DaemonOf(s: State, n: nat): Daemon
    requires 1 <= n <= |s.daemons|
  {
    s.daemons[n - 1]
  }

  function ExitedAt(s: State, n: nat): bool
    requires 1 <= n <= |s.exited|
  {
    s.exited[n - 1]
  }

  function RanBy(s: State, n: nat): nat
    requires 1 <= n <= |s.ran|
  {
    s.ran[n - 1]
  }

  function Repeat<T>(n: nat, x: T): (s: seq<T>)
    ensures |s| == n && forall k | 0 <= k < n :: s[k] == x
  {
    seq(n, _ => x)
  }

  function Initial(cfg: Config): State {
    State(Issuing(1, 0), [], [], Repeat(Nodes(cfg), Serving), Repeat(Nodes(cfg), false), Repeat(Nodes(cfg), 0), 0)
  }

  function Rank(d: Daemon): nat {
    match d
    case Serving => 0
    case StopQueued => 1
    case StopAnswered => 2
    case ClientFinalized => 3
    case ServerFinalized => 4
  }

  /** Node n still has its server engine and a thread to run handlers on. */
  predicate CanServe(cfg: Config, s: State, n: nat) {
    1 <= n <= Nodes(cfg) && n <= |s.daemons| && ThreadsOf(cfg, n) > 0 && !DaemonOf(s, n).ServerFinalized?
  }

  /** The driver's own client engine, which node 1's stop handler finalises. */
  predicate ClientAlive(s: State) { s.daemons != [] && Rank(s.daemons[0]) < 3 }

  /** The request whose response the driver is waiting for. */
  predicate Awaited(s: State, r: nat) {
    r < |s.reqs| && match s.driver
    case Awaiting(_, _) => r == |s.reqs| - 1
    case Collecting(k) => r == k
    case _ => false
  }

  ghost predicate WellSized(cfg: Config, s: State) {
    && |s.targets| == |s.reqs|
    && |s.daemons| == |s.exited| == |s.ran| == Nodes(cfg)
    && forall r | 0 <= r < |s.targets| :: 1 <= s.targets[r] <= Nodes(cfg)
  }

  ghost predicate Enabled(cfg: Config, s: State, a: Action)
    requires ValidConfig(cfg) && WellSized(cfg, s)
  {
    match a
    case Issue => s.driver.Issuing? && 1 <= s.driver.node <= Nodes(cfg) && s.driver.i < cfg.rep && ClientAlive(s)
    case NextNode => s.driver.Issuing? && s.driver.node <= Nodes(cfg) && s.driver.i >= cfg.rep
    case EndIssue => s.driver.Issuing? && s.driver.node > Nodes(cfg)
    case Collect => ClientAlive(s) && exists r: nat :: Awaited(s, r) && s.reqs[r].phase.Answered?
    case EndCollect => s.driver.Collecting? && s.driver.k >= |s.reqs|
    case Handle(r, move) =>
      r < |s.reqs| && CanServe(cfg, s, s.targets[r]) && CanMove(cfg.call, s.reqs[r], move)
    case SendStop => s.driver.Stopping? && 1 <= s.driver.node <= Nodes(cfg)
    case EndSend => s.driver.Stopping? && s.driver.node > Nodes(cfg)
    case CollectStop =>
      s.driver.StopWaiting? && 1 <= s.driver.node <= Nodes(cfg) && Rank(DaemonOf(s, s.driver.node)) >= 2
    case EndStop => s.driver.StopWaiting? && s.driver.node > Nodes(cfg)
    case AnswerStop(n) => CanServe(cfg, s, n) && DaemonOf(s, n).StopQueued?
    case FinalizeClient(n) => CanServe(cfg, s, n) && DaemonOf(s, n).StopAnswered?
    case FinalizeServer(n) => CanServe(cfg, s, n) && DaemonOf(s, n).ClientFinalized?
    case ExitDaemon(n) => 2 <= n <= Nodes(cfg) && DaemonOf(s, n).ServerFinalized?
    case Fail =>
      match s.driver
      case Issuing(node, i) => node <= Nodes(cfg) && i < cfg.rep
      case Awaiting(_, _) => true
      case Collecting(k) => k < |s.reqs|
      case Stopping(node) => node <= Nodes(cfg)
      case StopWaiting(node) => node <= Nodes(cfg)
      case _ => false
  }

  /** Mark the awaited request as collected. */
  function Take(q: Request): Request
    requires q.phase.Answered?
  {
    q.(phase := Collected(q.phase.moved))
  }

  function AfterIssue(cfg: Config): Driver { if cfg.isAsync then Collecting(0) else Stopping(1) }

  function AfterCollect(d: Driver): Driver
    requires d.Awaiting? || d.Collecting?
  {
    match d
    case Awaiting(node, i) => Issuing(node, i + 1)
    case Collecting(k) => Collecting(k + 1)
  }

  function AwaitedIndex(s: State): nat
    requires exists r: nat :: Awaited(s, r)
  {
    if s.driver.Awaiting? then |s.reqs| - 1 else s.driver.k
  }

  /** The bytes a call carried once it is answered: the string its handler read and what was pulled. */
  function Carried(q: Request): nat
    requires q.phase.Answered?
  {
    (if q.md.Some? then |q.md.value| else 0) + q.phase.moved
  }

  ghost function Next(cfg: Config, s: State, a: Action): State
    requires ValidConfig(cfg) && WellSized(cfg, s) && Enabled(cfg, s, a)
  {
    match a
    case Issue =>
      var Issuing(node, i) := s.driver;
      s.(driver := if cfg.isAsync then Issuing(node, i + 1) else Awaiting(node, i),
         targets := s.targets + [node],
         reqs := s.reqs + [NewRequest(cfg.call)])
    case NextNode => s.(driver := Issuing(s.driver.node + 1, 0))
    case EndIssue => s.(driver := AfterIssue(cfg))
    case Collect =>
      var r := AwaitedIndex(s);
      s.(driver := AfterCollect(s.driver), reqs := s.reqs[r := Take(s.reqs[r])])
    case EndCollect => s.(driver := Stopping(1))
    case Handle(r, move) =>
      var q := Moved(cfg.call, s.reqs[r], move);
      var n := s.targets[r] - 1;
      var s' := s.(reqs := s.reqs[r := q]);
      if move.Respond? then s'.(ran := s.ran[n := s.ran[n] + 1], payload := s.payload + Carried(q)) else s'
    case SendStop =>
      var n := s.driver.node;
      s.(driver := Stopping(n + 1), daemons := s.daemons[n - 1 := StopQueued])
    case EndSend => s.(driver := StopWaiting(1))
    case CollectStop => s.(driver := StopWaiting(s.driver.node + 1))
    case EndStop => s.(driver := Returned)
    case AnswerStop(n) => s.(daemons := s.daemons[n - 1 := StopAnswered])
    case FinalizeClient(n) => s.(daemons := s.daemons[n - 1 := ClientFinalized])
    case FinalizeServer(n) => s.(daemons := s.daemons[n - 1 := ServerFinalized])
    case ExitDaemon(n) => s.(exited := s.exited[n - 1 := true])
    case Fail => s.(driver := Aborted(s.driver))
  }

  ghost predicate Step(cfg: Config, s: State, a: Action, s': State)
    requires ValidConfig(cfg)
  {
    WellSized(cfg, s) && Enabled(cfg, s, a) && s' == Next(cfg, s, a)
  }

  /** A finite run: states with the action between each and the next. */
  ghost predicate Run(cfg: Config, ss: seq<State>, acts: seq<Action>)
    requires ValidConfig(cfg)
  {
    && |ss| == |acts| + 1
    && ss[0] == Initial(cfg)
    && forall k | 0 <= k < |acts| :: Step(cfg, ss[k], acts[k], ss[k + 1])
  }

  /** The place in the loops, kept when an exception ends the driver. */
  function Position(d: Driver): Driver { if d.Aborted? then d.at else d }

  /** The driver is still in IoCalls or MetadataCalls. */
  predicate Benchmarking(d: Driver) { d.Issuing? || d.Awaiting? || d.Collecting? }

  /** IoCalls or MetadataCalls returned normally. */
  predicate Finished(d: Driver) { d.Stopping? || d.StopWaiting? || d.Returned? }

  // ---- Counting ----

  /** How many of the first requests went to node n. */
  function Issued(targets: seq<nat>, n: nat): nat {
    if targets == [] then 0 else
      Issued(targets[..|targets| - 1], n) + (if targets[|targets| - 1] == n then 1 else 0)
  }

  lemma {:induction false} IssuedIsCount(targets: seq<nat>, n: nat)
    ensures Issued(targets, n) == |set r: nat | r < |targets| && targets[r] == n|
  {
    if targets == [] {
    } else {
      var k := |targets| - 1;
      IssuedIsCount(targets[..k], n);
      var before, all := set r: nat | r < |targets[..k]| && targets[..k][r] == n,
                         set r: nat | r < |targets| && targets[r] == n;
      assert all == before + if targets[k] == n then {k} else {};
      assert k !in before && before + {} == before;
    }
  }

  /** How many requests of node n are at a stage. */
  function Tally(targets: seq<nat>, reqs: seq<Request>, n: nat, stage: Stage): nat
    requires |targets| == |reqs|
  {
    if reqs == [] then 0 else
      var k := |reqs| - 1;
      Tally(targets[..k], reqs[..k], n, stage) + (if targets[k] == n && StageOf(reqs[k]) == stage then 1 else 0)
  }

  /** How many requests, whatever their node, are at a stage. */
  function Count(reqs: seq<Request>, stage: Stage): nat {
    if reqs == [] then 0 else
      Count(reqs[..|reqs| - 1], stage) + (if StageOf(reqs[|reqs| - 1]) == stage then 1 else 0)
  }

  /** Every issued request of a node is in its pool, in a handler, answered or collected. */
  lemma {:induction false} TallyPartition(targets: seq<nat>, reqs: seq<Request>, n: nat)
    requires |targets| == |reqs|
    ensures Issued(targets, n) == Tally(targets, reqs, n, InPool) + Tally(targets, reqs, n, InHandler)
                                + Tally(targets, reqs, n, Replied) + Tally(targets, reqs, n, Taken)
  {
    if reqs == [] {
    } else {
      TallyPartition(targets[..|reqs| - 1], reqs[..|reqs| - 1], n);
    }
  }

  lemma {:induction false} TallyUpdate(targets: seq<nat>, reqs: seq<Request>, r: nat, q: Request, n: nat, stage: Stage)
    requires |targets| == |reqs| && r < |reqs|
    ensures Tally(targets, reqs[r := q], n, stage) + (if targets[r] == n && StageOf(reqs[r]) == stage then 1 else 0)
         == Tally(targets, reqs, n, stage) + (if targets[r] == n && StageOf(q) == stage then 1 else 0)
  {
    var k := |reqs| - 1;
    if r < k {
      TallyUpdate(targets[..k], reqs[..k], r, q, n, stage);
      assert reqs[r := q][..k] == reqs[..k][r := q];
    } else {
      assert reqs[r := q][..k] == reqs[..k];
    }
  }

  lemma {:induction false} CountUpdate(reqs: seq<Request>, r: nat, q: Request, stage: Stage)
    requires r < |reqs|
    ensures Count(reqs[r := q], stage) + (if StageOf(reqs[r]) == stage then 1 else 0)
         == Count(reqs, stage) + (if StageOf(q) == stage then 1 else 0)
  {
    var k := |reqs| - 1;
    if r < k {
      CountUpdate(reqs[..k], r, q, stage);
      assert reqs[r := q][..k] == reqs[..k][r := q];
    } else {
      assert reqs[r := q][..k] == reqs[..k];
    }
  }

  lemma {:induction false} AllAtStage(targets: seq<nat>, reqs: seq<Request>, n: nat, stage: Stage)
    requires |targets| == |reqs| && forall r | 0 <= r < |reqs| :: StageOf(reqs[r]) == stage
    ensures Tally(targets, reqs, n, stage) == Issued(targets, n) && Count(reqs, stage) == |reqs|
    ensures forall other: Stage | other != stage ::
              Tally(targets, reqs, n, other) == 0 && Count(reqs, other) == 0
  {
    if reqs == [] {
    } else {
      var k := |reqs| - 1;
      AllAtStage(targets[..k], reqs[..k], n, stage);
      forall other: Stage | other != stage
        ensures Tally(targets, reqs, n, other) == 0 && Count(reqs, other) == 0
      {
        assert Tally(targets[..k], reqs[..k], n, other) == 0 && Count(reqs[..k], other) == 0;
      }
    }
  }

  lemma {:induction false} IssuedSome(targets: seq<nat>, n: nat) returns (r: nat)
    requires Issued(targets, n) > 0
    ensures r < |targets| && targets[r] == n
  {
    r := |targets| - 1;
    if targets[r] != n {
      r := IssuedSome(targets[..r], n);
    }
  }
}
