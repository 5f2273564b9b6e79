/** Failure-free runs return from the call loop, and exactly when there are threads to serve them. */
module Progress {
  import opened Handler
  import opened Protocol
  import opened Safety

  /** A step of the call loops or of a handler, as opposed to the stop protocol or a failure. */
  predicate Useful(a: Action) { a.Issue? || a.NextNode? || a.EndIssue? || a.Collect? || a.EndCollect? || a.Handle? }

  function TotalWork(call: Call, reqs: seq<Request>): nat {
    if reqs == [] then 0 else TotalWork(call, reqs[..|reqs| - 1]) + Work(call, reqs[|reqs| - 1])
  }

  lemma {:induction false} WorkUpdate(call: Call, reqs: seq<Request>, r: nat, q: Request)
    requires r < |reqs|
    ensures TotalWork(call, reqs[r := q]) + Work(call, reqs[r]) == TotalWork(call, reqs) + Work(call, q)
  {
    var k := |reqs| - 1;
    if r < k {
      WorkUpdate(call, reqs[..k], r, q);
      assert reqs[r := q][..k] == reqs[..k][r := q];
    } else {
      assert reqs[r := q][..k] == reqs[..k];
    }
  }

  lemma WorkAppend(call: Call, reqs: seq<Request>, q: Request)
    ensures TotalWork(call, reqs + [q]) == TotalWork(call, reqs) + Work(call, q)
  {
    assert (reqs + [q])[..|reqs|] == reqs;
  }

  /** The steps the driver itself still has to take in its loops. */
  function LoopSteps(cfg: Config, d: Driver): nat {
    match d
    case Issuing(node, i) => PerNode(cfg, node) + 2 * Left(cfg, i) + 2
    case Awaiting(node, i) => PerNode(cfg, node) + 2 * Left(cfg, i) + 1
    case Collecting(_) => 1
    case _ => 0
  }

  function Left(cfg: Config, i: nat): nat { if i < cfg.rep then cfg.rep - i else 0 }

  function PerNode(cfg: Config, node: nat): nat {
    if node <= Nodes(cfg) then (Nodes(cfg) + 1 - node) * (2 * cfg.rep + 1) else 0
  }

  /** One more than the work a single call brings. */
  function Weight(cfg: Config): nat { Planned(cfg.call) + 6 }

  /** An upper bound on the useful steps to come. */
  function Measure(cfg: Config, s: State): nat { LoopSteps(cfg, s.driver) * Weight(cfg) + TotalWork(cfg.call, s.reqs) }

  lemma DropOne(a: nat, b: nat, w: nat)
    requires a < b
    ensures a * w + w <= b * w
  {
    assert b * w == a * w + (b - a) * w;
    assert (b - a) * w == w + (b - a - 1) * w;
  }

  lemma NextNodeSteps(cfg: Config, node: nat)
    requires node <= Nodes(cfg)
    ensures PerNode(cfg, node + 1) + (2 * cfg.rep + 1) == PerNode(cfg, node)
  {
    var w, left := 2 * cfg.rep + 1, Nodes(cfg) - node;
    assert (left + 1) * w == left * w + w;
  }

  /** Every useful step brings the end strictly closer. */
  lemma UsefulStepDecreases(cfg: Config, s: State, a: Action, s': State)
    requires ValidConfig(cfg) && Inv(cfg, s) && Step(cfg, s, a, s') && Useful(a)
    ensures Measure(cfg, s') < Measure(cfg, s)
  {
    hide RequestsInv, DaemonsInv, LedgerInv, Full, TakenUpTo, Progressed, Moved, CanMove, NewRequest,
      TotalWork, PerNode, Weight, Planned;
    var w := Weight(cfg);
    match a
    case Issue =>
      WorkAppend(cfg.call, s.reqs, NewRequest(cfg.call));
      NewWork(cfg);
      DropOne(LoopSteps(cfg, s'.driver), LoopSteps(cfg, s.driver), w);
    case NextNode =>
      NextNodeSteps(cfg, s.driver.node);
      DropOne(LoopSteps(cfg, s'.driver), LoopSteps(cfg, s.driver), w);
      NewWork(cfg);
    case EndIssue =>
      DropOne(LoopSteps(cfg, s'.driver), LoopSteps(cfg, s.driver), w);
      NewWork(cfg);
    case Collect =>
      AwaitedIs(s);
      var r := AwaitedIndex(s);
      WorkUpdate(cfg.call, s.reqs, r, Take(s.reqs[r]));
      if s.driver.Awaiting? {
        DropOne(LoopSteps(cfg, s'.driver), LoopSteps(cfg, s.driver), w);
      }
    case EndCollect =>
      DropOne(0, 1, w);
      NewWork(cfg);
    case Handle(r, m) => HandleDecreases(cfg, s, r, m, s');
  }

  lemma NewWork(cfg: Config)
    requires ValidCall(cfg.call)
    ensures 0 < Work(cfg.call, NewRequest(cfg.call)) < Weight(cfg)
  {}

  lemma HandleDecreases(cfg: Config, s: State, r: nat, m: Move, s': State)
    requires ValidConfig(cfg) && Inv(cfg, s) && Step(cfg, s, Handle(r, m), s')
    ensures Measure(cfg, s') < Measure(cfg, s)
  {
    hide Placed, DaemonsInv, LedgerInv, Moved, CanMove, ValidCall, TotalWork, RequestInv, Work;
    var q := Moved(cfg.call, s.reqs[r], m);
    MoveKeepsRequest(cfg.call, s.reqs[r], m);
    WorkUpdate(cfg.call, s.reqs, r, q);
  }

  /** The benchmark can be served: every node has a thread, or no call is made at all. */
  ghost predicate Served(cfg: Config) {
    cfg.rep == 0 || forall n | 1 <= n <= Nodes(cfg) :: ThreadsOf(cfg, n) > 0
  }

  /** A useful step for the driver or, when it waits, for the handler it waits for. */
  function Schedule(cfg: Config, s: State): Action {
    match s.driver
    case Issuing(node, i) =>
      if node > Nodes(cfg) then EndIssue else if i >= cfg.rep then NextNode else Issue
    case Awaiting(_, _) => if s.reqs == [] then EndIssue else Pursue(cfg, s, |s.reqs| - 1)
    case Collecting(k) => if k >= |s.reqs| then EndCollect else Pursue(cfg, s, k)
    case _ => EndIssue
  }

  function Pursue(cfg: Config, s: State, r: nat): Action
    requires r < |s.reqs|
  {
    if s.reqs[r].phase.Answered? then Collect else Handle(r, NextMove(cfg.call, s.reqs[r]))
  }

  lemma PursueEnabled(cfg: Config, s: State, r: nat)
    requires ValidConfig(cfg) && Inv(cfg, s) && Benchmarking(s.driver) && Served(cfg)
    requires Awaited(s, r) && !StageOf(s.reqs[r]).Taken? && cfg.rep > 0
    requires ClientAlive(s)
    ensures Enabled(cfg, s, Pursue(cfg, s, r)) && Useful(Pursue(cfg, s, r))
  {
    hide Placed, LedgerInv, CanMove, RequestInv, NextMove, ValidCall, Full, TakenUpTo;
    var n := s.targets[r];
    assert Rank(DaemonOf(s, n)) == 0 && ThreadsOf(cfg, n) > 0;
    if !s.reqs[r].phase.Answered? {
      NeverStuck(cfg.call, s.reqs[r]);
    }
  }

  /** No deadlock: while the call loop runs, a useful step is enabled. */
  lemma AlwaysUsefulStep(cfg: Config, s: State)
    requires ValidConfig(cfg) && Inv(cfg, s) && Benchmarking(s.driver) && Served(cfg)
    ensures Enabled(cfg, s, Schedule(cfg, s)) && Useful(Schedule(cfg, s))
  {
    hide LedgerInv, RequestsInv, CanMove, NextMove, ValidCall, Issued;
    match s.driver
    case Issuing(node, i) =>
      if node <= Nodes(cfg) {
        assert Rank(DaemonOf(s, 1)) == 0;
      }
    case Awaiting(node, i) =>
      assert Rank(DaemonOf(s, 1)) == 0;
      assert Awaited(s, |s.reqs| - 1);
      PursueEnabled(cfg, s, |s.reqs| - 1);
    case Collecting(k) =>
      if k < |s.reqs| {
        var n := s.targets[0];
        assert Rank(DaemonOf(s, 1)) == 0;
        assert Awaited(s, k);
        PursueEnabled(cfg, s, k);
      }
  }

  lemma UsefulSuccessor(cfg: Config, s: State) returns (a: Action, s': State)
    requires ValidConfig(cfg) && Inv(cfg, s) && Benchmarking(s.driver) && Served(cfg)
    ensures Useful(a) && Step(cfg, s, a, s')
  {
    hide Enabled, Next, Useful, Placed, RequestsInv, DaemonsInv, LedgerInv;
    AlwaysUsefulStep(cfg, s);
    a := Schedule(cfg, s);
    s' := Next(cfg, s, a);
  }

  /** A run of useful steps only: failure-free, and up to shutdown. */
  ghost predicate UsefulRun(cfg: Config, ss: seq<State>, acts: seq<Action>)
    requires ValidConfig(cfg)
  {
    Run(cfg, ss, acts) && forall k | 0 <= k < |acts| :: Useful(acts[k])
  }

  /** No interleaving goes on for ever: the number of steps is bounded by the initial measure. */
  lemma {:induction false} RunsAreBounded(cfg: Config, ss: seq<State>, acts: seq<Action>, k: nat)
    requires ValidConfig(cfg) && UsefulRun(cfg, ss, acts) && k < |ss|
    ensures k + Measure(cfg, ss[k]) <= Measure(cfg, Initial(cfg))
  {
    hide Measure, Inv, Step;
    if k == 0 {
    } else {
      RunsAreBounded(cfg, ss, acts, k - 1);
      RunInv(cfg, ss, acts, k - 1);
      UsefulStepDecreases(cfg, ss[k - 1], acts[k - 1], ss[k]);
    }
  }

  ghost predicate CannotExtend(cfg: Config, s: State)
    requires ValidConfig(cfg)
  {
    forall a, s' :: Useful(a) ==> !Step(cfg, s, a, s')
  }

  /** With threads everywhere, a failure-free run that can go no further has returned from its call loop. */
  lemma MaximalRunsFinish(cfg: Config, ss: seq<State>, acts: seq<Action>)
    requires ValidConfig(cfg) && UsefulRun(cfg, ss, acts) && Served(cfg)
    requires CannotExtend(cfg, ss[|ss| - 1])
    ensures Finished(ss[|ss| - 1].driver)
  {
    hide Measure, Enabled, Next, Useful, Placed, RequestsInv, DaemonsInv, LedgerInv;
    var s := ss[|ss| - 1];
    RunInv(cfg, ss, acts, |ss| - 1);
    UsefulReachesStop(cfg, ss, acts, |ss| - 1);
    if Benchmarking(s.driver) {
      var a, s' := UsefulSuccessor(cfg, s);
    }
  }

  /** Useful steps take the driver no further than the start of StopAllDaemons. */
  lemma {:induction false} UsefulReachesStop(cfg: Config, ss: seq<State>, acts: seq<Action>, k: nat)
    requires ValidConfig(cfg) && UsefulRun(cfg, ss, acts) && k < |ss|
    ensures Benchmarking(ss[k].driver) || ss[k].driver == Stopping(1)
  {
    hide Moved, CanMove, NewRequest, ValidCall;
    if k == 0 {
    } else {
      UsefulReachesStop(cfg, ss, acts, k - 1);
      assert Step(cfg, ss[k - 1], acts[k - 1], ss[k]) && Useful(acts[k - 1]);
    }
  }

  /** Without a thread on some node no run with calls to make ever returns, failing steps included. */
  lemma FinishedMeansServed(cfg: Config, ss: seq<State>, acts: seq<Action>, k: nat)
    requires ValidConfig(cfg) && Run(cfg, ss, acts) && k < |ss| && Finished(ss[k].driver)
    ensures Served(cfg) && (cfg.rep == 0 || forall i | 0 <= i < |cfg.threads| :: cfg.threads[i] > 0)
  {
    hide DaemonsInv, LedgerInv, Issued, RequestInv, Run;
    ServedMeans(cfg);
    RunInv(cfg, ss, acts, k);
    var s := ss[k];
    if cfg.rep > 0 {
      forall n | 1 <= n <= Nodes(cfg)
        ensures ThreadsOf(cfg, n) > 0
      {
        var r := IssuedSome(s.targets, n);
        assert StageOf(s.reqs[r]).Taken?;
      }
    }
  }

  /** From any state of a failure-free run there is a way to the end of the call loop. */
  lemma {:induction false} CanFinish(cfg: Config, ss: seq<State>, acts: seq<Action>)
    returns (ss': seq<State>, acts': seq<Action>)
    requires ValidConfig(cfg) && UsefulRun(cfg, ss, acts) && Served(cfg)
    ensures UsefulRun(cfg, ss', acts') && ss <= ss' && acts <= acts' && ss'[|ss'| - 1].driver == Stopping(1)
    decreases Measure(cfg, ss[|ss| - 1])
  {
    hide Measure, Enabled, Next, Useful, Placed, RequestsInv, DaemonsInv, LedgerInv, Initial;
    var s := ss[|ss| - 1];
    RunInv(cfg, ss, acts, |ss| - 1);
    UsefulReachesStop(cfg, ss, acts, |ss| - 1);
    if Benchmarking(s.driver) {
      var a, s' := UsefulSuccessor(cfg, s);
      UsefulStepDecreases(cfg, s, a, s');
      ss', acts' := CanFinish(cfg, ss + [s'], acts + [a]);
    } else {
      ss', acts' := ss, acts;
    }
  }

  lemma ServedMeans(cfg: Config)
    ensures Served(cfg) <==> cfg.rep == 0 || forall i | 0 <= i < |cfg.threads| :: cfg.threads[i] > 0
  {
    assert forall i | 0 <= i < |cfg.threads| :: ThreadsOf(cfg, i + 1) == cfg.threads[i];
  }

  /** The call loop can return if and only if the benchmark can be served. */
  lemma FinishesIffServed(cfg: Config)
    requires ValidConfig(cfg)
    ensures Served(cfg) <==> exists ss: seq<State>, acts :: UsefulRun(cfg, ss, acts) && Finished(ss[|ss| - 1].driver)
    ensures Served(cfg) <==> cfg.rep == 0 || forall i | 0 <= i < |cfg.threads| :: cfg.threads[i] > 0
  {
    ServedMeans(cfg);
    if Served(cfg) {
      var ss, acts := CanFinish(cfg, [Initial(cfg)], []);
      assert UsefulRun(cfg, ss, acts) && Finished(ss[|ss| - 1].driver);
    }
    forall ss: seq<State>, acts | UsefulRun(cfg, ss, acts) && Finished(ss[|ss| - 1].driver)
      ensures Served(cfg)
    {
      FinishedMeansServed(cfg, ss, acts, |ss| - 1);
    }
  }
}
