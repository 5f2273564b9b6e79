/** The inductive invariant of the benchmark protocol, and what it says about every run. */
module Safety {
  import opened Basics
  import opened Wire
  import opened Layout
  import opened Handler
  import opened Protocol

  /** The bytes a completed call carries. */
  function PerCall(cfg: Config): nat { |cfg.call.message.md| + Planned(cfg.call) }

  /** The nested loops have issued everything before (node, i), in order. */
  ghost predicate Progressed(cfg: Config, targets: seq<nat>, node: nat, i: nat) {
    && node >= 1
    && |targets| == (node - 1) * cfg.rep + i
    && forall n | 1 <= n <= Nodes(cfg) ::
         Issued(targets, n) == if n < node then cfg.rep else if n == node then i else 0
  }

  /** Every node was sent exactly rep calls. */
  ghost predicate Full(cfg: Config, s: State) {
    && |s.targets| == Nodes(cfg) * cfg.rep
    && forall n | 1 <= n <= Nodes(cfg) :: Issued(s.targets, n) == cfg.rep
  }

  ghost predicate TakenUpTo(s: State, k: nat) {
    forall r | 0 <= r < |s.reqs| :: StageOf(s.reqs[r]).Taken? <==> r < k
  }

  /** The driver's program counter, or the one it failed at, fits what it has issued and collected. */
  ghost predicate Placed(cfg: Config, s: State) {
    match Position(s.driver)
    case Issuing(node, i) =>
      && 1 <= node <= Nodes(cfg) + 1 && i <= cfg.rep && (node > Nodes(cfg) ==> i == 0)
      && Progressed(cfg, s.targets, node, i)
      && TakenUpTo(s, if cfg.isAsync then 0 else |s.reqs|)
    case Awaiting(node, i) =>
      && !cfg.isAsync && 1 <= node <= Nodes(cfg) && i < cfg.rep
      && Progressed(cfg, s.targets, node, i + 1)
      && |s.reqs| > 0 && TakenUpTo(s, |s.reqs| - 1)
    case Collecting(k) => cfg.isAsync && k <= |s.reqs| && Full(cfg, s) && TakenUpTo(s, k)
    case Stopping(node) => 1 <= node <= Nodes(cfg) + 1 && Full(cfg, s) && TakenUpTo(s, |s.reqs|)
    case StopWaiting(node) => 1 <= node <= Nodes(cfg) + 1 && Full(cfg, s) && TakenUpTo(s, |s.reqs|)
    case Returned => Full(cfg, s) && TakenUpTo(s, |s.reqs|)
    case Aborted(_) => false
  }

  ghost predicate RequestsInv(cfg: Config, s: State)
    requires ValidConfig(cfg) && WellSized(cfg, s)
  {
    forall r | 0 <= r < |s.reqs| ::
      && RequestInv(cfg.call, s.reqs[r])
      && (s.reqs[r].phase.Queued? || ThreadsOf(cfg, s.targets[r]) > 0)
  }

  /** How far node n can be with its stop when the driver is at d. */
  predicate HeardAt(d: Driver, n: nat, rank: nat) {
    match d
    case Stopping(node) => if n >= node then rank == 0 else rank >= 1
    case StopWaiting(node) => rank >= if n < node then 2 else 1
    case Returned => rank >= 2
    case _ => rank == 0
  }

  /** No node has heard of the stop while a benchmark call is unfinished. */
  ghost predicate DaemonsInv(cfg: Config, s: State)
    requires WellSized(cfg, s)
  {
    && (forall n | 1 <= n <= Nodes(cfg) && Rank(DaemonOf(s, n)) > 0 :: Full(cfg, s) && TakenUpTo(s, |s.reqs|))
    && (forall n | 1 <= n <= Nodes(cfg) && ExitedAt(s, n) :: DaemonOf(s, n).ServerFinalized?)
    && forall n | 1 <= n <= Nodes(cfg) :: HeardAt(Position(s.driver), n, Rank(DaemonOf(s, n)))
  }

  /** Answers and collections together, over the requests of one node or of all. */
  function Done(targets: seq<nat>, reqs: seq<Request>, n: nat): nat
    requires |targets| == |reqs|
  {
    Tally(targets, reqs, n, Replied) + Tally(targets, reqs, n, Taken)
  }

  function DoneAnywhere(reqs: seq<Request>): nat { Count(reqs, Replied) + Count(reqs, Taken) }

  /** The handler counters and the payload total match the requests. */
  ghost predicate LedgerInv(cfg: Config, s: State)
    requires WellSized(cfg, s)
  {
    && (forall n | 1 <= n <= Nodes(cfg) :: RanBy(s, n) == Done(s.targets, s.reqs, n))
    && s.payload == DoneAnywhere(s.reqs) * PerCall(cfg)
  }

  ghost predicate Inv(cfg: Config, s: State)
    requires ValidConfig(cfg)
  {
    WellSized(cfg, s) && Placed(cfg, s) && RequestsInv(cfg, s) && DaemonsInv(cfg, s) && LedgerInv(cfg, s)
  }

  lemma InitialInv(cfg: Config)
    requires ValidConfig(cfg)
    ensures Inv(cfg, Initial(cfg))
  {
    assert forall n | 1 <= n <= Nodes(cfg) :: DaemonOf(Initial(cfg), n) == Serving;
  }

  /** A handler's move never touches a collected request, and only Respond makes an answer. */
  lemma MoveStages(call: Call, q: Request, m: Move)
    requires CanMove(call, q, m)
    ensures !StageOf(q).Taken? && !StageOf(q).Replied?
    ensures !StageOf(Moved(call, q, m)).Taken? && (StageOf(Moved(call, q, m)).Replied? <==> m.Respond?)
  {
    hide WriteFlat, PlannedBytes, Decode;
  }

  /** Index of the awaited request. */
  lemma AwaitedIs(s: State)
    requires exists r: nat :: Awaited(s, r)
    ensures Awaited(s, AwaitedIndex(s)) && forall r: nat | Awaited(s, r) :: r == AwaitedIndex(s)
  {}

  lemma StepKeepsRequests(cfg: Config, s: State, a: Action, s': State)
    requires ValidConfig(cfg) && Inv(cfg, s) && Step(cfg, s, a, s')
    ensures WellSized(cfg, s') && RequestsInv(cfg, s')
  {
    hide Full, TakenUpTo, Progressed, LedgerInv, Moved, CanMove, RequestInv, NewRequest, ValidCall;
    match a
    case Issue => NewRequestInv(cfg.call); NewRequestQueued(cfg.call);
    case Collect =>
      AwaitedIs(s);
      TakeKeepsRequest(cfg.call, s.reqs[AwaitedIndex(s)]);
    case Handle(r, m) => MoveKeepsRequest(cfg.call, s.reqs[r], m);
    case _ => assert s'.reqs == s.reqs;
  }

  lemma NewRequestQueued(call: Call)
    requires ValidCall(call)
    ensures NewRequest(call).phase.Queued? && StageOf(NewRequest(call)).InPool?
  {}

  lemma TakeKeepsRequest(call: Call, q: Request)
    requires ValidCall(call) && RequestInv(call, q) && q.phase.Answered?
    ensures RequestInv(call, Take(q)) && StageOf(Take(q)).Taken?
  {
    hide FlatView, Encode;
  }

  lemma IssuedAppend(targets: seq<nat>, node: nat, n: nat)
    ensures Issued(targets + [node], n) == Issued(targets, n) + (if node == n then 1 else 0)
  {
    assert (targets + [node])[..|targets|] == targets;
  }

  lemma IssueProgresses(cfg: Config, targets: seq<nat>, node: nat, i: nat)
    requires Progressed(cfg, targets, node, i)
    ensures Progressed(cfg, targets + [node], node, i + 1)
  {
    forall n | 1 <= n <= Nodes(cfg)
      ensures Issued(targets + [node], n) == if n < node then cfg.rep else if n == node then i + 1 else 0
    {
      IssuedAppend(targets, node, n);
    }
  }

  lemma NextNodeProgresses(cfg: Config, targets: seq<nat>, node: nat)
    requires Progressed(cfg, targets, node, cfg.rep)
    ensures Progressed(cfg, targets, node + 1, 0)
  {
    assert node * cfg.rep == (node - 1) * cfg.rep + cfg.rep;
  }

  lemma LoopKeepsPlace(cfg: Config, s: State, a: Action, s': State)
    requires ValidConfig(cfg) && Inv(cfg, s) && Step(cfg, s, a, s')
    requires a.Issue? || a.NextNode? || a.EndIssue?
    ensures Placed(cfg, s')
  {
    hide RequestsInv, DaemonsInv, LedgerInv, NewRequest, ValidCall, Issued;
    match a
    case Issue =>
      IssueProgresses(cfg, s.targets, s.driver.node, s.driver.i);
      NewRequestQueued(cfg.call);
    case NextNode => NextNodeProgresses(cfg, s.targets, s.driver.node);
    case EndIssue =>
  }

  lemma StepKeepsPlace(cfg: Config, s: State, a: Action, s': State)
    requires ValidConfig(cfg) && Inv(cfg, s) && Step(cfg, s, a, s')
    ensures Placed(cfg, s')
  {
    hide RequestsInv, DaemonsInv, LedgerInv, Moved, CanMove, NewRequest, ValidCall, Issued, Progressed;
    match a
    case Issue => LoopKeepsPlace(cfg, s, a, s');
    case NextNode => LoopKeepsPlace(cfg, s, a, s');
    case EndIssue => LoopKeepsPlace(cfg, s, a, s');
    case Collect => AwaitedIs(s);
    case Handle(r, m) => MoveStages(cfg.call, s.reqs[r], m);
    case _ => assert s'.reqs == s.reqs && s'.targets == s.targets;
  }

  /** A stop action moves one node and happens only once everything is collected. */
  lemma StopKeepsDaemons(cfg: Config, s: State, a: Action, s': State)
    requires ValidConfig(cfg) && Inv(cfg, s) && Step(cfg, s, a, s')
    requires a.SendStop? || a.AnswerStop? || a.FinalizeClient? || a.FinalizeServer? || a.ExitDaemon?
    ensures WellSized(cfg, s') && DaemonsInv(cfg, s')
  {
    hide RequestsInv, LedgerInv, Moved, CanMove, NewRequest, ValidCall, Issued;
    assert Full(cfg, s') == Full(cfg, s) && TakenUpTo(s', |s'.reqs|) == TakenUpTo(s, |s.reqs|);
    hide Full, TakenUpTo, Progressed;
    var node := if a.SendStop? then s.driver.node else a.node;
    assert forall n | 1 <= n <= Nodes(cfg) && n != node ::
        DaemonOf(s', n) == DaemonOf(s, n) && ExitedAt(s', n) == ExitedAt(s, n);
    assert Rank(DaemonOf(s, node)) > 0 || a.SendStop?;
  }

  /** Nothing else moves a daemon; while a call can still change, no node has heard of the stop. */
  lemma CallKeepsDaemons(cfg: Config, s: State, a: Action, s': State)
    requires ValidConfig(cfg) && Inv(cfg, s) && Step(cfg, s, a, s')
    requires a.Issue? || a.Collect? || a.Handle?
    ensures WellSized(cfg, s') && DaemonsInv(cfg, s')
  {
    hide RequestsInv, LedgerInv, Moved, CanMove, NewRequest, ValidCall, Issued, Full, Progressed, Rank;
    assert forall n | 1 <= n <= Nodes(cfg) :: DaemonOf(s', n) == DaemonOf(s, n) && ExitedAt(s', n) == ExitedAt(s, n);
    if a.Handle? {
      MoveStages(cfg.call, s.reqs[a.r], a.move);
    } else if a.Collect? {
      AwaitedIs(s);
    }
    assert forall n | 1 <= n <= Nodes(cfg) :: Rank(DaemonOf(s', n)) == 0;
  }

  lemma StepKeepsDaemons(cfg: Config, s: State, a: Action, s': State)
    requires ValidConfig(cfg) && Inv(cfg, s) && Step(cfg, s, a, s')
    ensures WellSized(cfg, s') && DaemonsInv(cfg, s')
  {
    hide RequestsInv, LedgerInv, Moved, CanMove, NewRequest, ValidCall, Issued, Rank;
    if a.SendStop? || a.AnswerStop? || a.FinalizeClient? || a.FinalizeServer? || a.ExitDaemon? {
      StopKeepsDaemons(cfg, s, a, s');
    } else if a.Issue? || a.Collect? || a.Handle? {
      CallKeepsDaemons(cfg, s, a, s');
    } else {
      assert Full(cfg, s') == Full(cfg, s) && TakenUpTo(s', |s'.reqs|) == TakenUpTo(s, |s.reqs|);
      hide Full, TakenUpTo;
      assert forall n | 1 <= n <= Nodes(cfg) :: DaemonOf(s', n) == DaemonOf(s, n) && ExitedAt(s', n) == ExitedAt(s, n);
    }
  }

  lemma TallyAppend(targets: seq<nat>, reqs: seq<Request>, node: nat, q: Request,
                                       n: nat, stage: Stage)
    requires |targets| == |reqs|
    ensures Tally(targets + [node], reqs + [q], n, stage)
         == Tally(targets, reqs, n, stage) + (if node == n && StageOf(q) == stage then 1 else 0)
    ensures Count(reqs + [q], stage) == Count(reqs, stage) + (if StageOf(q) == stage then 1 else 0)
  {
    assert (targets + [node])[..|reqs|] == targets && (reqs + [q])[..|reqs|] == reqs;
  }

  /** Changing request r to q counts it as done exactly when it was not and now is. */
  lemma DoneUpdate(targets: seq<nat>, reqs: seq<Request>, r: nat, q: Request)
    requires |targets| == |reqs| && r < |reqs| && !StageOf(reqs[r]).Taken?
    requires !StageOf(reqs[r]).Replied? || StageOf(q).Taken?
    ensures var more := if !StageOf(reqs[r]).Replied? && (StageOf(q).Replied? || StageOf(q).Taken?) then 1 else 0;
            && DoneAnywhere(reqs[r := q]) == DoneAnywhere(reqs) + more
            && forall n: nat :: Done(targets, reqs[r := q], n)
                             == Done(targets, reqs, n) + if targets[r] == n then more else 0
  {
    hide Tally, Count;
    forall n: nat
      ensures Done(targets, reqs[r := q], n) + (if targets[r] == n && StageOf(reqs[r]).Replied? then 1 else 0)
           == Done(targets, reqs, n) + (if targets[r] == n && (StageOf(q).Replied? || StageOf(q).Taken?) then 1 else 0)
    {
      TallyUpdate(targets, reqs, r, q, n, Replied);
      TallyUpdate(targets, reqs, r, q, n, Taken);
    }
    CountUpdate(reqs, r, q, Replied);
    CountUpdate(reqs, r, q, Taken);
  }

  lemma DoneAppend(targets: seq<nat>, reqs: seq<Request>, node: nat, q: Request)
    requires |targets| == |reqs| && StageOf(q).InPool?
    ensures DoneAnywhere(reqs + [q]) == DoneAnywhere(reqs)
    ensures forall n: nat :: Done(targets + [node], reqs + [q], n) == Done(targets, reqs, n)
  {
    hide Tally, Count;
    forall n: nat
      ensures Done(targets + [node], reqs + [q], n) == Done(targets, reqs, n)
    {
      TallyAppend(targets, reqs, node, q, n, Replied);
      TallyAppend(targets, reqs, node, q, n, Taken);
    }
    TallyAppend(targets, reqs, node, q, 0, Replied);
    TallyAppend(targets, reqs, node, q, 0, Taken);
  }

  lemma StepKeepsLedger(cfg: Config, s: State, a: Action, s': State)
    requires ValidConfig(cfg) && Inv(cfg, s) && Step(cfg, s, a, s')
    ensures WellSized(cfg, s') && LedgerInv(cfg, s')
  {
    hide Placed, DaemonsInv, Moved, CanMove, NewRequest, Issued, Done, DoneAnywhere, RequestInv;
    match a
    case Issue =>
      NewRequestQueued(cfg.call);
      DoneAppend(s.targets, s.reqs, s.driver.node, NewRequest(cfg.call));
      assert forall n | 1 <= n <= Nodes(cfg) :: RanBy(s', n) == RanBy(s, n);
    case Collect =>
      AwaitedIs(s);
      var r := AwaitedIndex(s);
      DoneUpdate(s.targets, s.reqs, r, Take(s.reqs[r]));
      assert forall n | 1 <= n <= Nodes(cfg) :: RanBy(s', n) == RanBy(s, n);
    case Handle(r, m) => HandleKeepsLedger(cfg, s, r, m, s');
    case _ => assert s'.reqs == s.reqs && s'.targets == s.targets && s'.ran == s.ran && s'.payload == s.payload;
  }

  lemma HandleKeepsLedger(cfg: Config, s: State, r: nat, m: Move, s': State)
    requires ValidConfig(cfg) && Inv(cfg, s) && Step(cfg, s, Handle(r, m), s')
    ensures WellSized(cfg, s') && LedgerInv(cfg, s')
  {
    hide Placed, DaemonsInv, NewRequest, ValidCall, Issued, Done, DoneAnywhere, RequestInv, Moved, CanMove;
    var q := Moved(cfg.call, s.reqs[r], m);
    MoveStages(cfg.call, s.reqs[r], m);
    DoneUpdate(s.targets, s.reqs, r, q);
    if m.Respond? {
      MoveKeepsRequest(cfg.call, s.reqs[r], m);
      AnsweredMoved(cfg.call, q);
      var node := s.targets[r];
      assert forall n | 1 <= n <= Nodes(cfg) && n != node :: RanBy(s', n) == RanBy(s, n);
      assert RanBy(s', node) == RanBy(s, node) + 1;
      assert s'.payload == s.payload + PerCall(cfg) && DoneAnywhere(s'.reqs) == DoneAnywhere(s.reqs) + 1;
      OneMore(DoneAnywhere(s.reqs), PerCall(cfg));
    } else {
      assert forall n | 1 <= n <= Nodes(cfg) :: RanBy(s', n) == RanBy(s, n);
    }
  }

  lemma OneMore(d: nat, p: nat)
    ensures (d + 1) * p == d * p + p
  {}

  lemma AnsweredMoved(call: Call, q: Request)
    requires ValidCall(call) && RequestInv(call, q) && StageOf(q).Replied?
    ensures q.phase.moved == Planned(call) && q.md == Some(call.message.md)
  {}

  lemma StepKeepsInv(cfg: Config, s: State, a: Action, s': State)
    requires ValidConfig(cfg) && Inv(cfg, s) && Step(cfg, s, a, s')
    ensures Inv(cfg, s')
  {
    hide *;
    StepKeepsRequests(cfg, s, a, s');
    StepKeepsPlace(cfg, s, a, s');
    StepKeepsDaemons(cfg, s, a, s');
    StepKeepsLedger(cfg, s, a, s');
    InvOf(cfg, s');
  }

  lemma InvOf(cfg: Config, s: State)
    requires ValidConfig(cfg) && WellSized(cfg, s) && Placed(cfg, s)
    requires RequestsInv(cfg, s) && DaemonsInv(cfg, s) && LedgerInv(cfg, s)
    ensures Inv(cfg, s)
  {}

  /** The invariant holds in every state of every run. */
  lemma {:induction false} RunInv(cfg: Config, ss: seq<State>, acts: seq<Action>, k: nat)
    requires ValidConfig(cfg) && Run(cfg, ss, acts) && k < |ss|
    ensures Inv(cfg, ss[k])
  {
    hide Inv, Step, Initial;
    if k == 0 {
      InitialInv(cfg);
    } else {
      RunInv(cfg, ss, acts, k - 1);
      StepKeepsInv(cfg, ss[k - 1], acts[k - 1], ss[k]);
    }
  }
}
