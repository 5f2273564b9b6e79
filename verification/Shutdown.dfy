/**
 * How far StopAllDaemons gets. Node 1 is stopped first and its handler finalises the client
 * engine that the driver is still using; sending or waiting on a finalised engine may
 * succeed or fail, so the machine allows both.
 */
module Shutdown {
  import opened Basics
  import opened Handler
  import opened Protocol
  import opened Safety
  import opened Runs
  import opened Progress

  /** What node n does next with its stop request. */
  function NextStop(s: State, n: nat): Action
    requires 1 <= n <= |s.daemons|
  {
    match DaemonOf(s, n)
    case StopQueued => AnswerStop(n)
    case StopAnswered => FinalizeClient(n)
    case ClientFinalized => FinalizeServer(n)
    case _ => ExitDaemon(n)
  }

  /** A queued stop goes on, one rank at a time, wherever the driver is. */
  lemma StopGoesOn(cfg: Config, s: State, n: nat) returns (s': State)
    requires ValidConfig(cfg) && WellSized(cfg, s) && 1 <= n <= Nodes(cfg)
    requires ThreadsOf(cfg, n) > 0 && 1 <= Rank(DaemonOf(s, n)) < 4
    ensures Step(cfg, s, NextStop(s, n), s') && WellSized(cfg, s')
    ensures s'.driver == s.driver && Rank(DaemonOf(s', n)) == Rank(DaemonOf(s, n)) + 1
    ensures s'.exited == s.exited && forall m | 1 <= m <= Nodes(cfg) && m != n :: DaemonOf(s', m) == DaemonOf(s, m)
  {
    s' := Next(cfg, s, NextStop(s, n));
  }

  /** The driver's steps that go through its client engine. */
  predicate UsesClient(a: Action) { a.Issue? || a.Collect? || a.SendStop? || a.CollectStop? }

  /** The driver never sends or waits over a finalised client engine. */
  ghost predicate SafeClient(ss: seq<State>, acts: seq<Action>) {
    |ss| == |acts| + 1 && forall k | 0 <= k < |acts| && UsesClient(acts[k]) :: ClientAlive(ss[k])
  }

  /** One more step at the end of a run. */
  lemma Extend(cfg: Config, ss: seq<State>, acts: seq<Action>, a: Action, s': State)
    requires ValidConfig(cfg) && Run(cfg, ss, acts) && Step(cfg, ss[|ss| - 1], a, s')
    ensures Run(cfg, ss + [s'], acts + [a])
    ensures SafeClient(ss, acts) && (UsesClient(a) ==> ClientAlive(Last(ss))) ==> SafeClient(ss + [s'], acts + [a])
  {
    hide Step, Initial;
  }

  ghost predicate Extends(cfg: Config, ss: seq<State>, acts: seq<Action>, ss': seq<State>, acts': seq<Action>)
    requires ValidConfig(cfg)
  {
    Run(cfg, ss, acts) && Run(cfg, ss', acts') && ss <= ss' && acts <= acts'
  }

  /** The same but for node n's stop. */
  ghost predicate OnlyNode(cfg: Config, s: State, s': State, n: nat) {
    && WellSized(cfg, s) && WellSized(cfg, s') && s'.driver == s.driver && s'.exited == s.exited
    && forall m | 1 <= m <= Nodes(cfg) && m != n :: DaemonOf(s', m) == DaemonOf(s, m)
  }

  /** From any run, failed ones too, a node with a thread that was sent a stop can carry it as far as `rank`. */
  lemma {:induction false} CarriesStop(cfg: Config, ss: seq<State>, acts: seq<Action>, n: nat, rank: nat)
    returns (ss': seq<State>, acts': seq<Action>)
    requires ValidConfig(cfg) && Run(cfg, ss, acts) && 1 <= n <= Nodes(cfg) && ThreadsOf(cfg, n) > 0
    requires WellSized(cfg, Last(ss)) && 1 <= Rank(DaemonOf(Last(ss), n)) <= rank <= 4
    ensures Extends(cfg, ss, acts, ss', acts') && (SafeClient(ss, acts) ==> SafeClient(ss', acts'))
    ensures OnlyNode(cfg, Last(ss), Last(ss'), n) && Rank(DaemonOf(Last(ss'), n)) == rank
    decreases rank - Rank(DaemonOf(Last(ss), n))
  {
    assert ss != [];
    hide Run, Step, Rank, SafeClient;
    if Rank(DaemonOf(Last(ss), n)) == rank {
      ss', acts' := ss, acts;
    } else {
      var a := NextStop(Last(ss), n);
      var s' := StopGoesOn(cfg, Last(ss), n);
      Extend(cfg, ss, acts, a, s');
      ss', acts' := CarriesStop(cfg, ss + [s'], acts + [a], n, rank);
    }
  }

  lemma SendStep(cfg: Config, s: State) returns (s': State)
    requires ValidConfig(cfg) && WellSized(cfg, s) && s.driver.Stopping? && 1 <= s.driver.node <= Nodes(cfg)
    ensures Step(cfg, s, SendStop, s') && WellSized(cfg, s') && s'.driver == Stopping(s.driver.node + 1)
    ensures DaemonOf(s', s.driver.node).StopQueued?
    ensures forall n | 1 <= n <= Nodes(cfg) && n != s.driver.node :: DaemonOf(s', n) == DaemonOf(s, n)
  {
    s' := Next(cfg, s, SendStop);
  }

  /** The driver still has stops to send, and its client engine is finalised. */
  ghost predicate SendsOnDeadClient(cfg: Config, s: State) {
    s.driver.Stopping? && s.driver.node <= Nodes(cfg) && !ClientAlive(s)
  }

  /** A node has answered a stop only if it has a thread to answer on. */
  lemma AnsweredHasThread(cfg: Config, ss: seq<State>, acts: seq<Action>, k: nat, n: nat)
    requires ValidConfig(cfg) && Run(cfg, ss, acts) && k < |ss| && 1 <= n <= Nodes(cfg)
    requires WellSized(cfg, ss[k]) && Rank(DaemonOf(ss[k], n)) >= 2
    ensures ThreadsOf(cfg, n) > 0
  {
    hide Rank, Placed, RequestsInv, DaemonsInv, LedgerInv, Initial, Next;
    var j := RankPassed(cfg, ss, acts, k, n, 2);
    RunInv(cfg, ss, acts, j);
    StepRank(cfg, ss[j], acts[j], ss[j + 1], n);
    assert Enabled(cfg, ss[j], AnswerStop(n));
  }

  /**
   * Some run leaves the driver sending stops on a finalised client engine exactly when the
   * call loop can return, there is a node after the first, and node 1 has an RPC thread.
   */
  lemma ClientMayDieWhileSending(cfg: Config)
    requires ValidConfig(cfg)
    ensures (exists ss: seq<State>, acts :: Run(cfg, ss, acts) && SendsOnDeadClient(cfg, Last(ss))) <==>
            Served(cfg) && Nodes(cfg) >= 2 && ThreadsOf(cfg, 1) > 0
    ensures Served(cfg) && Nodes(cfg) >= 2 && ThreadsOf(cfg, 1) > 0 <==>
            && |cfg.threads| >= 2 && cfg.threads[0] > 0
            && (cfg.rep == 0 || forall i | 0 <= i < |cfg.threads| :: cfg.threads[i] > 0)
  {
    ServedMeans(cfg);
    hide Step, Initial, Enabled, Next, Served, Placed, RequestsInv, LedgerInv;
    if Served(cfg) && Nodes(cfg) >= 2 && ThreadsOf(cfg, 1) > 0 {
      InitialRun(cfg);
      var ss, acts := CanFinish(cfg, [Initial(cfg)], []);
      RunInv(cfg, ss, acts, |ss| - 1);
      var s' := SendStep(cfg, Last(ss));
      Extend(cfg, ss, acts, SendStop, s');
      var ss', acts' := CarriesStop(cfg, ss + [s'], acts + [SendStop], 1, 3);
      assert DaemonOf(Last(ss'), 1) == Last(ss').daemons[0];
      assert Run(cfg, ss', acts') && SendsOnDeadClient(cfg, Last(ss'));
    }
    forall ss: seq<State>, acts | Run(cfg, ss, acts) && SendsOnDeadClient(cfg, Last(ss))
      ensures Served(cfg) && Nodes(cfg) >= 2 && ThreadsOf(cfg, 1) > 0
    {
      FinishedMeansServed(cfg, ss, acts, |ss| - 1);
      RunInv(cfg, ss, acts, |ss| - 1);
      DeadClientNode(cfg, Last(ss));
      AnsweredHasThread(cfg, ss, acts, |ss| - 1, 1);
    }
  }

  lemma InitialRun(cfg: Config)
    requires ValidConfig(cfg)
    ensures UsefulRun(cfg, [Initial(cfg)], [])
  {}

  lemma DeadClientNode(cfg: Config, s: State)
    requires ValidConfig(cfg) && Inv(cfg, s) && SendsOnDeadClient(cfg, s)
    ensures Nodes(cfg) >= 2 && Rank(DaemonOf(s, 1)) >= 2
  {
    hide RequestsInv, LedgerInv, Full, TakenUpTo, Issued;
    assert Nodes(cfg) >= 1;
    assert DaemonOf(s, 1) == s.daemons[0];
  }

  // ---- The whole shutdown ----

  /** Node n is down: its server engine is finalised and, unless it drives, RunDaemon has returned. */
  ghost predicate Down(cfg: Config, s: State, n: nat)
    requires WellSized(cfg, s) && 1 <= n <= Nodes(cfg)
  {
    DaemonOf(s, n).ServerFinalized? && (n >= 2 ==> ExitedAt(s, n))
  }

  /** StopAllDaemons has returned and every node is down. */
  ghost predicate AllDown(cfg: Config, s: State) {
    WellSized(cfg, s) && s.driver.Returned? && forall n | 1 <= n <= Nodes(cfg) :: Down(cfg, s, n)
  }

  lemma ExitStep(cfg: Config, s: State, n: nat) returns (s': State)
    requires ValidConfig(cfg) && WellSized(cfg, s) && 2 <= n <= Nodes(cfg) && DaemonOf(s, n).ServerFinalized?
    ensures Step(cfg, s, ExitDaemon(n), s') && WellSized(cfg, s') && Down(cfg, s', n)
    ensures s'.driver == s.driver && s'.daemons == s.daemons
    ensures forall m | 1 <= m <= Nodes(cfg) && m != n :: ExitedAt(s', m) == ExitedAt(s, m)
  {
    s' := Next(cfg, s, ExitDaemon(n));
  }

  /** A node with a thread that was sent a stop goes down, wherever the driver is. */
  lemma GoesDown(cfg: Config, ss: seq<State>, acts: seq<Action>, n: nat)
    returns (ss': seq<State>, acts': seq<Action>)
    requires ValidConfig(cfg) && Run(cfg, ss, acts) && 1 <= n <= Nodes(cfg) && ThreadsOf(cfg, n) > 0
    requires WellSized(cfg, Last(ss)) && Rank(DaemonOf(Last(ss), n)) >= 1
    ensures Extends(cfg, ss, acts, ss', acts') && WellSized(cfg, Last(ss')) && Down(cfg, Last(ss'), n)
    ensures Last(ss').driver == Last(ss).driver && (SafeClient(ss, acts) ==> SafeClient(ss', acts'))
    ensures forall m | 1 <= m <= Nodes(cfg) && m != n ::
              DaemonOf(Last(ss'), m) == DaemonOf(Last(ss), m) && ExitedAt(Last(ss'), m) == ExitedAt(Last(ss), m)
  {
    assert ss != [];
    hide Run, Step, SafeClient;
    ss', acts' := CarriesStop(cfg, ss, acts, n, 4);
    assert forall m | 1 <= m <= Nodes(cfg) :: ExitedAt(Last(ss'), m) == ExitedAt(Last(ss), m);
    if n >= 2 {
      var s' := ExitStep(cfg, Last(ss'), n);
      assert forall m | 1 <= m <= Nodes(cfg) :: DaemonOf(s', m) == DaemonOf(Last(ss'), m);
      Extend(cfg, ss', acts', ExitDaemon(n), s');
      ss', acts' := ss' + [s'], acts' + [ExitDaemon(n)];
    }
  }

  /** The nodes up to n go down one after the other. */
  lemma {:induction false} GoDownUpTo(cfg: Config, ss: seq<State>, acts: seq<Action>, n: nat)
    returns (ss': seq<State>, acts': seq<Action>)
    requires ValidConfig(cfg) && Run(cfg, ss, acts) && AllHaveThreads(cfg) && n <= Nodes(cfg)
    requires WellSized(cfg, Last(ss)) && forall m | 1 <= m <= Nodes(cfg) :: Rank(DaemonOf(Last(ss), m)) >= 1
    ensures Run(cfg, ss', acts') && WellSized(cfg, Last(ss')) && Last(ss').driver == Last(ss).driver
    ensures SafeClient(ss, acts) ==> SafeClient(ss', acts')
    ensures forall m | 1 <= m <= Nodes(cfg) :: Rank(DaemonOf(Last(ss'), m)) >= 1
    ensures forall m | 1 <= m <= n :: Down(cfg, Last(ss'), m)
  {
    assert ss != [];
    hide Run, SafeClient;
    if n == 0 {
      ss', acts' := ss, acts;
    } else {
      var rs, bcts := GoDownUpTo(cfg, ss, acts, n - 1);
      ss', acts' := GoesDown(cfg, rs, bcts, n);
      forall m | 1 <= m < n
        ensures Down(cfg, Last(ss'), m)
      {
        assert Down(cfg, Last(rs), m) && DaemonOf(Last(ss'), m) == DaemonOf(Last(rs), m);
      }
    }
  }

  ghost predicate AllHaveThreads(cfg: Config) { forall n | 1 <= n <= Nodes(cfg) :: ThreadsOf(cfg, n) > 0 }

  /** No node has gone further with its stop than to answer it. */
  ghost predicate NoneFinalized(cfg: Config, s: State)
    requires WellSized(cfg, s)
  {
    forall n | 1 <= n <= Nodes(cfg) :: Rank(DaemonOf(s, n)) <= 2
  }

  lemma NoneFinalizedAlive(cfg: Config, s: State)
    requires WellSized(cfg, s) && NoneFinalized(cfg, s) && Nodes(cfg) > 0
    ensures ClientAlive(s)
  {
    assert DaemonOf(s, 1) == s.daemons[0];
  }

  ghost predicate Sending(cfg: Config, s: State)
    requires ValidConfig(cfg)
  {
    Inv(cfg, s) && NoneFinalized(cfg, s) && s.driver.Stopping? && 1 <= s.driver.node <= Nodes(cfg) + 1
  }

  lemma SendSafely(cfg: Config, s: State) returns (s': State)
    requires ValidConfig(cfg) && Sending(cfg, s) && s.driver.node <= Nodes(cfg)
    ensures Step(cfg, s, SendStop, s') && ClientAlive(s)
    ensures Sending(cfg, s') && s'.driver.node == s.driver.node + 1
  {
    hide Step, Placed, RequestsInv, DaemonsInv, LedgerInv;
    NoneFinalizedAlive(cfg, s);
    s' := SendStep(cfg, s);
    StepKeepsInv(cfg, s, SendStop, s');
  }

  /** The driver sends all its stops before any node answers one. */
  lemma {:induction false} SendsAll(cfg: Config, ss: seq<State>, acts: seq<Action>)
    returns (ss': seq<State>, acts': seq<Action>)
    requires ValidConfig(cfg) && Run(cfg, ss, acts) && SafeClient(ss, acts) && Sending(cfg, Last(ss))
    ensures Run(cfg, ss', acts') && SafeClient(ss', acts')
    ensures Sending(cfg, Last(ss')) && Last(ss').driver == Stopping(Nodes(cfg) + 1)
    decreases Nodes(cfg) + 1 - Last(ss).driver.node
  {
    assert ss != [] && Last(ss).driver.Stopping?;
    assert Last(ss).driver.node <= Nodes(cfg) + 1;
    if Last(ss).driver.node == Nodes(cfg) + 1 {
      ss', acts' := ss, acts;
    } else {
      hide Run, Step, SafeClient, Sending;
      var s' := SendSafely(cfg, Last(ss));
      Extend(cfg, ss, acts, SendStop, s');
      DriverOf(cfg, s');
      ss', acts' := SendsAll(cfg, ss + [s'], acts + [SendStop]);
    }
  }

  lemma DriverOf(cfg: Config, s: State)
    requires ValidConfig(cfg) && Sending(cfg, s)
    ensures s.driver.Stopping? && 1 <= s.driver.node <= Nodes(cfg) + 1
  {}

  lemma EndSendStep(cfg: Config, s: State) returns (s': State)
    requires ValidConfig(cfg) && WellSized(cfg, s) && s.driver == Stopping(Nodes(cfg) + 1)
    ensures Step(cfg, s, EndSend, s') && s'.driver == StopWaiting(1) && s'.daemons == s.daemons
  {
    s' := Next(cfg, s, EndSend);
  }

  lemma CollectStopStep(cfg: Config, s: State) returns (s': State)
    requires ValidConfig(cfg) && WellSized(cfg, s) && s.driver.StopWaiting? && 1 <= s.driver.node <= Nodes(cfg)
    requires Rank(DaemonOf(s, s.driver.node)) >= 2
    ensures Step(cfg, s, CollectStop, s') && s'.driver == StopWaiting(s.driver.node + 1) && s'.daemons == s.daemons
  {
    s' := Next(cfg, s, CollectStop);
  }

  lemma EndStopStep(cfg: Config, s: State) returns (s': State)
    requires ValidConfig(cfg) && WellSized(cfg, s) && s.driver.StopWaiting? && s.driver.node > Nodes(cfg)
    ensures Step(cfg, s, EndStop, s') && s'.driver.Returned? && s'.daemons == s.daemons
  {
    s' := Next(cfg, s, EndStop);
  }

  lemma SameDaemons(cfg: Config, s: State, s': State)
    requires WellSized(cfg, s) && WellSized(cfg, s') && s'.daemons == s.daemons
    ensures NoneFinalized(cfg, s') <==> NoneFinalized(cfg, s)
  {
    assert forall n | 1 <= n <= Nodes(cfg) :: DaemonOf(s', n) == DaemonOf(s, n);
  }

  ghost predicate Waiting(cfg: Config, s: State)
    requires ValidConfig(cfg)
  {
    Inv(cfg, s) && NoneFinalized(cfg, s) && s.driver.StopWaiting? && 1 <= s.driver.node <= Nodes(cfg) + 1
  }

  /** A waiting driver: every node was sent its stop, and none has finalised an engine. */
  ghost predicate WaitsSafely(cfg: Config, ss: seq<State>, acts: seq<Action>)
    requires ValidConfig(cfg)
  {
    Run(cfg, ss, acts) && SafeClient(ss, acts) && Waiting(cfg, Last(ss))
  }

  lemma CollectSafely(cfg: Config, s: State) returns (s': State)
    requires ValidConfig(cfg) && Waiting(cfg, s) && s.driver.node <= Nodes(cfg)
    requires Rank(DaemonOf(s, s.driver.node)) >= 2
    ensures Step(cfg, s, CollectStop, s') && ClientAlive(s)
    ensures Waiting(cfg, s') && s'.driver.node == s.driver.node + 1
  {
    hide Step, Placed, RequestsInv, DaemonsInv, LedgerInv;
    NoneFinalizedAlive(cfg, s);
    s' := CollectStopStep(cfg, s);
    StepKeepsInv(cfg, s, CollectStop, s');
    SameDaemons(cfg, s, s');
  }

  /** The node that the driver waits for answers, and the driver takes the answer. */
  lemma AnswerAndCollect(cfg: Config, ss: seq<State>, acts: seq<Action>)
    returns (ss': seq<State>, acts': seq<Action>)
    requires ValidConfig(cfg) && WaitsSafely(cfg, ss, acts) && AllHaveThreads(cfg)
    requires Last(ss).driver.node <= Nodes(cfg)
    ensures WaitsSafely(cfg, ss', acts') && Last(ss').driver.node == Last(ss).driver.node + 1
  {
    assert ss != [];
    var n := Last(ss).driver.node;
    AwaitedNode(cfg, Last(ss));
    ss', acts' := CarriesStop(cfg, ss, acts, n, 2);
    hide Run, Step, SafeClient, Inv, Rank;
    RunInv(cfg, ss', acts', |ss'| - 1);
    var s' := CollectSafely(cfg, Last(ss'));
    Extend(cfg, ss', acts', CollectStop, s');
    ss', acts' := ss' + [s'], acts' + [CollectStop];
  }

  lemma AwaitedNode(cfg: Config, s: State)
    requires ValidConfig(cfg) && Waiting(cfg, s) && s.driver.node <= Nodes(cfg)
    ensures WellSized(cfg, s) && 1 <= Rank(DaemonOf(s, s.driver.node)) <= 2
  {
    hide Placed, RequestsInv, LedgerInv, Full, TakenUpTo;
  }

  lemma WellSizedOf(cfg: Config, s: State)
    requires ValidConfig(cfg) && Inv(cfg, s)
    ensures WellSized(cfg, s)
  {}

  /** Node by node, the driver collects all answers. */
  lemma {:induction false} CollectsAll(cfg: Config, ss: seq<State>, acts: seq<Action>)
    returns (ss': seq<State>, acts': seq<Action>)
    requires ValidConfig(cfg) && WaitsSafely(cfg, ss, acts) && AllHaveThreads(cfg)
    ensures WaitsSafely(cfg, ss', acts') && Last(ss').driver.node == Nodes(cfg) + 1
    decreases Nodes(cfg) + 1 - Last(ss).driver.node
  {
    assert ss != [] && 1 <= Last(ss).driver.node <= Nodes(cfg) + 1;
    if Last(ss).driver.node > Nodes(cfg) {
      ss', acts' := ss, acts;
    } else {
      hide WaitsSafely;
      ss', acts' := AnswerAndCollect(cfg, ss, acts);
      ss', acts' := CollectsAll(cfg, ss', acts');
    }
  }

  lemma UsefulIsSafe(cfg: Config, ss: seq<State>, acts: seq<Action>)
    requires ValidConfig(cfg) && UsefulRun(cfg, ss, acts)
    ensures SafeClient(ss, acts)
  {
    hide Next, Initial;
    forall k | 0 <= k < |acts| && UsesClient(acts[k])
      ensures ClientAlive(ss[k])
    {
      assert Step(cfg, ss[k], acts[k], ss[k + 1]) && Useful(acts[k]);
    }
  }

  lemma StopsBegin(cfg: Config, s: State)
    requires ValidConfig(cfg) && Inv(cfg, s) && s.driver == Stopping(1)
    ensures Sending(cfg, s)
  {}

  lemma AllSent(cfg: Config, s: State)
    requires ValidConfig(cfg) && Inv(cfg, s) && s.driver.Returned?
    ensures WellSized(cfg, s) && forall n | 1 <= n <= Nodes(cfg) :: Rank(DaemonOf(s, n)) >= 1
  {}

  /** With threads everywhere StopAllDaemons can return with a client engine that is still alive. */
  lemma StopAllReturns(cfg: Config) returns (ss: seq<State>, acts: seq<Action>)
    requires ValidConfig(cfg) && AllHaveThreads(cfg)
    ensures Run(cfg, ss, acts) && SafeClient(ss, acts) && Last(ss).driver.Returned?
  {
    InitialRun(cfg);
    assert Served(cfg);
    hide Run, Step, Initial, Inv, SafeClient, WellSized, AllHaveThreads, NoneFinalized, Served;
    ss, acts := CanFinish(cfg, [Initial(cfg)], []);
    UsefulIsSafe(cfg, ss, acts);
    RunInv(cfg, ss, acts, |ss| - 1);
    StopsBegin(cfg, Last(ss));
    ss, acts := SendsAll(cfg, ss, acts);
    var s' := EndSendStep(cfg, Last(ss));
    ss, acts := Onward(cfg, ss, acts, EndSend, s');
    ss, acts := CollectsAll(cfg, ss, acts);
    s' := EndStopStep(cfg, Last(ss));
    ss, acts := Onward(cfg, ss, acts, EndStop, s');
  }

  /** After that every node can go down. */
  lemma ShutsDown(cfg: Config) returns (ss: seq<State>, acts: seq<Action>)
    requires ValidConfig(cfg) && AllHaveThreads(cfg)
    ensures Run(cfg, ss, acts) && SafeClient(ss, acts) && AllDown(cfg, Last(ss))
  {
    hide Step, Initial, Inv, SafeClient, AllHaveThreads;
    ss, acts := StopAllReturns(cfg);
    RunInv(cfg, ss, acts, |ss| - 1);
    AllSent(cfg, Last(ss));
    ss, acts := GoDownUpTo(cfg, ss, acts, Nodes(cfg));
  }

  /** A step that uses no client engine and moves no node. */
  lemma Onward(cfg: Config, ss: seq<State>, acts: seq<Action>, a: Action, s': State)
    returns (ss': seq<State>, acts': seq<Action>)
    requires ValidConfig(cfg) && Run(cfg, ss, acts) && SafeClient(ss, acts)
    requires Inv(cfg, Last(ss)) && NoneFinalized(cfg, Last(ss))
    requires Step(cfg, Last(ss), a, s') && !UsesClient(a) && s'.daemons == Last(ss).daemons
    ensures Run(cfg, ss', acts') && SafeClient(ss', acts') && ss' != [] && Last(ss') == s'
    ensures Inv(cfg, s') && NoneFinalized(cfg, s')
  {
    hide Step, SafeClient, Inv;
    Extend(cfg, ss, acts, a, s');
    StepKeepsInv(cfg, Last(ss), a, s');
    WellSizedOf(cfg, Last(ss));
    WellSizedOf(cfg, s');
    SameDaemons(cfg, Last(ss), s');
    ss', acts' := ss + [s'], acts + [a];
  }

  /**
   * StopAllDaemons can return exactly when every node has an RPC thread; then it can return
   * without once sending or waiting over a finalised client engine, and all nodes go down.
   */
  lemma ShutsDownIffThreads(cfg: Config)
    requires ValidConfig(cfg)
    ensures AllHaveThreads(cfg) <==> exists ss: seq<State>, acts :: Run(cfg, ss, acts) && Last(ss).driver.Returned?
    ensures AllHaveThreads(cfg) <==>
            exists ss: seq<State>, acts :: Run(cfg, ss, acts) && SafeClient(ss, acts) && AllDown(cfg, Last(ss))
    ensures AllHaveThreads(cfg) <==> forall i | 0 <= i < |cfg.threads| :: cfg.threads[i] > 0
  {
    assert forall i | 0 <= i < |cfg.threads| :: ThreadsOf(cfg, i + 1) == cfg.threads[i];
    hide Step, Initial, Placed, RequestsInv, DaemonsInv, LedgerInv, SafeClient;
    if AllHaveThreads(cfg) {
      var ss, acts := ShutsDown(cfg);
      assert Run(cfg, ss, acts) && SafeClient(ss, acts) && AllDown(cfg, Last(ss));
    }
    forall ss: seq<State>, acts, n | Run(cfg, ss, acts) && Last(ss).driver.Returned? && 1 <= n <= Nodes(cfg)
      ensures ThreadsOf(cfg, n) > 0
    {
      StopReturns(cfg, ss, acts, |ss| - 1, n);
      AnsweredHasThread(cfg, ss, acts, |ss| - 1, n);
    }
  }

  // ---- A driver that fails ----

  /** A call may fail wherever the driver has one to issue, to wait for or to collect. */
  lemma FailsAnywhere(cfg: Config, s: State)
    requires ValidConfig(cfg) && WellSized(cfg, s)
    requires match s.driver
             case Issuing(node, i) => node <= |cfg.threads| && i < cfg.rep
             case Awaiting(_, _) => true
             case Collecting(k) => k < |s.reqs|
             case Stopping(node) => node <= |cfg.threads|
             case StopWaiting(node) => node <= |cfg.threads|
             case _ => false
    ensures Step(cfg, s, Fail, s.(driver := Aborted(s.driver)))
  {}

  /** The driver's client engine lives until node 1's stop handler has finalised it. */
  lemma ClientAliveMeans(s: State)
    ensures ClientAlive(s) <==>
            s.daemons != [] && (s.daemons[0] == Serving || s.daemons[0] == StopQueued || s.daemons[0] == StopAnswered)
  {}

  /** A driver at `at` has sent node n its stop. */
  predicate SentBefore(at: Driver, n: nat) { at.StopWaiting? || at.Returned? || (at.Stopping? && n < at.node) }

  lemma {:induction false} FailedStaysFailed(cfg: Config, ss: seq<State>, acts: seq<Action>, j: nat, k: nat)
    requires ValidConfig(cfg) && Run(cfg, ss, acts) && j <= k < |ss| && ss[j].driver.Aborted?
    ensures ss[k].driver == ss[j].driver
    decreases k
  {
    hide Moved, CanMove, NewRequest, ValidCall, Initial;
    if j == k {
    } else {
      FailedStaysFailed(cfg, ss, acts, j, k - 1);
      assert Step(cfg, ss[k - 1], acts[k - 1], ss[k]);
    }
  }

  /**
   * After the driver has failed, in the benchmark or in StopAllDaemons, a daemon with a
   * thread can still return exactly when its stop was sent before.
   */
  lemma ReturnsIffSent(cfg: Config, ss: seq<State>, acts: seq<Action>, n: nat)
    requires ValidConfig(cfg) && Run(cfg, ss, acts) && Last(ss).driver.Aborted?
    requires 2 <= n <= Nodes(cfg) && ThreadsOf(cfg, n) > 0
    ensures (exists ss': seq<State>, acts' ::
               Extends(cfg, ss, acts, ss', acts') && WellSized(cfg, Last(ss')) && ExitedAt(Last(ss'), n)) <==>
            SentBefore(Last(ss).driver.at, n)
  {
    hide Step, Initial, RequestsInv, LedgerInv, Full, TakenUpTo, Issued;
    RunInv(cfg, ss, acts, |ss| - 1);
    if SentBefore(Last(ss).driver.at, n) {
      var ss', acts' := GoesDown(cfg, ss, acts, n);
      assert Extends(cfg, ss, acts, ss', acts') && ExitedAt(Last(ss'), n);
    }
    forall ss': seq<State>, acts' | Extends(cfg, ss, acts, ss', acts')
        && WellSized(cfg, Last(ss')) && ExitedAt(Last(ss'), n)
      ensures SentBefore(Last(ss).driver.at, n)
    {
      FailedStaysFailed(cfg, ss', acts', |ss| - 1, |ss'| - 1);
      RunInv(cfg, ss', acts', |ss'| - 1);
      assert HeardAt(Last(ss').driver.at, n, Rank(DaemonOf(Last(ss'), n)));
    }
  }
}
