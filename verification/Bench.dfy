/**
 * The call loops of chi_net_bench.cc as they are written, run against a cluster in which
 * any handlers may move between any two statements of the driver.
 */
module Bench {
  import opened Handler
  import opened Protocol
  import opened Safety
  import opened Progress
  import opened Runs

  /** A cluster part-way through a failure-free run; the trace is its history. */
  class Cluster {
    const cfg: Config
    ghost var states: seq<State>
    ghost var acts: seq<Action>

    ghost predicate Valid()
      reads this
    {
      ValidConfig(cfg) && Served(cfg) && |states| == |acts| + 1 && UsefulRun(cfg, states, acts)
    }

    ghost function Now(): State
      requires states != []
      reads this
    {
      states[|states| - 1]
    }

    ghost predicate At(d: Driver)
      reads this
    {
      Valid() && Now().driver == d
    }

    constructor (cfg: Config)
      requires ValidConfig(cfg) && Served(cfg)
      ensures this.cfg == cfg && At(Issuing(1, 0)) && Now() == Initial(cfg)
    {
      this.cfg, states, acts := cfg, [Initial(cfg)], [];
    }

    /** One step of the machine. */
    ghost method Do(a: Action, s': State)
      requires Valid() && Useful(a) && Step(cfg, Now(), a, s')
      modifies this
      ensures Valid() && Now() == s' && states == old(states) + [s'] && acts == old(acts) + [a]
    {
      hide Enabled, Next, Useful;
      states, acts := states + [s'], acts + [a];
    }

    /** Handlers move on their own: any number of them, in any order, none of the driver's doing. */
    ghost method Interleave()
      requires Valid()
      modifies this
      ensures Valid() && old(states) <= states && old(acts) <= acts
      ensures forall k | |old(acts)| <= k < |acts| :: acts[k].Handle?
    {}

    /** Handlers do not touch the driver, and leave no less to wait for. */
    ghost method Pass()
      requires Valid()
      modifies this
      ensures Valid() && Now().driver == old(Now().driver) && |Now().reqs| == |old(Now().reqs)|
      ensures Measure(cfg, Now()) <= old(Measure(cfg, Now()))
    {
      hide Run, Measure;
      ghost var j := |states| - 1;
      Interleave();
      HandlesKeepDriver(cfg, states, acts, j, |states| - 1);
    }

    /** Block until response r is there, and take it. */
    ghost method Wait(r: nat)
      requires Valid() && Awaited(Now(), r)
      modifies this
      ensures Valid() && Now().driver == old(AfterCollect(Now().driver)) && |Now().reqs| == |old(Now().reqs)|
      decreases Measure(cfg, Now())
    {
      hide Run, Measure, Enabled, Next, Useful;
      Pass();
      var a, s' := NextForWait(cfg, states, acts);
      WaitStep(cfg, states, acts, a, s');
      Do(a, s');
      if a.Handle? {
        Wait(r);
      }
    }

    /** AsyncIoCall or AsyncCall to a node: one more response is pending. */
    method IssueAsync(ghost node: nat, ghost i: nat)
      requires At(Issuing(node, i)) && cfg.isAsync && 1 <= node <= Nodes(cfg) && i < cfg.rep
      modifies this
      ensures At(Issuing(node, i + 1)) && |Now().reqs| == |old(Now().reqs)| + 1
    {
      hide Run, Step, Measure, Served, ValidConfig;
      Pass();
      ghost var s' := IssueStep(cfg, states, acts);
      Do(Issue, s');
    }

    /** SyncIoCall or SyncCall to a node: returns with the response. */
    method IssueSync(ghost node: nat, ghost i: nat)
      requires At(Issuing(node, i)) && !cfg.isAsync && 1 <= node <= Nodes(cfg) && i < cfg.rep
      modifies this
      ensures At(Issuing(node, i + 1))
    {
      hide Run, Step, Measure, Served, ValidConfig;
      Pass();
      ghost var s' := IssueStep(cfg, states, acts);
      Do(Issue, s');
      Wait(|Now().reqs| - 1);
    }

    ghost method LeaveLoop(a: Action)
      requires Valid()
      requires a == NextNode ==> Now().driver.Issuing? && Now().driver.node <= Nodes(cfg) && Now().driver.i == cfg.rep
      requires a == EndIssue ==> Now().driver.Issuing? && Now().driver.node > Nodes(cfg)
      requires a == EndCollect ==> Now().driver.Collecting? && Now().driver.k == |Now().reqs|
      requires a == NextNode || a == EndIssue || a == EndCollect
      modifies this
      ensures Valid() && |Now().reqs| == |old(Now().reqs)|
      ensures Now().driver == match a
                              case NextNode => Issuing(old(Now().driver).node + 1, 0)
                              case EndIssue => AfterIssue(cfg)
                              case _ => Stopping(1)
    {
      hide Run, Step;
      ghost var s' := LeaveStep(cfg, states, acts, a);
      Do(a, s');
    }

    /** IoCalls and MetadataCalls: the loops differ only in the call they make. */
    method Calls()
      requires At(Issuing(1, 0)) && Now().reqs == []
      modifies this
      ensures Valid() && Finished(Now().driver)
      ensures WellSized(cfg, Now()) && Complete(cfg, Now())
    {
      var numHosts := |cfg.threads|;
      var responses: seq<nat> := [];
      var node := 1;
      while node <= numHosts
        invariant 1 <= node <= numHosts + 1 && At(Issuing(node, 0))
        invariant cfg.isAsync ==> |responses| == |Now().reqs|
        invariant forall k | 0 <= k < |responses| :: responses[k] == k
      {
        var i := 0;
        while i < cfg.rep
          invariant i <= cfg.rep && At(Issuing(node, i))
          invariant cfg.isAsync ==> |responses| == |Now().reqs|
          invariant forall k | 0 <= k < |responses| :: responses[k] == k
        {
          if cfg.isAsync {
            IssueAsync(node, i);
            responses := responses + [|responses|];
          } else {
            IssueSync(node, i);
          }
          i := i + 1;
        }
        LeaveLoop(NextNode);
        node := node + 1;
      }
      LeaveLoop(EndIssue);
      if cfg.isAsync {
        var k := 0;
        while k < |responses|
          invariant At(Collecting(k)) && k <= |responses| == |Now().reqs|
        {
          Wait(responses[k]);
          k := k + 1;
        }
        LeaveLoop(EndCollect);
      }
      ReturnMeansComplete(cfg, states, acts, |states| - 1);
    }
  }

  lemma InvNow(cfg: Config, ss: seq<State>, acts: seq<Action>)
    requires ValidConfig(cfg) && UsefulRun(cfg, ss, acts)
    ensures Inv(cfg, ss[|ss| - 1])
  {
    RunInv(cfg, ss, acts, |ss| - 1);
  }

  lemma {:induction false} HandlesKeepDriver(cfg: Config, ss: seq<State>, acts: seq<Action>, j: nat, k: nat)
    requires ValidConfig(cfg) && UsefulRun(cfg, ss, acts) && j <= k < |ss|
    requires forall l | j <= l < k :: acts[l].Handle?
    ensures ss[k].driver == ss[j].driver && |ss[k].reqs| == |ss[j].reqs|
    ensures Measure(cfg, ss[k]) <= Measure(cfg, ss[j])
    decreases k
  {
    hide Measure, Inv, Moved, CanMove, Initial;
    if j == k {
    } else {
      HandlesKeepDriver(cfg, ss, acts, j, k - 1);
      RunInv(cfg, ss, acts, k - 1);
      UsefulStepDecreases(cfg, ss[k - 1], acts[k - 1], ss[k]);
    }
  }

  lemma IssueStep(cfg: Config, ss: seq<State>, acts: seq<Action>) returns (s': State)
    requires ValidConfig(cfg) && Served(cfg) && |ss| > 0 && UsefulRun(cfg, ss, acts)
    requires var d := ss[|ss| - 1].driver; d.Issuing? && d.node <= Nodes(cfg) && d.i < cfg.rep
    ensures var s := ss[|ss| - 1];
            && Step(cfg, s, Issue, s') && |s'.reqs| == |s.reqs| + 1
            && s'.driver == if cfg.isAsync then Issuing(s.driver.node, s.driver.i + 1)
                            else Awaiting(s.driver.node, s.driver.i)
  {
    hide Run, RequestsInv, LedgerInv, NewRequest;
    var s := ss[|ss| - 1];
    InvNow(cfg, ss, acts);
    AlwaysUsefulStep(cfg, s);
    s' := Next(cfg, s, Issue);
  }

  lemma LeaveStep(cfg: Config, ss: seq<State>, acts: seq<Action>, a: Action) returns (s': State)
    requires ValidConfig(cfg) && |ss| > 0 && UsefulRun(cfg, ss, acts)
    requires var s := ss[|ss| - 1];
             match a
             case NextNode => s.driver.Issuing? && s.driver.node <= Nodes(cfg) && s.driver.i == cfg.rep
             case EndIssue => s.driver.Issuing? && s.driver.node > Nodes(cfg)
             case EndCollect => s.driver.Collecting? && s.driver.k == |s.reqs|
             case _ => false
    ensures var s := ss[|ss| - 1];
            && Step(cfg, s, a, s') && |s'.reqs| == |s.reqs|
            && s'.driver == match a
                            case NextNode => Issuing(s.driver.node + 1, 0)
                            case EndIssue => AfterIssue(cfg)
                            case _ => Stopping(1)
  {
    hide Run, Placed, RequestsInv, DaemonsInv, LedgerInv;
    var s := ss[|ss| - 1];
    InvNow(cfg, ss, acts);
    s' := Next(cfg, s, a);
  }

  /** What the waiting driver can count on next: the response, or a move of the handler that makes it. */
  lemma NextForWait(cfg: Config, ss: seq<State>, acts: seq<Action>) returns (a: Action, s': State)
    requires ValidConfig(cfg) && Served(cfg) && |ss| > 0 && UsefulRun(cfg, ss, acts)
    requires var s := ss[|ss| - 1]; s.driver.Awaiting? || (s.driver.Collecting? && s.driver.k < |s.reqs|)
    ensures Useful(a) && Step(cfg, ss[|ss| - 1], a, s') && (a.Collect? || a.Handle?)
  {
    hide Run, RequestsInv, LedgerInv, DaemonsInv, NextMove, Enabled, Next;
    var s := ss[|ss| - 1];
    InvNow(cfg, ss, acts);
    AlwaysUsefulStep(cfg, s);
    a := Schedule(cfg, s);
    s' := Next(cfg, s, a);
  }

  lemma WaitStep(cfg: Config, ss: seq<State>, acts: seq<Action>, a: Action, s': State)
    requires ValidConfig(cfg) && |ss| > 0 && UsefulRun(cfg, ss, acts) && Step(cfg, ss[|ss| - 1], a, s')
    requires a.Collect? || a.Handle?
    ensures var s := ss[|ss| - 1];
            && |s'.reqs| == |s.reqs| && Measure(cfg, s') < Measure(cfg, s)
            && (if a.Collect? then (s.driver.Awaiting? || s.driver.Collecting?) && s'.driver == AfterCollect(s.driver)
                else s'.driver == s.driver)
  {
    hide Run, Inv, Measure, Moved, CanMove;
    InvNow(cfg, ss, acts);
    UsefulStepDecreases(cfg, ss[|ss| - 1], a, s');
  }
}
