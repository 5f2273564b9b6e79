/**
 * The buffers of all requests in one memory per node. A handler allocates blocks at the end
 * of its node's memory and a pull stores single bytes into it, so nothing but the choice of
 * blocks keeps two handlers apart. Each run of this machine is a run of the one in which
 * every request carries its buffers with it, and the other way round.
 */
module NodeMemory {
  import opened Basics
  import opened Wire
  import opened Layout
  import opened Handler
  import opened Protocol
  import opened Safety
  import opened Runs

  /**
   * mems[n - 1] is the memory of node n, block by block; blocks[r] says which blocks of its
   * node's memory request r uses. The requests of `control` hold no buffers.
   */
  datatype World = World(control: State, mems: seq<seq<seq<byte>>>, blocks: seq<seq<nat>>)

  ghost predicate Shaped(cfg: Config, w: World) {
    && WellSized(cfg, w.control)
    && |w.mems| == Nodes(cfg)
    && |w.blocks| == |w.control.reqs|
    && forall r, i | 0 <= r < |w.blocks| && 0 <= i < |w.blocks[r]| ::
         w.blocks[r][i] < |w.mems[w.control.targets[r] - 1]|
  }

  /** No block belongs to two requests, or twice to one. */
  ghost predicate Apart(cfg: Config, w: World)
    requires Shaped(cfg, w)
  {
    forall r, i, t, j | 0 <= r < |w.blocks| && 0 <= i < |w.blocks[r]| && 0 <= t < |w.blocks| && 0 <= j < |w.blocks[t]|
        && w.control.targets[r] == w.control.targets[t] && w.blocks[r][i] == w.blocks[t][j] ::
      r == t && i == j
  }

  /** The bytes of request r's buffers, where they are. */
  ghost function BufsAt(cfg: Config, w: World, r: nat): (bufs: seq<seq<byte>>)
    requires Shaped(cfg, w) && r < |w.blocks|
    ensures |bufs| == |w.blocks[r]|
    ensures forall i | 0 <= i < |bufs| :: bufs[i] == w.mems[w.control.targets[r] - 1][w.blocks[r][i]]
  {
    seq(|w.blocks[r]|, i requires 0 <= i < |w.blocks[r]| => w.mems[w.control.targets[r] - 1][w.blocks[r][i]])
  }

  ghost function Loaded(cfg: Config, w: World): (reqs: seq<Request>)
    requires Shaped(cfg, w)
    ensures |reqs| == |w.control.reqs|
    ensures forall r | 0 <= r < |reqs| :: reqs[r] == w.control.reqs[r].(bufs := BufsAt(cfg, w, r))
  {
    seq(|w.blocks|, r requires 0 <= r < |w.blocks| => w.control.reqs[r].(bufs := BufsAt(cfg, w, r)))
  }

  /** The state in which every request carries its buffers. */
  ghost function View(cfg: Config, w: World): State
    requires Shaped(cfg, w)
  {
    w.control.(reqs := Loaded(cfg, w))
  }

  function Hollow(reqs: seq<Request>): (hollow: seq<Request>)
    ensures |hollow| == |reqs| && forall r | 0 <= r < |reqs| :: hollow[r] == reqs[r].(bufs := [])
  {
    seq(|reqs|, r requires 0 <= r < |reqs| => reqs[r].(bufs := []))
  }

  function Range(from: nat, n: nat): (ids: seq<nat>)
    ensures |ids| == n && forall i | 0 <= i < n :: ids[i] == from + i
  {
    seq(n, i => from + i)
  }

  ghost function Allocate(cfg: Config, w: World, r: nat, fill: seq<seq<byte>>): World
    requires Shaped(cfg, w) && r < |w.blocks|
  {
    var n := w.control.targets[r] - 1;
    w.(mems := w.mems[n := w.mems[n] + fill], blocks := w.blocks[r := Range(|w.mems[n]|, |fill|)])
  }

  /** One byte into buffer i of request r, wherever that buffer is. */
  ghost function Poke(cfg: Config, w: World, r: nat, i: nat, off: nat, b: byte): World
    requires Shaped(cfg, w) && r < |w.blocks| && i < |w.blocks[r]| && off < |BufsAt(cfg, w, r)[i]|
  {
    var n, id := w.control.targets[r] - 1, w.blocks[r][i];
    w.(mems := w.mems[n := w.mems[n][id := w.mems[n][id][off := b]]])
  }

  /** What a step does to memory; only Start and PullByte do anything. */
  ghost function Touch(cfg: Config, w: World, a: Action): World
    requires ValidConfig(cfg) && Shaped(cfg, w) && Enabled(cfg, View(cfg, w), a)
  {
    if a.Handle? && a.move.Start? then Allocate(cfg, w, a.r, a.move.fill)
    else if a.Handle? && a.move.PullByte? then
      var q := View(cfg, w).reqs[a.r];
      var pos := q.phase.done;
      var (i, off) := LocateFlat(q.descs, DT_WRITE, pos);
      Poke(cfg, w, a.r, i, off, q.remote.value[pos])
    else if a.Issue? then w.(blocks := w.blocks + [[]])
    else w
  }

  /** One step: the driver's and the handlers' own state as before, the buffers through memory alone. */
  ghost function WorldNext(cfg: Config, w: World, a: Action): World
    requires ValidConfig(cfg) && Shaped(cfg, w) && Enabled(cfg, View(cfg, w), a)
  {
    var s' := Next(cfg, View(cfg, w), a);
    Touch(cfg, w, a).(control := s'.(reqs := Hollow(s'.reqs)))
  }

  function WorldInitial(cfg: Config): World { World(Initial(cfg), Repeat(Nodes(cfg), []), []) }

  ghost predicate WorldStep(cfg: Config, w: World, a: Action, w': World)
    requires ValidConfig(cfg)
  {
    Shaped(cfg, w) && Enabled(cfg, View(cfg, w), a) && w' == WorldNext(cfg, w, a)
  }

  ghost predicate WorldRun(cfg: Config, ws: seq<World>, acts: seq<Action>)
    requires ValidConfig(cfg)
  {
    && |ws| == |acts| + 1
    && ws[0] == WorldInitial(cfg)
    && forall k | 0 <= k < |acts| :: WorldStep(cfg, ws[k], acts[k], ws[k + 1])
  }

  // ---- Memory operations keep requests apart ----

  /** Blocks of a fresh allocation lie beyond all that were there. */
  lemma AllocateShape(cfg: Config, w: World, r: nat, fill: seq<seq<byte>>)
    requires Shaped(cfg, w) && r < |w.blocks|
    ensures var w' := Allocate(cfg, w, r, fill);
            && Shaped(cfg, w')
            && (forall i | 0 <= i < |fill| :: w'.blocks[r][i] >= |w.mems[w.control.targets[r] - 1]|)
            && forall t | 0 <= t < |w.blocks| && t != r :: w'.blocks[t] == w.blocks[t]
  {}

  lemma AllocateApart(cfg: Config, w: World, r: nat, fill: seq<seq<byte>>)
    requires Shaped(cfg, w) && Apart(cfg, w) && r < |w.blocks|
    ensures Shaped(cfg, Allocate(cfg, w, r, fill)) && Apart(cfg, Allocate(cfg, w, r, fill))
  {
    AllocateShape(cfg, w, r, fill);
    var w' := Allocate(cfg, w, r, fill);
    forall p, i, t, j | 0 <= p < |w'.blocks| && 0 <= i < |w'.blocks[p]| && 0 <= t < |w'.blocks|
        && 0 <= j < |w'.blocks[t]| && w.control.targets[p] == w.control.targets[t] && w'.blocks[p][i] == w'.blocks[t][j]
      ensures p == t && i == j
    {
      if p != r && t != r {
        assert w'.blocks[p] == w.blocks[p] && w'.blocks[t] == w.blocks[t];
      }
    }
  }

  /** A fresh allocation leaves the buffers of every other request as they are. */
  lemma AllocateEffect(cfg: Config, w: World, r: nat, fill: seq<seq<byte>>)
    requires Shaped(cfg, w) && Apart(cfg, w) && r < |w.blocks|
    ensures var w' := Allocate(cfg, w, r, fill);
            && Shaped(cfg, w') && Apart(cfg, w') && BufsAt(cfg, w', r) == fill
            && forall t | 0 <= t < |w.blocks| && t != r :: BufsAt(cfg, w', t) == BufsAt(cfg, w, t)
  {
    AllocateApart(cfg, w, r, fill);
    AllocateShape(cfg, w, r, fill);
    hide Apart;
    var w', n := Allocate(cfg, w, r, fill), w.control.targets[r] - 1;
    forall t | 0 <= t < |w.blocks| && t != r
      ensures BufsAt(cfg, w', t) == BufsAt(cfg, w, t)
    {
      assert w'.blocks[t] == w.blocks[t];
    }
    assert BufsAt(cfg, w', r) == fill;
  }

  /** A store into one buffer of a request leaves every other buffer of the node as it is. */
  lemma PokeEffect(cfg: Config, w: World, r: nat, i: nat, off: nat, b: byte)
    requires Shaped(cfg, w) && Apart(cfg, w) && r < |w.blocks| && i < |w.blocks[r]| && off < |BufsAt(cfg, w, r)[i]|
    ensures var w' := Poke(cfg, w, r, i, off, b);
            && Shaped(cfg, w') && Apart(cfg, w')
            && BufsAt(cfg, w', r) == BufsAt(cfg, w, r)[i := BufsAt(cfg, w, r)[i][off := b]]
            && forall t | 0 <= t < |w.blocks| && t != r :: BufsAt(cfg, w', t) == BufsAt(cfg, w, t)
  {}

  /** Two worlds with the same memory, blocks and targets hold the same buffers. */
  lemma SameMemory(cfg: Config, w: World, u: World)
    requires Shaped(cfg, w) && Apart(cfg, w) && WellSized(cfg, u.control)
    requires u.mems == w.mems && u.blocks == w.blocks && u.control.targets == w.control.targets
    ensures Shaped(cfg, u) && Apart(cfg, u)
    ensures forall r | 0 <= r < |u.blocks| :: BufsAt(cfg, u, r) == BufsAt(cfg, w, r)
  {}

  /** A new request starts without buffers. */
  lemma IssueMemory(cfg: Config, w: World, u: World)
    requires Shaped(cfg, w) && Apart(cfg, w) && WellSized(cfg, u.control) && |u.control.targets| == |w.blocks| + 1
    requires u.mems == w.mems && u.blocks == w.blocks + [[]] && w.control.targets == u.control.targets[..|w.blocks|]
    ensures Shaped(cfg, u) && Apart(cfg, u) && BufsAt(cfg, u, |w.blocks|) == []
    ensures forall r | 0 <= r < |w.blocks| :: BufsAt(cfg, u, r) == BufsAt(cfg, w, r)
  {
    assert forall r | 0 <= r < |w.blocks| :: u.blocks[r] == w.blocks[r] && u.control.targets[r] == w.control.targets[r];
  }

  lemma ViewIs(cfg: Config, u: World, s: State)
    requires Shaped(cfg, u) && u.control == s.(reqs := Hollow(s.reqs))
    requires forall r | 0 <= r < |s.reqs| :: BufsAt(cfg, u, r) == s.reqs[r].bufs
    ensures View(cfg, u) == s
  {
    assert Loaded(cfg, u) == s.reqs;
  }

  /** A handler's move changes its own request's buffers as the memory operation does, and no others. */
  lemma HandleTouches(cfg: Config, w: World, r: nat, m: Move)
    requires ValidConfig(cfg) && Shaped(cfg, w) && Apart(cfg, w) && Enabled(cfg, View(cfg, w), Handle(r, m))
    ensures var u, s := Touch(cfg, w, Handle(r, m)), View(cfg, w);
            && Shaped(cfg, u) && Apart(cfg, u) && u.control == w.control && |u.blocks| == |w.blocks|
            && BufsAt(cfg, u, r) == Moved(cfg.call, s.reqs[r], m).bufs
            && forall t | 0 <= t < |w.blocks| && t != r :: BufsAt(cfg, u, t) == BufsAt(cfg, w, t)
  {
    hide Shaped, Apart, Decode, WriteFlat, PlannedBytes, CanServe;
    var q := View(cfg, w).reqs[r];
    match m
    case Start(fill) => AllocateEffect(cfg, w, r, fill);
    case PullByte =>
      var pos := q.phase.done;
      var (i, off) := LocateFlat(q.descs, DT_WRITE, pos);
      WriteFlatLocated(q.descs, q.bufs, DT_WRITE, pos, q.remote.value[pos]);
      PokeEffect(cfg, w, r, i, off, q.remote.value[pos]);
    case _ =>
  }

  /** What a step leaves of targets and buffers. */
  lemma NextBufs(cfg: Config, s: State, a: Action)
    requires ValidConfig(cfg) && WellSized(cfg, s) && Enabled(cfg, s, a)
    ensures var s' := Next(cfg, s, a);
            && WellSized(cfg, s')
            && (if a.Issue? then
                  && |s'.reqs| == |s.reqs| + 1 && s'.targets[..|s.reqs|] == s.targets && s'.reqs[|s.reqs|].bufs == []
                else |s'.reqs| == |s.reqs| && s'.targets == s.targets)
            && forall r | 0 <= r < |s.reqs| ::
                 s'.reqs[r].bufs == if a.Handle? && a.r == r then Moved(cfg.call, s.reqs[r], a.move).bufs
                                    else s.reqs[r].bufs
  {
    hide Moved, CanMove, ValidCall;
    match a
    case Issue =>
    case Collect => AwaitedIs(s);
    case Handle(_, _) =>
    case _ => assert Next(cfg, s, a).reqs == s.reqs;
  }

  /** A step on shared memory is a step of the machine whose requests carry their buffers. */
  lemma StepRefines(cfg: Config, w: World, a: Action, w': World)
    requires ValidConfig(cfg) && WorldStep(cfg, w, a, w') && Apart(cfg, w)
    ensures Shaped(cfg, w') && Apart(cfg, w') && Step(cfg, View(cfg, w), a, View(cfg, w'))
  {
    hide Apart, Moved, CanMove, NewRequest, ValidCall, Next, Enabled, Touch, BufsAt;
    var s := View(cfg, w);
    var s', u := Next(cfg, s, a), Touch(cfg, w, a);
    NextBufs(cfg, s, a);
    if a.Issue? {
      IssueTouches(cfg, w, a);
      IssueMemory(cfg, w, w');
    } else if a.Handle? {
      HandleEnabled(cfg, s, a);
      HandleTouches(cfg, w, a.r, a.move);
      SameMemory(cfg, u, w');
    } else {
      OtherTouches(cfg, w, a);
      SameMemory(cfg, w, w');
    }
    ViewIs(cfg, w', s');
  }

  lemma HandleEnabled(cfg: Config, s: State, a: Action)
    requires ValidConfig(cfg) && WellSized(cfg, s) && Enabled(cfg, s, a) && a.Handle?
    ensures a.r < |s.reqs|
  {}

  lemma IssueTouches(cfg: Config, w: World, a: Action)
    requires ValidConfig(cfg) && Shaped(cfg, w) && Enabled(cfg, View(cfg, w), a) && a.Issue?
    ensures Touch(cfg, w, a) == w.(blocks := w.blocks + [[]])
  {}

  lemma OtherTouches(cfg: Config, w: World, a: Action)
    requires ValidConfig(cfg) && Shaped(cfg, w) && Enabled(cfg, View(cfg, w), a) && !a.Issue? && !a.Handle?
    ensures Touch(cfg, w, a) == w
  {}

  /** Were a block shared, one handler's byte would show up in the other's buffer. */
  lemma SharedBlockLeaks(cfg: Config, w: World, r: nat, i: nat, t: nat, j: nat, off: nat, b: byte)
    requires Shaped(cfg, w) && r < |w.blocks| && i < |w.blocks[r]| && off < |BufsAt(cfg, w, r)[i]|
    requires t < |w.blocks| && j < |w.blocks[t]|
    requires w.control.targets[t] == w.control.targets[r] && w.blocks[t][j] == w.blocks[r][i]
    ensures Shaped(cfg, Poke(cfg, w, r, i, off, b))
    ensures BufsAt(cfg, Poke(cfg, w, r, i, off, b), t)[j] == BufsAt(cfg, w, t)[j][off := b]
  {}

  // ---- Runs ----

  lemma InitialView(cfg: Config)
    ensures Shaped(cfg, WorldInitial(cfg)) && Apart(cfg, WorldInitial(cfg))
    ensures View(cfg, WorldInitial(cfg)) == Initial(cfg)
  {
    assert Loaded(cfg, WorldInitial(cfg)) == [];
  }

  /** In every reachable world no two requests share a block. */
  lemma {:induction false} AlwaysApart(cfg: Config, ws: seq<World>, acts: seq<Action>, k: nat)
    requires ValidConfig(cfg) && WorldRun(cfg, ws, acts) && k < |ws|
    ensures Shaped(cfg, ws[k]) && Apart(cfg, ws[k])
  {
    hide Shaped, Apart, WorldStep, WorldInitial;
    if k == 0 {
      InitialView(cfg);
    } else {
      AlwaysApart(cfg, ws, acts, k - 1);
      StepRefines(cfg, ws[k - 1], acts[k - 1], ws[k]);
    }
  }

  ghost predicate AllShaped(cfg: Config, ws: seq<World>) { forall k | 0 <= k < |ws| :: Shaped(cfg, ws[k]) }

  ghost function Views(cfg: Config, ws: seq<World>): (ss: seq<State>)
    requires AllShaped(cfg, ws)
    ensures |ss| == |ws| && forall k | 0 <= k < |ws| :: ss[k] == View(cfg, ws[k])
  {
    seq(|ws|, k requires 0 <= k < |ws| => View(cfg, ws[k]))
  }

  /** Every run on shared memory is a run of the machine whose requests carry their buffers. */
  lemma RunRefines(cfg: Config, ws: seq<World>, acts: seq<Action>)
    requires ValidConfig(cfg) && WorldRun(cfg, ws, acts)
    ensures AllShaped(cfg, ws) && Run(cfg, Views(cfg, ws), acts)
  {
    hide Shaped, Apart, WorldStep, WorldInitial, Step, Initial, View;
    forall k | 0 <= k < |ws|
      ensures Shaped(cfg, ws[k]) && Apart(cfg, ws[k])
    {
      AlwaysApart(cfg, ws, acts, k);
    }
    InitialView(cfg);
    var ss := Views(cfg, ws);
    forall k | 0 <= k < |acts|
      ensures Step(cfg, ss[k], acts[k], ss[k + 1])
    {
      StepRefines(cfg, ws[k], acts[k], ws[k + 1]);
    }
  }

  /** And every run of that machine can be had on shared memory. */
  lemma {:induction false} RunLifts(cfg: Config, ss: seq<State>, acts: seq<Action>) returns (ws: seq<World>)
    requires ValidConfig(cfg) && Run(cfg, ss, acts)
    ensures WorldRun(cfg, ws, acts) && AllShaped(cfg, ws) && Views(cfg, ws) == ss
  {
    hide Shaped, Apart, WorldNext, WorldInitial, Next, Enabled, Initial, View;
    if acts == [] {
      InitialView(cfg);
      ws := [WorldInitial(cfg)];
      assert Views(cfg, ws) == ss;
    } else {
      var k := |acts| - 1;
      assert Step(cfg, ss[k], acts[k], ss[k + 1]);
      assert Run(cfg, ss[..k + 1], acts[..k]);
      var init := RunLifts(cfg, ss[..k + 1], acts[..k]);
      assert View(cfg, init[k]) == ss[k];
      AlwaysApart(cfg, init, acts[..k], k);
      var w' := WorldNext(cfg, init[k], acts[k]);
      StepRefines(cfg, init[k], acts[k], w');
      ws := init + [w'];
      assert Views(cfg, ws) == ss;
    }
  }

  /** In every world of every run, a move of one request's handler leaves all other buffers as they are. */
  lemma HandlersDoNotInterfere(cfg: Config, ws: seq<World>, acts: seq<Action>, k: nat, t: nat)
    requires ValidConfig(cfg) && WorldRun(cfg, ws, acts) && k < |acts| && acts[k].Handle?
    requires t < |ws[k].blocks| && t != acts[k].r
    ensures Shaped(cfg, ws[k]) && Shaped(cfg, ws[k + 1]) && |ws[k + 1].blocks| == |ws[k].blocks|
    ensures BufsAt(cfg, ws[k + 1], t) == BufsAt(cfg, ws[k], t)
  {
    hide Apart, Moved, CanMove, Next, Enabled, Touch;
    AlwaysApart(cfg, ws, acts, k);
    AlwaysApart(cfg, ws, acts, k + 1);
    var w, a := ws[k], acts[k];
    assert WorldStep(cfg, w, a, ws[k + 1]);
    StepRefines(cfg, w, a, ws[k + 1]);
    HandleEnabled(cfg, View(cfg, w), a);
    NextBufs(cfg, View(cfg, w), a);
    assert View(cfg, ws[k + 1]).reqs[t].bufs == View(cfg, w).reqs[t].bufs;
  }

  /**
   * In every world of every run, an answered request's buffers are, in its node's memory and
   * whatever the other handlers of that node have done since, the client's segments.
   */
  lemma DeliveredInMemory(cfg: Config, ws: seq<World>, acts: seq<Action>, k: nat, r: nat)
    requires ValidConfig(cfg) && WorldRun(cfg, ws, acts) && k < |ws| && r < |ws[k].control.reqs|
    requires StageOf(ws[k].control.reqs[r]).Replied? || StageOf(ws[k].control.reqs[r]).Taken?
    ensures Shaped(cfg, ws[k]) && |ws[k].blocks[r]| == |ClientDescs(cfg.call)| == |cfg.call.bufs|
    ensures forall i | 0 <= i < |ws[k].blocks[r]| && Any(ClientDescs(cfg.call)[i].flags, DT_WRITE) ::
              ws[k].mems[ws[k].control.targets[r] - 1][ws[k].blocks[r][i]] == cfg.call.bufs[i]
  {
    hide Run, Shaped, WorldRun;
    RunRefines(cfg, ws, acts);
    assert Shaped(cfg, ws[k]);
    DeliveryOverEveryRun(cfg, Views(cfg, ws), acts, k, r);
    assert View(cfg, ws[k]).reqs[r].bufs == BufsAt(cfg, ws[k], r);
  }
}
