/** CacheTimer of chimaera_types.h: interval accounting on a cached clock, in size_t arithmetic. */
module CacheTimers {
  import opened Basics

  /** The calls that change a timer; Refresh and Copy (the source's Wrap) carry the clock value they read. */
  datatype Op = Refresh(now: u64) | Copy(other: u64) | Tick(ns: u64) | Resume | Pause | Reset

  predicate Marks(op: Op) { op.Resume? || op.Pause? || op.Reset? }

  /** The cached clock after a list of calls. */
  function Clock(ops: seq<Op>): u64 {
    if ops == [] then 0 else
      var before := Clock(ops[..|ops| - 1]);
      match ops[|ops| - 1]
      case Refresh(now) => now
      case Copy(other) => other
      case Tick(ns) => Wrap(before + ns)
      case _ => before
  }

  /** The latest Resume, Pause or Reset before position p. */
  function LatestMark(ops: seq<Op>, p: nat): (m: Option<nat>)
    requires p <= |ops|
    ensures m.Some? ==> m.value < p && Marks(ops[m.value]) && forall k | m.value < k < p :: !Marks(ops[k])
    ensures m.None? ==> forall k | 0 <= k < p :: !Marks(ops[k])
  {
    if p == 0 then None else if Marks(ops[p - 1]) then Some(p - 1) else LatestMark(ops, p - 1)
  }

  /** The clock at that call, or zero when there is none. */
  function MarkClock(ops: seq<Op>, p: nat): u64
    requires p <= |ops|
  {
    match LatestMark(ops, p)
    case None => 0
    case Some(m) => Clock(ops[..m])
  }

  /** The position just after the latest Reset before p. */
  function SinceReset(ops: seq<Op>, p: nat): (r: nat)
    requires p <= |ops|
    ensures r <= p && (r > 0 ==> ops[r - 1].Reset?) && forall k | r <= k < p :: !ops[k].Reset?
  {
    if p == 0 then 0 else if ops[p - 1].Reset? then p else SinceReset(ops, p - 1)
  }

  /** What the Pauses from one position up to another measured, as unbounded integers. */
  function Measured(ops: seq<Op>, lo: nat, hi: nat): int
    requires lo <= hi <= |ops|
    decreases hi
  {
    if lo == hi then 0 else
      Measured(ops, lo, hi - 1) + (if ops[hi - 1].Pause? then Clock(ops[..hi - 1]) - MarkClock(ops, hi - 1) else 0)
  }

  function Total(ops: seq<Op>): int { Measured(ops, SinceReset(ops, |ops|), |ops|) }

  class CacheTimer {
    var cur: u64
    var start: u64
    var net: u64
    ghost var log: seq<Op>

    /** The three fields are what the calls so far account for. */
    ghost predicate Valid()
      reads this
    {
      cur == Clock(log) && start == MarkClock(log, |log|) && net == Total(log) % TWO_TO_64
    }

    constructor ()
      ensures Valid() && log == []
    {
      cur, start, net, log := 0, 0, 0, [];
    }

    /** The source's Wrap: take over another timer's cached clock. */
    method CopyFrom(other: CacheTimer)
      requires Valid()
      modifies this
      ensures Valid() && log == old(log) + [Copy(old(other.cur))]
    {
      LogStep(log, Copy(other.cur));
      log := log + [Copy(other.cur)];
      cur := other.cur;
    }

    /** `now` is what the hardware clock shows. */
    method Refresh(now: u64)
      requires Valid()
      modifies this
      ensures Valid() && log == old(log) + [Op.Refresh(now)]
    {
      LogStep(log, Op.Refresh(now));
      cur := now;
      log := log + [Op.Refresh(now)];
    }

    method Tick(nanosec: u64)
      requires Valid()
      modifies this
      ensures Valid() && log == old(log) + [Op.Tick(nanosec)]
    {
      LogStep(log, Op.Tick(nanosec));
      cur := Wrap(cur + nanosec);
      log := log + [Op.Tick(nanosec)];
    }

    method Resume()
      requires Valid()
      modifies this
      ensures Valid() && log == old(log) + [Op.Resume]
    {
      LogStep(log, Op.Resume);
      start := cur;
      log := log + [Op.Resume];
    }

    method Pause()
      requires Valid()
      modifies this
      ensures Valid() && log == old(log) + [Op.Pause]
    {
      LogStep(log, Op.Pause);
      PauseSum(Total(log), cur, start);
      net := (net + (cur - start) % TWO_TO_64) % TWO_TO_64;
      start := cur;
      log := log + [Op.Pause];
    }

    method Reset()
      requires Valid()
      modifies this
      ensures Valid() && log == old(log) + [Op.Reset]
    {
      LogStep(log, Op.Reset);
      start := cur;
      net := 0;
      log := log + [Op.Reset];
    }

    /** The accounted time, modulo 2^64. */
    method GetNsec() returns (ns: u64)
      requires Valid()
      ensures ns == Total(log) % TWO_TO_64
    {
      ns := net;
    }
  }

  lemma PauseSum(total: int, cur: u64, start: u64)
    ensures (total % TWO_TO_64 + (cur - start) % TWO_TO_64) % TWO_TO_64 == (total + (cur - start)) % TWO_TO_64
  {
    var a, b := total / TWO_TO_64, (cur - start) / TWO_TO_64;
    assert total + (cur - start) == total % TWO_TO_64 + (cur - start) % TWO_TO_64 + (a + b) * TWO_TO_64;
    ModShift(total % TWO_TO_64 + (cur - start) % TWO_TO_64, a + b);
  }

  lemma {:induction false} ModShift(x: int, q: int)
    ensures (x + q * TWO_TO_64) % TWO_TO_64 == x % TWO_TO_64
    decreases if q < 0 then -q else q
  {
    if q > 0 {
      ModShift(x, q - 1);
      assert x + q * TWO_TO_64 == (x + (q - 1) * TWO_TO_64) + TWO_TO_64;
    } else if q < 0 {
      ModShift(x, q + 1);
      assert x + (q + 1) * TWO_TO_64 == (x + q * TWO_TO_64) + TWO_TO_64;
    }
  }

  // ---- A longer log has the shorter one's past ----

  lemma {:induction false} MarkOfPrefix(ops: seq<Op>, more: seq<Op>, p: nat)
    requires p <= |ops|
    ensures LatestMark(ops + more, p) == LatestMark(ops, p)
    ensures SinceReset(ops + more, p) == SinceReset(ops, p)
    ensures MarkClock(ops + more, p) == MarkClock(ops, p)
  {
    if p == 0 {
    } else {
      MarkOfPrefix(ops, more, p - 1);
    }
    var m := LatestMark(ops, p);
    if m.Some? {
      assert (ops + more)[..m.value] == ops[..m.value];
    }
  }

  lemma {:induction false} MeasuredOfPrefix(ops: seq<Op>, more: seq<Op>, lo: nat, hi: nat)
    requires lo <= hi <= |ops|
    ensures Measured(ops + more, lo, hi) == Measured(ops, lo, hi)
    decreases hi
  {
    hide Clock, MarkClock;
    if lo == hi {
    } else {
      MeasuredOfPrefix(ops, more, lo, hi - 1);
      MarkOfPrefix(ops, more, hi - 1);
      assert (ops + more)[..hi - 1] == ops[..hi - 1];
    }
  }

  /** How one more call changes the accounting. */
  lemma {:induction false} LogStep(ops: seq<Op>, op: Op)
    ensures MarkClock(ops + [op], |ops| + 1) ==
            if op == Resume || op == Pause || op == Reset then Clock(ops) else MarkClock(ops, |ops|)
    ensures Total(ops + [op]) == if op.Reset? then 0 else
              Total(ops) + (if op.Pause? then Clock(ops) - MarkClock(ops, |ops|) else 0)
    ensures Clock(ops + [op]) == match op
                                 case Refresh(now) => now
                                 case Copy(other) => other
                                 case Tick(ns) => Wrap(Clock(ops) + ns)
                                 case _ => Clock(ops)
  {
    var ops' := ops + [op];
    assert ops'[..|ops|] == ops;
    MarkOfPrefix(ops, [op], |ops|);
    MeasuredOfPrefix(ops, [op], SinceReset(ops, |ops|), |ops|);
  }

  // ---- What one call after another measures ----

  /** Only the clock moves: no Resume, Pause or Reset. */
  ghost predicate ClockOnly(ops: seq<Op>) {
    forall k | 0 <= k < |ops| :: ops[k].Refresh? || ops[k].Copy? || ops[k].Tick?
  }

  lemma {:induction false} ClockOnlyKeeps(ops: seq<Op>, more: seq<Op>)
    requires ClockOnly(more)
    ensures MarkClock(ops + more, |ops + more|) == MarkClock(ops, |ops|) && Total(ops + more) == Total(ops)
  {
    hide Clock, MarkClock, Total;
    if more == [] {
      assert ops + more == ops;
    } else {
      var k := |more| - 1;
      ClockOnlyKeeps(ops, more[..k]);
      LogStep(ops + more[..k], more[k]);
      assert ops + more == (ops + more[..k]) + [more[k]];
    }
  }

  /** A Pause after a call that marks the clock: the accounted time is that call's, plus what the clock has moved. */
  lemma PauseAfter(ops: seq<Op>, op: Op, more: seq<Op>)
    requires ClockOnly(more) && (op == Resume || op == Pause || op == Reset)
    ensures Total(ops + [op] + more + [Pause]) == Total(ops + [op]) + Clock(ops + [op] + more) - Clock(ops)
  {
    hide Clock, MarkClock, Total;
    LogStep(ops, op);
    ClockOnlyKeeps(ops + [op], more);
    LogStep(ops + [op] + more, Pause);
  }

  /** A Reset starts the account afresh, from the clock at the Reset. */
  lemma ResetThenPause(ops: seq<Op>, more: seq<Op>)
    requires ClockOnly(more)
    ensures Total(ops + [Reset] + more) == 0
    ensures Total(ops + [Reset] + more + [Pause]) == Clock(ops + [Reset] + more) - Clock(ops)
  {
    hide Clock, MarkClock, Total;
    PauseAfter(ops, Reset, more);
    LogStep(ops, Reset);
    ClockOnlyKeeps(ops + [Reset], more);
  }

  /** Resume to Pause adds the interval between them, and nothing before the Resume. */
  lemma ResumeThenPause(ops: seq<Op>, more: seq<Op>)
    requires ClockOnly(more)
    ensures Total(ops + [Resume] + more) == Total(ops)
    ensures Total(ops + [Resume] + more + [Pause]) == Total(ops) + Clock(ops + [Resume] + more) - Clock(ops)
  {
    hide Clock, MarkClock, Total;
    PauseAfter(ops, Resume, more);
    LogStep(ops, Resume);
    ClockOnlyKeeps(ops + [Resume], more);
  }

  /** A second Pause adds the time since the first one. */
  lemma PauseThenPause(ops: seq<Op>, more: seq<Op>)
    requires ClockOnly(more)
    ensures Total(ops + [Pause] + more) == Total(ops + [Pause])
    ensures Total(ops + [Pause] + more + [Pause]) == Total(ops + [Pause]) + Clock(ops + [Pause] + more) - Clock(ops)
  {
    hide Clock, MarkClock, Total;
    PauseAfter(ops, Pause, more);
    ClockOnlyKeeps(ops + [Pause], more);
  }

  // ---- A well-behaved clock ----

  /** No call moves the clock backwards, and no Tick wraps it. */
  ghost predicate Monotone(ops: seq<Op>) {
    forall k | 0 <= k < |ops| ::
      match ops[k]
      case Refresh(now) => now >= Clock(ops[..k])
      case Copy(other) => other >= Clock(ops[..k])
      case Tick(ns) => Clock(ops[..k]) + ns < TWO_TO_64
      case _ => true
  }

  lemma MonotonePrefix(ops: seq<Op>, p: nat)
    requires Monotone(ops) && p <= |ops|
    ensures Monotone(ops[..p])
  {
    assert forall k | 0 <= k < p :: ops[..p][..k] == ops[..k];
  }

  /** With a monotone clock nothing is lost: the total is between zero and the clock, and net is the total itself. */
  lemma {:induction false} MonotoneIsExact(ops: seq<Op>)
    requires Monotone(ops)
    ensures 0 <= Total(ops) <= MarkClock(ops, |ops|) <= Clock(ops)
    ensures Total(ops) % TWO_TO_64 == Total(ops)
  {
    hide Clock, MarkClock, Total;
    if ops == [] {
      EmptyLog();
    } else {
      var k := |ops| - 1;
      MonotonePrefix(ops, k);
      MonotoneIsExact(ops[..k]);
      LogStep(ops[..k], ops[k]);
      assert ops[..k] + [ops[k]] == ops;
    }
  }

  lemma EmptyLog()
    ensures Clock([]) == MarkClock([], 0) == Total([]) == 0
  {}

  /** The latest Resume before position p. */
  function LatestResume(ops: seq<Op>, p: nat): (m: Option<nat>)
    requires p <= |ops|
    ensures m.Some? ==> m.value < p && ops[m.value].Resume? && forall k | m.value < k < p :: !ops[k].Resume?
  {
    if p == 0 then None else if ops[p - 1].Resume? then Some(p - 1) else LatestResume(ops, p - 1)
  }

  /**
   * Resume and Pause take turns from position lo on: every Pause closes an interval some
   * Resume opened, with no Pause or Reset between.
   */
  ghost predicate AlternatingFrom(ops: seq<Op>, lo: nat) {
    forall p | lo <= p < |ops| && ops[p].Pause? ::
      LatestMark(ops, p).Some? && ops[LatestMark(ops, p).value].Resume?
  }

  /** The lengths of the intervals from each Resume to its Pause, added up. */
  function IntervalTime(ops: seq<Op>, lo: nat, hi: nat): int
    requires lo <= hi <= |ops|
    decreases hi
  {
    if lo == hi then 0 else
      IntervalTime(ops, lo, hi - 1) +
      (if ops[hi - 1].Pause? && LatestResume(ops, hi - 1).Some?
       then Clock(ops[..hi - 1]) - Clock(ops[..LatestResume(ops, hi - 1).value]) else 0)
  }

  lemma {:induction false} ResumeIsMark(ops: seq<Op>, p: nat)
    requires p <= |ops| && LatestMark(ops, p).Some? && ops[LatestMark(ops, p).value].Resume?
    ensures LatestResume(ops, p) == LatestMark(ops, p)
  {
    if !Marks(ops[p - 1]) {
      ResumeIsMark(ops, p - 1);
    }
  }

  /** Alternating calls measure the time between each Resume and its Pause. */
  lemma {:induction false} AlternatingMeasuresIntervals(ops: seq<Op>, lo: nat, hi: nat)
    requires AlternatingFrom(ops, lo) && lo <= hi <= |ops|
    ensures Measured(ops, lo, hi) == IntervalTime(ops, lo, hi)
    decreases hi
  {
    if lo == hi {
    } else {
      AlternatingMeasuresIntervals(ops, lo, hi - 1);
      if ops[hi - 1].Pause? {
        ResumeIsMark(ops, hi - 1);
      }
    }
  }

  /** With a monotone clock too, net is the total of those intervals since the last Reset. */
  lemma NetIsIntervalTime(ops: seq<Op>)
    requires Monotone(ops) && AlternatingFrom(ops, SinceReset(ops, |ops|))
    ensures Total(ops) % TWO_TO_64 == IntervalTime(ops, SinceReset(ops, |ops|), |ops|)
  {
    MonotoneIsExact(ops);
    AlternatingMeasuresIntervals(ops, SinceReset(ops, |ops|), |ops|);
  }
}
