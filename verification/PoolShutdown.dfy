/** threadpool_destroy always gets through: a measure that every step inside the pool decreases. */
module PoolShutdown {
  import opened PoolProtocol

  function Sum(s: seq<nat>): nat {
    if s == [] then 0 else Sum(s[..|s| - 1]) + s[|s| - 1]
  }

  lemma {:induction false} SumUpdate(s: seq<nat>, i: nat, v: nat)
    requires i < |s|
    ensures Sum(s[i := v]) + s[i] == Sum(s) + v
  {
    var n := |s| - 1;
    if i == n {
      assert s[i := v][..n] == s[..n];
    } else {
      assert s[i := v][..n] == s[..n][i := v];
      SumUpdate(s[..n], i, v);
    }
  }

  lemma {:induction false} SumBump(s: seq<nat>, t: seq<nat>)
    requires |s| == |t| && forall i | 0 <= i < |s| :: t[i] <= s[i] + 1
    ensures Sum(t) <= Sum(s) + |s|
  {
    if s != [] {
      SumBump(s[..|s| - 1], t[..|t| - 1]);
    }
  }

  lemma {:induction false} SumEqual(s: seq<nat>, t: seq<nat>)
    requires |s| == |t| && forall i | 0 <= i < |s| :: t[i] == s[i]
    ensures Sum(t) == Sum(s)
  {
    assert s == t;
  }

  // ---- The measure ----

  function WorkerWeight(pc: WorkerPc): nat {
    match pc case WRunning(_) => 2 case WLocking => 1 case _ => 0
  }

  function ProducerWeight(pc: ProducerPc): nat {
    if pc.PLocking? then 1 else 0
  }

  function DestroyerWeight(pc: DestroyerPc): nat {
    if pc.DLocking? || pc.DWoken? then 1 else 0
  }

  /** How many of its own phases a destroyer still has before it, for n workers. */
  function Stage(pc: DestroyerPc, n: nat): nat {
    match pc
    case DWaiting | DWoken => n + 4
    case DClosed => n + 3
    case DBroadcast => n + 2
    case DJoining(i) => if i <= n then n + 1 - i else 0
    case _ => 0
  }

  function WorkerWeights(ws: seq<WorkerPc>): (r: seq<nat>)
    ensures |r| == |ws|
  {
    seq(|ws|, i requires 0 <= i < |ws| => WorkerWeight(ws[i]))
  }

  function ProducerWeights(ps: seq<ProducerPc>): (r: seq<nat>)
    ensures |r| == |ps|
  {
    seq(|ps|, i requires 0 <= i < |ps| => ProducerWeight(ps[i]))
  }

  function DestroyerWeights(ds: seq<DestroyerPc>): (r: seq<nat>)
    ensures |r| == |ds|
  {
    seq(|ds|, i requires 0 <= i < |ds| => DestroyerWeight(ds[i]))
  }

  function Stages(ds: seq<DestroyerPc>, n: nat): (r: seq<nat>)
    ensures |r| == |ds|
  {
    seq(|ds|, i requires 0 <= i < |ds| => Stage(ds[i], n))
  }

  function Unit(s: State): nat {
    |s.workers| + |s.producers| + |s.destroyers| + 2
  }

  /** Phases and queued jobs: each of them pays for all the wake-ups its end can cause. */
  function Coarse(s: State): nat {
    Sum(Stages(s.destroyers, |s.workers|)) + |s.core.jobs|
  }

  function Fine(s: State): nat {
    Sum(WorkerWeights(s.workers)) + Sum(ProducerWeights(s.producers)) + Sum(DestroyerWeights(s.destroyers))
  }

  function Measure(s: State): nat {
    Times(Unit(s), Coarse(s)) + Fine(s)
  }

  function Times(a: nat, b: nat): nat {
    a * b
  }

  lemma SetWorker(ws: seq<WorkerPc>, w: nat, pc: WorkerPc)
    requires w < |ws|
    ensures Sum(WorkerWeights(ws[w := pc])) + WorkerWeight(ws[w]) == Sum(WorkerWeights(ws)) + WorkerWeight(pc)
  {
    assert WorkerWeights(ws[w := pc]) == WorkerWeights(ws)[w := WorkerWeight(pc)];
    SumUpdate(WorkerWeights(ws), w, WorkerWeight(pc));
  }

  lemma SetProducer(ps: seq<ProducerPc>, t: nat, pc: ProducerPc)
    requires t < |ps|
    ensures Sum(ProducerWeights(ps[t := pc])) + ProducerWeight(ps[t]) == Sum(ProducerWeights(ps)) + ProducerWeight(pc)
  {
    assert ProducerWeights(ps[t := pc]) == ProducerWeights(ps)[t := ProducerWeight(pc)];
    SumUpdate(ProducerWeights(ps), t, ProducerWeight(pc));
  }

  lemma SetDestroyer(ds: seq<DestroyerPc>, t: nat, pc: DestroyerPc, n: nat)
    requires t < |ds|
    ensures Sum(DestroyerWeights(ds[t := pc])) + DestroyerWeight(ds[t])
      == Sum(DestroyerWeights(ds)) + DestroyerWeight(pc)
    ensures Sum(Stages(ds[t := pc], n)) + Stage(ds[t], n) == Sum(Stages(ds, n)) + Stage(pc, n)
  {
    assert DestroyerWeights(ds[t := pc]) == DestroyerWeights(ds)[t := DestroyerWeight(pc)];
    assert Stages(ds[t := pc], n) == Stages(ds, n)[t := Stage(pc, n)];
    SumUpdate(DestroyerWeights(ds), t, DestroyerWeight(pc));
    SumUpdate(Stages(ds, n), t, Stage(pc, n));
  }

  lemma WakeAll(s: State, woken: set<nat>)
    ensures Sum(WorkerWeights(WakeWorkers(s.workers))) <= Sum(WorkerWeights(s.workers)) + |s.workers|
    ensures Sum(ProducerWeights(WakeProducers(s.producers))) <= Sum(ProducerWeights(s.producers)) + |s.producers|
    ensures Sum(DestroyerWeights(WakeDestroyers(s.destroyers, woken)))
         <= Sum(DestroyerWeights(s.destroyers)) + |s.destroyers|
    ensures forall n: nat :: Sum(Stages(WakeDestroyers(s.destroyers, woken), n)) == Sum(Stages(s.destroyers, n))
  {
    SumBump(WorkerWeights(s.workers), WorkerWeights(WakeWorkers(s.workers)));
    SumBump(ProducerWeights(s.producers), ProducerWeights(WakeProducers(s.producers)));
    SumBump(DestroyerWeights(s.destroyers), DestroyerWeights(WakeDestroyers(s.destroyers, woken)));
    forall n: nat
      ensures Sum(Stages(WakeDestroyers(s.destroyers, woken), n)) == Sum(Stages(s.destroyers, n))
    {
      SumEqual(Stages(s.destroyers, n), Stages(WakeDestroyers(s.destroyers, woken), n));
    }
  }

  /** A coarse step down outweighs any fine steps up it causes. */
  lemma CoarseDrops(unit: nat, c: nat, c': nat, f: nat, f': nat)
    requires c' < c && f' < f + unit
    ensures Times(unit, c') + f' < Times(unit, c) + f
  {
    TimesMore(unit, c', c - c' - 1);
  }

  lemma {:induction false} TimesMore(unit: nat, c: nat, d: nat)
    ensures unit * c + unit <= unit * (c + 1 + d)
  {
    if d == 0 {
      assert unit * (c + 1) == unit * c + unit;
    } else {
      TimesMore(unit, c, d - 1);
      assert unit * (c + 1 + d) == unit * (c + d) + unit;
    }
  }

  lemma AddDrops(s: State, t: nat)
    requires s.core.queueClose && Enabled(s, Add(t))
    ensures Measure(Apply(s, Add(t))) < Measure(s) && Coarse(Apply(s, Add(t))) <= Coarse(s)
  {
    hide Sum;
    SetProducer(s.producers, t, PReturned(false));
  }

  lemma WorkDrops(s: State, w: nat, woken: set<nat>)
    requires Enabled(s, Work(w, woken))
    ensures Measure(Apply(s, Work(w, woken))) < Measure(s) && Coarse(Apply(s, Work(w, woken))) <= Coarse(s)
  {
    hide Sum, Stages, WorkerWeights, ProducerWeights, DestroyerWeights, WakeProducers, WakeDestroyers, Waiters;
    var s' := Apply(s, Work(w, woken));
    var pc := s'.workers[w];
    assert s'.workers == s.workers[w := pc];
    SetWorker(s.workers, w, pc);
    if pc.WRunning? {
      WakeAll(s, woken);
      assert Coarse(s') < Coarse(s);
      CoarseDrops(Unit(s), Coarse(s), Coarse(s'), Fine(s), Fine(s'));
    }
  }

  lemma FinishDrops(s: State, w: nat)
    requires Enabled(s, Finish(w))
    ensures Measure(Apply(s, Finish(w))) < Measure(s) && Coarse(Apply(s, Finish(w))) <= Coarse(s)
  {
    hide Sum;
    SetWorker(s.workers, w, WLocking);
  }

  lemma DestroyDrops(s: State, t: nat)
    requires Closing(s) && s.core.queueClose && Enabled(s, Destroy(t))
    ensures Measure(Apply(s, Destroy(t))) < Measure(s) && Coarse(Apply(s, Destroy(t))) <= Coarse(s)
  {
    hide Sum, Stages, WorkerWeights, ProducerWeights, DestroyerWeights,
         WakeProducers, WakeWorkers, SomeOwner, SomeCloser;
    var s' := Apply(s, Destroy(t));
    var d := s'.destroyers[t];
    assert s'.destroyers == s.destroyers[t := d];
    SetDestroyer(s.destroyers, t, d, |s.workers|);
    WakeAll(s, {});
    if Stage(d, |s.workers|) < Stage(s.destroyers[t], |s.workers|) {
      assert Coarse(s') < Coarse(s);
      CoarseDrops(Unit(s), Coarse(s), Coarse(s'), Fine(s), Fine(s'));
    }
  }

  lemma MeasureDrops(s: State, step: Step)
    requires Closing(s) && s.core.queueClose && Internal(step) && Enabled(s, step)
    ensures Measure(Apply(s, step)) < Measure(s) && Coarse(Apply(s, step)) <= Coarse(s)
  {
    match step
    case Add(t) => AddDrops(s, t);
    case Work(w, woken) => WorkDrops(s, w, woken);
    case Finish(w) => FinishDrops(s, w);
    case Destroy(t) => DestroyDrops(s, t);
  }

  // ---- Shutdown under any schedule ----

  predicate Call(step: Step) {
    step.CallAdd? || step.CallDestroy?
  }

  predicate Spurious(step: Step) {
    step.SpuriousWorker? || step.SpuriousProducer? || step.SpuriousDestroyer?
  }

  function Count(steps: seq<Step>, f: Step -> bool): nat {
    if steps == [] then 0 else (if f(steps[0]) then 1 else 0) + Count(steps[1..], f)
  }

  lemma SumAppend(s: seq<nat>, v: nat)
    ensures Sum(s + [v]) == Sum(s) + v
  {
    assert (s + [v])[..|s|] == s;
  }

  lemma MoreThreads(unit: nat, c: nat)
    ensures Times(unit + 1, c) == Times(unit, c) + c
  {
  }

  /** A new call pays for one more round of wake-ups. */
  lemma CallCosts(s: State, step: Step)
    requires Enabled(s, step) && Call(step)
    ensures Coarse(Apply(s, step)) == Coarse(s)
    ensures Measure(Apply(s, step)) == Measure(s) + Coarse(s) + 1
  {
    hide Sum, Times;
    var s' := Apply(s, step);
    if step.CallAdd? {
      assert ProducerWeights(s'.producers) == ProducerWeights(s.producers) + [1];
      SumAppend(ProducerWeights(s.producers), 1);
    } else {
      assert DestroyerWeights(s'.destroyers) == DestroyerWeights(s.destroyers) + [1];
      assert Stages(s'.destroyers, |s.workers|) == Stages(s.destroyers, |s.workers|) + [0];
      SumAppend(DestroyerWeights(s.destroyers), 1);
      SumAppend(Stages(s.destroyers, |s.workers|), 0);
    }
    MoreThreads(Unit(s), Coarse(s));
  }

  /** A spurious wake-up costs the look around that it causes. */
  lemma SpuriousCosts(s: State, step: Step)
    requires Enabled(s, step) && Spurious(step)
    ensures Coarse(Apply(s, step)) == Coarse(s)
    ensures Measure(Apply(s, step)) == Measure(s) + 1
  {
    hide Sum, Stages, WorkerWeights, ProducerWeights, DestroyerWeights;
    match step
    case SpuriousWorker(w) => SetWorker(s.workers, w, WLocking);
    case SpuriousProducer(t) => SetProducer(s.producers, t, PLocking(s.producers[t].job));
    case SpuriousDestroyer(t) => SetDestroyer(s.destroyers, t, DWoken, |s.workers|);
  }

  lemma StepInv(s: State, step: Step)
    requires Inv(s) && Enabled(s, step)
    ensures Inv(Apply(s, step))
  {
    hide Ledger, Closing, NoLostWakeup, Refusals, Enabled, Apply;
    RefusalsStep(s, step);
    LedgerStep(s, step);
    ClosingStep(s, step);
    WakeupStep(s, step);
  }

  lemma StepCosts(s: State, step: Step)
    requires Inv(s) && s.core.queueClose && Enabled(s, step)
    ensures Coarse(Apply(s, step)) <= Coarse(s)
    ensures Measure(Apply(s, step)) + (if Internal(step) then 1 else 0)
         <= Measure(s) + (if Spurious(step) then 1 else 0) + (if Call(step) then Coarse(s) + 1 else 0)
  {
    if Internal(step) {
      MeasureDrops(s, step);
    } else if Call(step) {
      CallCosts(s, step);
    } else {
      SpuriousCosts(s, step);
    }
  }

  /**
   * Once threadpool_destroy has closed the queue, there is a bound on what the threads inside the pool
   * can still do in any run at all: each spurious wake-up adds one step, each new call a fixed number.
   */
  lemma {:induction false} WorkIsBounded(s: State, steps: seq<Step>, e: State)
    requires Inv(s) && s.core.queueClose && IsRun(s, steps, e)
    ensures Inv(e) && e.core.queueClose && Coarse(e) <= Coarse(s)
    ensures e.accepted == s.accepted && e.core.cap == s.core.cap && |e.workers| == |s.workers|
    ensures Count(steps, Internal) + Measure(e)
         <= Measure(s) + Count(steps, Spurious) + Times(Count(steps, Call), Coarse(s) + 1)
    decreases |steps|
  {
    hide Inv, Enabled, Apply, Measure, Coarse, Internal, Spurious, Call, Times;
    if steps != [] {
      StepInv(s, steps[0]);
      StepCap(s, steps[0]);
      StepCosts(s, steps[0]);
      WorkIsBounded(Apply(s, steps[0]), steps[1..], e);
      var n := Count(steps[1..], Call);
      Grows(n, Coarse(Apply(s, steps[0])) + 1, Coarse(s) + 1);
      MoreThreads(n, Coarse(s) + 1);
    } else {
      TimesZero(Coarse(s) + 1);
    }
  }

  lemma Grows(n: nat, a: nat, b: nat)
    ensures a <= b ==> Times(n, a) <= Times(n, b)
  {
  }

  lemma TimesZero(a: nat)
    ensures Times(0, a) == 0
  {
  }

  /**
   * And wherever a run has come to a point at which no thread inside the pool can move, shutdown is
   * through: all callers have returned, the pool's threads are joined, and every accepted job has run
   * exactly once.
   */
  lemma ShutdownCompletes(s: State, steps: seq<Step>, e: State)
    requires Inv(s) && s.core.queueClose && s.core.cap != 0 && s.workers != []
    requires IsRun(s, steps, e) && !CanMove(e)
    ensures (forall t | 0 <= t < |e.producers| :: e.producers[t].PReturned?)
    ensures (forall i | 0 <= i < |e.destroyers| :: e.destroyers[i].DDone? || e.destroyers[i].DRefused?)
    ensures (exists i | 0 <= i < |e.destroyers| :: e.destroyers[i].DDone?)
    ensures e.core.jobs == [] && e.finished == multiset(s.accepted)
  {
    hide CanMove, IsRun;
    WorkIsBounded(s, steps, e);
    if Unfinished(e) {
      NoDeadlock(e);
    }
    var i :| 0 <= i < |e.destroyers| && Owner(e.destroyers[i]);
    assert e.destroyers[i].DDone?;
    IdleRunning(e.workers);
    assert e.accepted == e.started;
  }
}
