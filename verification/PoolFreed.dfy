/** What threadpool_destroy frees: the pool, when the workers are joined, whoever else may still be inside. */
module PoolFreed {
  import opened ThreadPool
  import opened PoolProtocol

  /** threadpool_destroy has returned, so mutex, condition variables and pool are gone. */
  ghost predicate Freed(s: State) {
    exists i | 0 <= i < |s.destroyers| :: s.destroyers[i].DDone?
  }

  /** A call of threadpool_add_job or threadpool_destroy has begun and not returned. */
  ghost predicate CallOpen(s: State) {
    || (exists t | 0 <= t < |s.producers| :: !s.producers[t].PReturned?)
    || (exists i | 0 <= i < |s.destroyers| :: !s.destroyers[i].DDone? && !s.destroyers[i].DRefused?)
  }

  /** Once the pool is freed, whoever is still inside is about to take its mutex. */
  lemma InsideAfterFree(s: State)
    requires Inv(s) && Freed(s)
    ensures forall w | 0 <= w < |s.workers| :: s.workers[w].WExited?
    ensures forall t | 0 <= t < |s.producers| :: s.producers[t].PLocking? || s.producers[t].PReturned?
    ensures forall i | 0 <= i < |s.destroyers| ::
      s.destroyers[i].DDone? || s.destroyers[i].DRefused? || s.destroyers[i].DLocking?
  {
    hide Ledger;
    var d :| 0 <= d < |s.destroyers| && s.destroyers[d].DDone?;
    OwnerSeen(s.destroyers, d);
    forall i | 0 <= i < |s.destroyers| && i != d
      ensures !Owner(s.destroyers[i])
    {
    }
  }

  /**
   * A thread goes on to use the pool after it has been freed if and only if some call has not returned:
   * joining the workers waits for no caller.
   */
  lemma UsedAfterFreeIff(s: State)
    requires Inv(s) && Freed(s)
    ensures CanMove(s) <==> CallOpen(s)
  {
    InsideAfterFree(s);
    hide CanMove, Inv;
    MovesIfLocking(s);
    if i :| 0 <= i < |s.destroyers| && s.destroyers[i].DLocking? {
      assert Enabled(s, Destroy(i));
    }
    if CanMove(s) {
      Mover(s);
    }
  }

  lemma Mover(s: State)
    requires CanMove(s) && forall w | 0 <= w < |s.workers| :: s.workers[w].WExited?
    ensures CallOpen(s)
  {
    var step :| Internal(step) && Enabled(s, step);
    if step.Add? {
      assert !s.producers[step.t].PReturned?;
    }
    if step.Destroy? {
      assert !s.destroyers[step.t].DDone? && !s.destroyers[step.t].DRefused?;
    }
  }

  /** All other calls than the one destroying the pool have returned. */
  ghost predicate Quiet(s: State, d: nat) {
    && (forall t | 0 <= t < |s.producers| :: s.producers[t].PReturned?)
    && (forall i | 0 <= i < |s.destroyers| && i != d :: s.destroyers[i].DRefused?)
  }

  /**
   * What the callers can do about it: if threadpool_destroy runs while no other call is open, and no call
   * begins after it, nobody uses the freed pool.
   */
  lemma {:induction false} QuietCallers(s: State, steps: seq<Step>, e: State, d: nat)
    requires Inv(s) && Quiet(s, d) && IsRun(s, steps, e)
    requires forall k | 0 <= k < |steps| :: !steps[k].CallAdd? && !steps[k].CallDestroy?
    ensures Inv(e) && Quiet(e, d)
    ensures Freed(e) ==> !CanMove(e)
    decreases |steps|
  {
    if steps == [] {
      if Freed(s) {
        InsideAfterFree(s);
        QuietDone(s, d);
        UsedAfterFreeIff(s);
      }
    } else {
      hide Inv, Enabled, Apply, Freed, CanMove, Quiet;
      assert !steps[0].CallAdd? && !steps[0].CallDestroy?;
      RunInv(s, [steps[0]], Apply(s, steps[0])) by {
        assert [steps[0]][1..] == [];
      }
      QuietStep(s, steps[0], d);
      QuietCallers(Apply(s, steps[0]), steps[1..], e, d);
    }
  }

  lemma QuietDone(s: State, d: nat)
    requires Inv(s) && Quiet(s, d) && Freed(s)
    ensures !CallOpen(s)
  {
    hide Ledger, NoLostWakeup;
    InsideAfterFree(s);
  }

  lemma QuietStep(s: State, step: Step, d: nat)
    requires Quiet(s, d) && Enabled(s, step) && !step.CallAdd? && !step.CallDestroy?
    ensures Quiet(Apply(s, step), d)
  {
    hide Waiters;
  }

  // ---- A producer that is still inside ----

  /** One worker, room for one job, one of two producers waiting for room, and a destroyer. */
  function Stage(worker: WorkerPc, second: ProducerPc, d: DestroyerPc, jobs: seq<Job>, finished: multiset<Job>): State {
    State(Core(1, jobs, true, Closer(d)), [worker], [PReturned(true), second], [d], [0], if jobs == [] then [0] else [],
          finished)
  }

  const FILL: seq<Step> := [CallAdd(0), Add(0), CallAdd(1), Add(1), CallDestroy, Destroy(0)]
  const LAST: seq<Step> := [Work(0, {0}), Finish(0)]
  const CLOSE: seq<Step> := [Destroy(0), Destroy(0), Destroy(0)]
  const JOIN: seq<Step> := [Work(0, {}), Destroy(0), Destroy(0)]

  lemma Fills()
    ensures IsRun(Init(1, 1), FILL, Stage(WLocking, PWaiting(1), DWaiting, [0], multiset{}))
  {
    var s0 := Init(1, 1);
    var s2 := State(Core(1, [0], false, false), [WLocking], [PReturned(true)], [], [0], [], multiset{});
    var s4 := s2.(producers := [PReturned(true), PWaiting(1)]);
    assert Apply(Apply(s0, CallAdd(0)), Add(0)) == s2 by {
      assert WakeWorkers([WLocking]) == [WLocking];
    }
    assert Apply(Apply(s2, CallAdd(1)), Add(1)) == s4;
    var e := Stage(WLocking, PWaiting(1), DWaiting, [0], multiset{});
    assert Apply(Apply(s4, CallDestroy), Destroy(0)) == e;
    TwoSteps(s4, CallDestroy, Destroy(0), [], e);
    TwoSteps(s2, CallAdd(1), Add(1), [CallDestroy, Destroy(0)], e);
    TwoSteps(s0, CallAdd(0), Add(0), [CallAdd(1), Add(1), CallDestroy, Destroy(0)], e);
  }

  lemma TwoSteps(s: State, a: Step, b: Step, rest: seq<Step>, e: State)
    requires Enabled(s, a) && Enabled(Apply(s, a), b) && IsRun(Apply(Apply(s, a), b), rest, e)
    ensures IsRun(s, [a, b] + rest, e)
  {
    hide Enabled, Apply;
    assert ([a, b] + rest)[1..] == [b] + rest && ([b] + rest)[1..] == rest;
  }

  lemma OneStep(s: State, a: Step, rest: seq<Step>, e: State)
    requires Enabled(s, a) && IsRun(Apply(s, a), rest, e)
    ensures IsRun(s, [a] + rest, e)
  {
    hide Enabled, Apply;
    assert ([a] + rest)[1..] == rest;
  }

  lemma LastJob()
    ensures IsRun(Stage(WLocking, PWaiting(1), DWaiting, [0], multiset{}), LAST,
                  Stage(WLocking, PLocking(1), DWoken, [], multiset{0}))
  {
    var s0 := Stage(WLocking, PWaiting(1), DWaiting, [0], multiset{});
    var e := Stage(WLocking, PLocking(1), DWoken, [], multiset{0});
    assert Waiters([DWaiting]) == {0} by {
      assert 0 in Waiters([DWaiting]);
    }
    assert Apply(s0, Work(0, {0})) == Stage(WRunning(0), PLocking(1), DWoken, [], multiset{}) by {
      assert [0][1..] == [];
      assert WakeDestroyers([DWaiting], {0}) == [DWoken];
      assert WakeProducers([PReturned(true), PWaiting(1)]) == [PReturned(true), PLocking(1)];
    }
    assert Apply(Apply(s0, Work(0, {0})), Finish(0)) == e;
    TwoSteps(s0, Work(0, {0}), Finish(0), [], e);
  }

  lemma Closes()
    ensures IsRun(Stage(WLocking, PLocking(1), DWoken, [], multiset{0}), CLOSE,
                  Stage(WLocking, PLocking(1), DJoining(0), [], multiset{0}))
  {
    var s0 := Stage(WLocking, PLocking(1), DWoken, [], multiset{0});
    var s2 := Stage(WLocking, PLocking(1), DBroadcast, [], multiset{0});
    var e := Stage(WLocking, PLocking(1), DJoining(0), [], multiset{0});
    assert Apply(Apply(s0, Destroy(0)), Destroy(0)) == s2 by {
      assert WakeWorkers([WLocking]) == [WLocking];
    }
    assert Apply(s2, Destroy(0)) == e by {
      assert WakeProducers([PReturned(true), PLocking(1)]) == [PReturned(true), PLocking(1)];
    }
    OneStep(s2, Destroy(0), [], e);
    TwoSteps(s0, Destroy(0), Destroy(0), [Destroy(0)], e);
  }

  lemma Joins()
    ensures IsRun(Stage(WLocking, PLocking(1), DJoining(0), [], multiset{0}), JOIN,
                  Stage(WExited, PLocking(1), DDone, [], multiset{0}))
  {
    var s0 := Stage(WLocking, PLocking(1), DJoining(0), [], multiset{0});
    var s1 := Stage(WExited, PLocking(1), DJoining(0), [], multiset{0});
    var e := Stage(WExited, PLocking(1), DDone, [], multiset{0});
    assert Apply(s0, Work(0, {})) == s1;
    assert Apply(Apply(s1, Destroy(0)), Destroy(0)) == e;
    TwoSteps(s1, Destroy(0), Destroy(0), [], e);
    OneStep(s0, Work(0, {}), [Destroy(0), Destroy(0)], e);
  }

  lemma {:induction false} RunsJoin(s: State, a: seq<Step>, m: State, b: seq<Step>, e: State)
    requires IsRun(s, a, m) && IsRun(m, b, e)
    ensures IsRun(s, a + b, e)
    decreases |a|
  {
    hide Enabled, Apply;
    if a == [] {
      assert a + b == b;
    } else {
      assert (a + b)[1..] == a[1..] + b;
      RunsJoin(Apply(s, a[0]), a[1..], m, b, e);
    }
  }

  /**
   * A producer waits for room, the last job is taken and wakes it, and before it gets the mutex
   * the destroyer has joined the worker and freed the pool; the producer goes on to lock it.
   */
  lemma FreedTooEarly()
    ensures exists s: State ::
      && IsRun(Init(1, 1), FILL + LAST + CLOSE + JOIN, s)
      && Freed(s) && |s.producers| == 2 && s.producers[1].PLocking? && Enabled(s, Add(1))
  {
    Fills();
    LastJob();
    Closes();
    Joins();
    hide IsRun;
    var s1 := Stage(WLocking, PWaiting(1), DWaiting, [0], multiset{});
    var s2 := Stage(WLocking, PLocking(1), DWoken, [], multiset{0});
    var s3 := Stage(WLocking, PLocking(1), DJoining(0), [], multiset{0});
    var e := Stage(WExited, PLocking(1), DDone, [], multiset{0});
    RunsJoin(Init(1, 1), FILL, s1, LAST, s2);
    RunsJoin(Init(1, 1), FILL + LAST, s2, CLOSE, s3);
    RunsJoin(Init(1, 1), FILL + LAST + CLOSE, s3, JOIN, e);
    assert e.destroyers[0].DDone?;
    assert Freed(e) && Enabled(e, Add(1));
  }
}
