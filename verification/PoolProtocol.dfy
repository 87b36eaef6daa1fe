/** threadpool.c as a protocol: any number of workers, producers and destroyers, interleaved at the mutex. */
module PoolProtocol {
  import opened ThreadPool

  /** Locking: about to take the mutex, at the loop head or after a wake-up. */
  datatype WorkerPc = WLocking | WWaiting | WRunning(job: Job) | WExited
  datatype ProducerPc = PLocking(job: Job) | PWaiting(job: Job) | PReturned(accepted: bool)
  datatype DestroyerPc =
    | DLocking | DWaiting | DWoken
    | DClosed          // pool_close set, mutex released, queue_not_empty not broadcast yet
    | DBroadcast       // queue_not_full not broadcast yet
    | DJoining(next: nat)
    | DDone
    | DRefused

  datatype State = State(core: Core, workers: seq<WorkerPc>, producers: seq<ProducerPc>, destroyers: seq<DestroyerPc>,
                         accepted: seq<Job>, started: seq<Job>, finished: multiset<Job>)

  datatype Step =
    | CallAdd(job: Job)
    | CallDestroy
    | Add(t: nat)
    | Work(w: nat, woken: set<nat>)   // woken: the destroyers pthread_cond_signal lets go
    | Finish(w: nat)
    | Destroy(t: nat)
    | SpuriousWorker(w: nat)
    | SpuriousProducer(t: nat)
    | SpuriousDestroyer(t: nat)

  // ---- Condition variables ----

  function WakeWorkers(ws: seq<WorkerPc>): (r: seq<WorkerPc>)
    ensures |r| == |ws|
  {
    seq(|ws|, i requires 0 <= i < |ws| => if ws[i].WWaiting? then WLocking else ws[i])
  }

  function WakeProducers(ps: seq<ProducerPc>): (r: seq<ProducerPc>)
    ensures |r| == |ps|
  {
    seq(|ps|, i requires 0 <= i < |ps| => if ps[i].PWaiting? then PLocking(ps[i].job) else ps[i])
  }

  function Waiters(ds: seq<DestroyerPc>): set<nat> {
    set i: nat | i < |ds| && ds[i].DWaiting?
  }

  function WakeDestroyers(ds: seq<DestroyerPc>, woken: set<nat>): (r: seq<DestroyerPc>)
    ensures |r| == |ds|
  {
    seq(|ds|, i requires 0 <= i < |ds| => if ds[i].DWaiting? && i in woken then DWoken else ds[i])
  }

  // ---- Steps ----

  predicate Enabled(s: State, step: Step) {
    match step
    case CallAdd(_) => true
    case CallDestroy => true
    case Add(t) => t < |s.producers| && s.producers[t].PLocking?
    case Work(w, woken) =>
      && w < |s.workers| && s.workers[w].WLocking?
      && (var o := WorkSection(s.core).1;
          if o.WorkTake? && o.signalEmpty
          then woken <= Waiters(s.destroyers) && (Waiters(s.destroyers) != {} ==> woken != {})
          else woken == {})
    case Finish(w) => w < |s.workers| && s.workers[w].WRunning?
    case Destroy(t) =>
      && t < |s.destroyers|
      && (match s.destroyers[t]
          case DLocking | DWoken | DClosed | DBroadcast => true
          case DJoining(i) => i < |s.workers| ==> s.workers[i].WExited?
          case _ => false)
    case SpuriousWorker(w) => w < |s.workers| && s.workers[w].WWaiting?
    case SpuriousProducer(t) => t < |s.producers| && s.producers[t].PWaiting?
    case SpuriousDestroyer(t) => t < |s.destroyers| && s.destroyers[t].DWaiting?
  }

  function ApplyAdd(s: State, t: nat): State
    requires Enabled(s, Add(t))
  {
    var j := s.producers[t].job;
    var (core, o) := AddSection(s.core, j);
    match o
    case AddWait => s.(producers := s.producers[t := PWaiting(j)])
    case AddRefused => s.(producers := s.producers[t := PReturned(false)])
    case AddAccepted(wake) =>
      s.(core := core, producers := s.producers[t := PReturned(true)], accepted := s.accepted + [j],
         workers := if wake then WakeWorkers(s.workers) else s.workers)
  }

  function ApplyWork(s: State, w: nat, woken: set<nat>): State
    requires Enabled(s, Work(w, woken))
  {
    var (core, o) := WorkSection(s.core);
    match o
    case WorkWait => s.(workers := s.workers[w := WWaiting])
    case WorkExit => s.(workers := s.workers[w := WExited])
    case WorkTake(j, _, wakeProducers) =>
      s.(core := core, workers := s.workers[w := WRunning(j)], started := s.started + [j],
         destroyers := WakeDestroyers(s.destroyers, woken),
         producers := if wakeProducers then WakeProducers(s.producers) else s.producers)
  }

  function AfterClose(s: State, t: nat, core: Core, o: CloseOutcome): State
    requires t < |s.destroyers|
  {
    match o
    case CloseRefused => s.(destroyers := s.destroyers[t := DRefused])
    case CloseWait => s.(core := core, destroyers := s.destroyers[t := DWaiting])
    case CloseDone => s.(core := core, destroyers := s.destroyers[t := DClosed])
  }

  function ApplyDestroy(s: State, t: nat): State
    requires Enabled(s, Destroy(t))
  {
    match s.destroyers[t]
    case DLocking => var (core, o) := CloseSection(s.core); AfterClose(s, t, core, o)
    case DWoken => var (core, o) := DrainSection(s.core); AfterClose(s, t, core, o)
    case DClosed => s.(destroyers := s.destroyers[t := DBroadcast], workers := WakeWorkers(s.workers))
    case DBroadcast => s.(destroyers := s.destroyers[t := DJoining(0)], producers := WakeProducers(s.producers))
    case DJoining(i) => s.(destroyers := s.destroyers[t := if i < |s.workers| then DJoining(i + 1) else DDone])
    case _ => s
  }

  function Apply(s: State, step: Step): State
    requires Enabled(s, step)
  {
    match step
    case CallAdd(job) => s.(producers := s.producers + [PLocking(job)])
    case CallDestroy => s.(destroyers := s.destroyers + [DLocking])
    case Add(t) => ApplyAdd(s, t)
    case Work(w, woken) => ApplyWork(s, w, woken)
    case Finish(w) => s.(workers := s.workers[w := WLocking], finished := s.finished + multiset{s.workers[w].job})
    case Destroy(t) => ApplyDestroy(s, t)
    case SpuriousWorker(w) => s.(workers := s.workers[w := WLocking])
    case SpuriousProducer(t) => s.(producers := s.producers[t := PLocking(s.producers[t].job)])
    case SpuriousDestroyer(t) => s.(destroyers := s.destroyers[t := DWoken])
  }

  function Init(threadNum: nat, cap: int): State {
    State(Core(cap, [], false, false), seq(threadNum, _ => WLocking), [], [], [], [], multiset{})
  }

  ghost predicate IsRun(s: State, steps: seq<Step>, s': State)
    decreases |steps|
  {
    if steps == [] then s == s'
    else Enabled(s, steps[0]) && IsRun(Apply(s, steps[0]), steps[1..], s')
  }

  // ---- Invariant ----

  /** The destroyer that set queue_close. */
  predicate Owner(d: DestroyerPc) {
    !d.DLocking? && !d.DRefused?
  }

  predicate Closer(d: DestroyerPc) {
    Owner(d) && !d.DWaiting? && !d.DWoken?
  }

  ghost predicate SomeOwner(ds: seq<DestroyerPc>) {
    exists i | 0 <= i < |ds| :: Owner(ds[i])
  }

  ghost predicate SomeCloser(ds: seq<DestroyerPc>) {
    exists i | 0 <= i < |ds| :: Closer(ds[i])
  }

  ghost predicate SomeClosed(ds: seq<DestroyerPc>) {
    exists i | 0 <= i < |ds| :: ds[i].DClosed?
  }

  ghost predicate SomeBroadcast(ds: seq<DestroyerPc>) {
    exists i | 0 <= i < |ds| :: ds[i].DBroadcast?
  }

  function JobsOfOne(pc: WorkerPc): multiset<Job> {
    if pc.WRunning? then multiset{pc.job} else multiset{}
  }

  function RunningJobs(ws: seq<WorkerPc>): multiset<Job> {
    if ws == [] then multiset{} else RunningJobs(ws[..|ws| - 1]) + JobsOfOne(ws[|ws| - 1])
  }

  /** No job is lost, doubled or reordered, and the queue never holds more than it may. */
  ghost predicate Ledger(s: State) {
    && s.accepted == s.started + s.core.jobs
    && multiset(s.started) == s.finished + RunningJobs(s.workers)
    && (0 <= s.core.cap ==> |s.core.jobs| <= s.core.cap)
  }

  ghost predicate Closing(s: State) {
    && (forall i, j | 0 <= i < j < |s.destroyers| :: !(Owner(s.destroyers[i]) && Owner(s.destroyers[j])))
    && (s.core.queueClose <==> SomeOwner(s.destroyers))
    && (s.core.poolClose <==> SomeCloser(s.destroyers))
    && (s.core.poolClose ==> s.core.jobs == [])
    && (forall w | 0 <= w < |s.workers| && s.workers[w].WExited? :: s.core.poolClose)
    && (forall i | 0 <= i < |s.destroyers| && s.destroyers[i].DJoining? ::
          s.destroyers[i].next <= |s.workers| && forall w | 0 <= w < s.destroyers[i].next :: s.workers[w].WExited?)
    && (forall i | 0 <= i < |s.destroyers| && s.destroyers[i].DDone? ::
          forall w | 0 <= w < |s.workers| :: s.workers[w].WExited?)
  }

  /** No lost wake-up: whoever waits, waits for something that is still to come. */
  ghost predicate NoLostWakeup(s: State) {
    && (forall w | 0 <= w < |s.workers| && s.workers[w].WWaiting? ::
          s.core.jobs == [] && (s.core.poolClose ==> SomeClosed(s.destroyers)))
    && (forall t | 0 <= t < |s.producers| && s.producers[t].PWaiting? ::
          && |s.core.jobs| == s.core.cap
          && (s.core.poolClose ==> SomeClosed(s.destroyers) || SomeBroadcast(s.destroyers)))
    && (forall i | 0 <= i < |s.destroyers| && s.destroyers[i].DWaiting? :: s.core.jobs != [])
  }

  /** A call is refused only by a pool that has been closed. */
  ghost predicate Refusals(s: State) {
    && (forall t | 0 <= t < |s.producers| && s.producers[t] == PReturned(false) :: s.core.queueClose)
    && (forall i | 0 <= i < |s.destroyers| && s.destroyers[i].DRefused? :: s.core.queueClose)
  }

  ghost predicate Inv(s: State) {
    Ledger(s) && Closing(s) && NoLostWakeup(s) && Refusals(s)
  }

  // ---- Every step keeps the invariant ----

  lemma Regroup(a: multiset<Job>, b: multiset<Job>, x: multiset<Job>, y: multiset<Job>, last: multiset<Job>)
    requires b + x == a + y
    ensures (b + last) + x == (a + last) + y
  {
    var l, r := (b + last) + x, (a + last) + y;
    forall e: Job
      ensures l[e] == r[e]
    {
      assert (b + x)[e] == (a + y)[e];
    }
    assert l == r;
  }

  lemma {:induction false} RunningUpdate(ws: seq<WorkerPc>, w: nat, pc: WorkerPc)
    requires w < |ws|
    ensures RunningJobs(ws[w := pc]) + JobsOfOne(ws[w]) == RunningJobs(ws) + JobsOfOne(pc)
  {
    var n := |ws| - 1;
    var xs := ws[w := pc];
    RunningLast(ws);
    RunningLast(xs);
    hide RunningJobs, JobsOfOne;
    var x, y, a := JobsOfOne(ws[w]), JobsOfOne(pc), RunningJobs(ws[..n]);
    if w == n {
      assert xs[..n] == ws[..n];
      assert (a + y) + x == (a + x) + y;
    } else {
      assert xs[..n] == ws[..n][w := pc];
      RunningUpdate(ws[..n], w, pc);
      Regroup(a, RunningJobs(xs[..n]), x, y, JobsOfOne(ws[n]));
    }
  }

  lemma RunningLast(ws: seq<WorkerPc>)
    requires ws != []
    ensures RunningJobs(ws) == RunningJobs(ws[..|ws| - 1]) + JobsOfOne(ws[|ws| - 1])
  {
  }

  lemma {:induction false} RunningWake(ws: seq<WorkerPc>)
    ensures RunningJobs(WakeWorkers(ws)) == RunningJobs(ws)
  {
    if ws != [] {
      var n := |ws| - 1;
      assert WakeWorkers(ws)[..n] == WakeWorkers(ws[..n]);
      RunningWake(ws[..n]);
    }
  }

  lemma LedgerWork(s: State, w: nat, woken: set<nat>)
    requires Ledger(s) && Enabled(s, Work(w, woken))
    ensures Ledger(Apply(s, Work(w, woken)))
  {
    hide RunningJobs, WakeProducers, WakeDestroyers, Waiters;
    var pc := Apply(s, Work(w, woken)).workers[w];
    if pc.WRunning? {
      RunningUpdate(s.workers, w, pc);
      Taken(s.core.jobs, s.started, s.finished, RunningJobs(s.workers), RunningJobs(s.workers[w := pc]));
    } else {
      RunningUnchanged(s.workers, w, pc);
    }
  }

  /** The first job moves from the queue to the jobs that run. */
  lemma Taken(jobs: seq<Job>, started: seq<Job>, finished: multiset<Job>, run: multiset<Job>, run': multiset<Job>)
    requires jobs != [] && multiset(started) == finished + run
    requires run' + multiset{} == run + multiset{jobs[0]}
    ensures started + jobs == (started + [jobs[0]]) + jobs[1..]
    ensures multiset(started + [jobs[0]]) == finished + run'
  {
    assert jobs == [jobs[0]] + jobs[1..];
    assert run' == run + multiset{jobs[0]};
  }

  lemma LedgerFinish(s: State, w: nat)
    requires Ledger(s) && Enabled(s, Finish(w))
    ensures Ledger(Apply(s, Finish(w)))
  {
    hide RunningJobs;
    RunningUpdate(s.workers, w, WLocking);
    var j := multiset{s.workers[w].job};
    assert RunningJobs(s.workers[w := WLocking]) + j == RunningJobs(s.workers);
    assert s.finished + (j + RunningJobs(s.workers[w := WLocking])) == s.finished + RunningJobs(s.workers);
  }

  lemma RunningUnchanged(ws: seq<WorkerPc>, w: nat, pc: WorkerPc)
    requires w < |ws| && !ws[w].WRunning? && !pc.WRunning?
    ensures RunningJobs(ws[w := pc]) == RunningJobs(ws)
  {
    RunningUpdate(ws, w, pc);
    assert RunningJobs(ws[w := pc]) + multiset{} == RunningJobs(ws) + multiset{};
    assert RunningJobs(ws) + multiset{} == RunningJobs(ws);
  }

  lemma LedgerStep(s: State, step: Step)
    requires Ledger(s) && Enabled(s, step)
    ensures Ledger(Apply(s, step))
  {
    hide RunningJobs, WakeWorkers, WakeProducers, WakeDestroyers, Waiters;
    match step
    case Add(t) => LedgerAdd(s, t);
    case Work(w, woken) => LedgerWork(s, w, woken);
    case Finish(w) => LedgerFinish(s, w);
    case Destroy(t) => LedgerDestroy(s, t);
    case SpuriousWorker(w) => RunningUnchanged(s.workers, w, WLocking);
    case _ =>
  }

  lemma LedgerAdd(s: State, t: nat)
    requires Ledger(s) && Enabled(s, Add(t))
    ensures Ledger(Apply(s, Add(t)))
  {
    hide RunningJobs, WakeWorkers;
    RunningWake(s.workers);
  }

  lemma LedgerDestroy(s: State, t: nat)
    requires Ledger(s) && Enabled(s, Destroy(t))
    ensures Ledger(Apply(s, Destroy(t)))
  {
    hide RunningJobs, WakeWorkers, WakeProducers;
    RunningWake(s.workers);
  }

  lemma ClosingAdd(s: State, t: nat)
    requires Closing(s) && Enabled(s, Add(t))
    ensures Closing(Apply(s, Add(t)))
  {
  }

  /** Same owners and closers, position by position, means same answers. */
  lemma SameOwners(ds: seq<DestroyerPc>, ds': seq<DestroyerPc>)
    requires |ds| == |ds'|
    requires forall i | 0 <= i < |ds| :: Owner(ds[i]) == Owner(ds'[i])
    requires forall i | 0 <= i < |ds| :: Closer(ds[i]) == Closer(ds'[i])
    ensures SomeOwner(ds) == SomeOwner(ds') && SomeCloser(ds) == SomeCloser(ds')
  {
    if SomeOwner(ds) { var i :| 0 <= i < |ds| && Owner(ds[i]); assert Owner(ds'[i]); }
    if SomeOwner(ds') { var i :| 0 <= i < |ds| && Owner(ds'[i]); assert Owner(ds[i]); }
    if SomeCloser(ds) { var i :| 0 <= i < |ds| && Closer(ds[i]); assert Closer(ds'[i]); }
    if SomeCloser(ds') { var i :| 0 <= i < |ds| && Closer(ds'[i]); assert Closer(ds[i]); }
  }

  lemma ClosingWork(s: State, w: nat, woken: set<nat>)
    requires Closing(s) && Enabled(s, Work(w, woken))
    ensures Closing(Apply(s, Work(w, woken)))
  {
    hide Waiters, SomeOwner, SomeCloser;
    SameOwners(s.destroyers, Apply(s, Work(w, woken)).destroyers);
  }

  lemma NewDestroyer(ds: seq<DestroyerPc>)
    ensures SomeOwner(ds + [DLocking]) == SomeOwner(ds) && SomeCloser(ds + [DLocking]) == SomeCloser(ds)
  {
    var ds' := ds + [DLocking];
    if SomeOwner(ds) { var i :| 0 <= i < |ds| && Owner(ds[i]); assert Owner(ds'[i]); }
    if SomeCloser(ds) { var i :| 0 <= i < |ds| && Closer(ds[i]); assert Closer(ds'[i]); }
  }

  /** A step of an owner keeps it the only one. */
  lemma OwnerStays(ds: seq<DestroyerPc>, t: nat, d: DestroyerPc)
    requires t < |ds| && Owner(ds[t]) && Owner(d)
    requires forall i, j | 0 <= i < j < |ds| :: !(Owner(ds[i]) && Owner(ds[j]))
    ensures SomeOwner(ds) && SomeOwner(ds[t := d])
    ensures SomeCloser(ds) == Closer(ds[t]) && SomeCloser(ds[t := d]) == Closer(d)
    ensures forall i | 0 <= i < |ds| && i != t :: !Owner(ds[i])
  {
    var ds' := ds[t := d];
    assert Owner(ds'[t]);
    assert forall i | 0 <= i < |ds| && i != t :: ds'[i] == ds[i];
    if Closer(ds[t]) { assert SomeCloser(ds); }
    if Closer(d) { assert Closer(ds'[t]); }
  }

  /** A caller that finds the pool closed stays outside; the first one in becomes the owner. */
  lemma OwnerEnters(ds: seq<DestroyerPc>, t: nat, d: DestroyerPc)
    requires t < |ds| && ds[t].DLocking?
    ensures d.DRefused? ==> SomeOwner(ds[t := d]) == SomeOwner(ds) && SomeCloser(ds[t := d]) == SomeCloser(ds)
    ensures Owner(d) && !SomeOwner(ds) ==> SomeOwner(ds[t := d]) && SomeCloser(ds[t := d]) == Closer(d)
    ensures !SomeOwner(ds) ==> forall i | 0 <= i < |ds| :: !Owner(ds[i])
  {
    var ds' := ds[t := d];
    assert forall i | 0 <= i < |ds| && i != t :: ds'[i] == ds[i];
    if d.DRefused? {
      SameOwners(ds, ds');
    }
    if Owner(d) && !SomeOwner(ds) {
      assert Owner(ds'[t]);
      if Closer(d) { assert Closer(ds'[t]); }
      assert forall i | 0 <= i < |ds| && i != t :: !Owner(ds'[i]);
    }
  }

  lemma ClosingDestroy(s: State, t: nat)
    requires Closing(s) && Enabled(s, Destroy(t))
    ensures Closing(Apply(s, Destroy(t)))
  {
    hide SomeOwner, SomeCloser;
    var s' := Apply(s, Destroy(t));
    var d := s'.destroyers[t];
    assert s'.destroyers == s.destroyers[t := d];
    if s.destroyers[t].DLocking? {
      OwnerEnters(s.destroyers, t, d);
    } else {
      OwnerStays(s.destroyers, t, d);
    }
  }

  lemma ClosingStep(s: State, step: Step)
    requires Closing(s) && Enabled(s, step)
    ensures Closing(Apply(s, step))
  {
    hide SomeOwner, SomeCloser;
    match step
    case CallDestroy => NewDestroyer(s.destroyers);
    case Add(t) => ClosingAdd(s, t);
    case Work(w, woken) => ClosingWork(s, w, woken);
    case Destroy(t) => ClosingDestroy(s, t);
    case SpuriousDestroyer(t) => SameOwners(s.destroyers, Apply(s, step).destroyers);
    case _ =>
  }

  // ---- No lost wake-up ----

  lemma WakeupAdd(s: State, t: nat)
    requires Closing(s) && NoLostWakeup(s) && Enabled(s, Add(t))
    ensures NoLostWakeup(Apply(s, Add(t)))
  {
    hide SomeOwner, SomeCloser;
    assert s.core.poolClose ==> s.core.queueClose by { CloserIsOwner(s.destroyers); }
    forall i | 0 <= i < |s.destroyers| && s.destroyers[i].DWaiting?
      ensures SomeOwner(s.destroyers)
    {
      OwnerSeen(s.destroyers, i);
    }
  }

  lemma CloserIsOwner(ds: seq<DestroyerPc>)
    ensures SomeCloser(ds) ==> SomeOwner(ds)
  {
    if SomeCloser(ds) { var i :| 0 <= i < |ds| && Closer(ds[i]); assert Owner(ds[i]); }
  }

  lemma OwnerSeen(ds: seq<DestroyerPc>, i: nat)
    requires i < |ds|
    ensures Owner(ds[i]) ==> SomeOwner(ds)
    ensures Closer(ds[i]) ==> SomeCloser(ds)
  {
  }

  /** pthread_cond_signal suffices: the only destroyer that can wait is the owner. */
  lemma AllWoken(s: State, woken: set<nat>)
    requires Closing(s) && woken <= Waiters(s.destroyers)
    requires Waiters(s.destroyers) != {} ==> woken != {}
    ensures forall i | 0 <= i < |s.destroyers| :: !WakeDestroyers(s.destroyers, woken)[i].DWaiting?
  {
    forall i | 0 <= i < |s.destroyers|
      ensures !WakeDestroyers(s.destroyers, woken)[i].DWaiting?
    {
      if s.destroyers[i].DWaiting? {
        assert i in Waiters(s.destroyers);
        var k :| k in woken;
        assert Owner(s.destroyers[i]) && Owner(s.destroyers[k]);
      }
    }
  }

  lemma WakeupWork(s: State, w: nat, woken: set<nat>)
    requires Closing(s) && NoLostWakeup(s) && Enabled(s, Work(w, woken))
    ensures NoLostWakeup(Apply(s, Work(w, woken)))
  {
    hide SomeOwner, SomeCloser, SomeClosed, SomeBroadcast, WakeDestroyers, Waiters;
    var s' := Apply(s, Work(w, woken));
    WokenPcs(s.destroyers, woken);
    StillClosing(s.destroyers, s'.destroyers);
    if s'.core.jobs == [] && s.core.jobs != [] {
      AllWoken(s, woken);
    }
  }

  lemma WokenPcs(ds: seq<DestroyerPc>, woken: set<nat>)
    ensures forall i | 0 <= i < |ds| :: !ds[i].DWaiting? ==> WakeDestroyers(ds, woken)[i] == ds[i]
    ensures forall i | 0 <= i < |ds| :: ds[i].DWaiting? ==> WakeDestroyers(ds, woken)[i] in {DWaiting, DWoken}
  {
  }

  lemma WakeupDestroy(s: State, t: nat)
    requires Closing(s) && NoLostWakeup(s) && Enabled(s, Destroy(t))
    ensures NoLostWakeup(Apply(s, Destroy(t)))
  {
    hide SomeOwner, SomeCloser;
    var s' := Apply(s, Destroy(t));
    assert s'.destroyers[t] != s.destroyers[t];
    assert forall i | 0 <= i < |s.destroyers| && i != t :: s'.destroyers[i] == s.destroyers[i];
    OwnerSeen(s.destroyers, t);
  }

  lemma StillClosing(ds: seq<DestroyerPc>, ds': seq<DestroyerPc>)
    requires |ds| <= |ds'|
    requires forall i | 0 <= i < |ds| :: (ds[i].DClosed? || ds[i].DBroadcast?) ==> ds'[i] == ds[i]
    ensures SomeClosed(ds) ==> SomeClosed(ds')
    ensures SomeBroadcast(ds) ==> SomeBroadcast(ds')
  {
    if SomeClosed(ds) { var i :| 0 <= i < |ds| && ds[i].DClosed?; assert ds'[i].DClosed?; }
    if SomeBroadcast(ds) { var i :| 0 <= i < |ds| && ds[i].DBroadcast?; assert ds'[i].DBroadcast?; }
  }

  lemma WakeupStep(s: State, step: Step)
    requires Closing(s) && NoLostWakeup(s) && Enabled(s, step)
    ensures NoLostWakeup(Apply(s, step))
  {
    hide SomeOwner, SomeCloser, SomeClosed, SomeBroadcast;
    match step
    case Add(t) => WakeupAdd(s, t);
    case Work(w, woken) => WakeupWork(s, w, woken);
    case Destroy(t) => WakeupDestroy(s, t);
    case CallDestroy => StillClosing(s.destroyers, Apply(s, step).destroyers);
    case SpuriousDestroyer(t) => StillClosing(s.destroyers, Apply(s, step).destroyers);
    case _ =>
  }

  // ---- What one step does, without the sections ----

  lemma RefusalsStep(s: State, step: Step)
    requires Refusals(s) && Closing(s) && Enabled(s, step)
    ensures Refusals(Apply(s, step))
  {
    hide WakeWorkers, WakeDestroyers, Waiters, SomeOwner, SomeCloser;
    assert s.core.poolClose ==> s.core.queueClose by {
      CloserIsOwner(s.destroyers);
    }
    match step
    case Work(w, woken) => WokenPcs(s.destroyers, woken);
    case Destroy(t) =>
      var s' := Apply(s, step);
      assert forall i | 0 <= i < |s.destroyers| && i != t :: s'.destroyers[i] == s.destroyers[i];
    case _ =>
  }

  /**
   * A call of threadpool_add_job on an open pool that is not full: the job goes to the end of the queue and is
   * accepted, and a queue that was empty wakes every waiting worker. A full pool makes the call wait.
   */
  lemma OpenPoolAccepts(s: State, t: nat)
    requires Enabled(s, Add(t)) && !s.core.queueClose && !s.core.poolClose
    ensures var s' := Apply(s, Add(t)); var j := s.producers[t].job;
      && s'.core.cap == s.core.cap && !s'.core.queueClose && !s'.core.poolClose
      && s'.destroyers == s.destroyers && s'.started == s.started && s'.finished == s.finished
      && (|s.core.jobs| != s.core.cap ==>
            && s'.core.jobs == s.core.jobs + [j] && s'.accepted == s.accepted + [j]
            && s'.producers == s.producers[t := PReturned(true)]
            && |s'.workers| == |s.workers|
            && forall w | 0 <= w < |s.workers| ::
                 s'.workers[w] == if s.core.jobs == [] && s.workers[w].WWaiting? then WLocking else s.workers[w])
      && (|s.core.jobs| == s.core.cap ==> s' == s.(producers := s.producers[t := PWaiting(j)]))
  {
  }

  /** On a closed pool the call is refused, and changes nothing else. */
  lemma ClosedPoolRefuses(s: State, t: nat)
    requires Enabled(s, Add(t)) && (s.core.queueClose || s.core.poolClose)
    ensures Apply(s, Add(t)) == s.(producers := s.producers[t := PReturned(false)])
  {
  }

  /** A worker at the mutex takes the first job; without one it waits, or leaves a pool that is closed. */
  lemma WorkerTakesFirst(s: State, w: nat, woken: set<nat>)
    requires Enabled(s, Work(w, woken)) && Inv(s)
    ensures var s' := Apply(s, Work(w, woken));
      && (s.core.jobs != [] ==>
            && s'.core == s.core.(jobs := s.core.jobs[1..]) && s'.started == s.started + [s.core.jobs[0]]
            && s'.workers == s.workers[w := WRunning(s.core.jobs[0])]
            && |s'.producers| == |s.producers|
            && (forall t | 0 <= t < |s.producers| && !s.producers[t].PWaiting? :: s'.producers[t] == s.producers[t])
            && (forall t | 0 <= t < |s.producers| && s.producers[t].PWaiting? ::
                  s'.producers[t] == PLocking(s.producers[t].job)))
      && (s.core.jobs == [] ==>
            s' == s.(workers := s.workers[w := if s.core.poolClose then WExited else WWaiting]))
  {
    hide WakeDestroyers, Waiters, Ledger, SomeOwner, SomeCloser, SomeClosed, SomeBroadcast;
  }

  /** threadpool_destroy closes the queue of an open pool, and the pool itself once the queue is empty. */
  lemma DestroyCloses(s: State, t: nat)
    requires Enabled(s, Destroy(t)) && (s.destroyers[t].DLocking? || s.destroyers[t].DWoken?) && Inv(s)
    ensures var s' := Apply(s, Destroy(t)); var open := s.destroyers[t].DWoken? || !s.core.queueClose;
      && (open && s.core.jobs != [] ==> s' == s.(core := Core(s.core.cap, s.core.jobs, true, s.core.poolClose),
                                                  destroyers := s.destroyers[t := DWaiting]))
      && (open && s.core.jobs == [] ==> s' == s.(core := Core(s.core.cap, [], true, true),
                                                  destroyers := s.destroyers[t := DClosed]))
      && (!open ==> s' == s.(destroyers := s.destroyers[t := DRefused]))
  {
    OwnerSeen(s.destroyers, t);
    CloserIsOwner(s.destroyers);
    hide Ledger, NoLostWakeup, SomeOwner, SomeCloser;
  }

  // ---- Over whole runs ----

  lemma InitInv(threadNum: nat, cap: int)
    ensures Inv(Init(threadNum, cap))
  {
    IdleRunning(Init(threadNum, cap).workers);
  }

  lemma {:induction false} IdleRunning(ws: seq<WorkerPc>)
    requires forall w | 0 <= w < |ws| :: ws[w].WLocking? || ws[w].WExited?
    ensures RunningJobs(ws) == multiset{}
  {
    if ws != [] {
      IdleRunning(ws[..|ws| - 1]);
    }
  }

  /** The invariant holds in every state that any interleaving can reach. */
  lemma {:induction false} RunInv(s: State, steps: seq<Step>, s': State)
    requires Inv(s) && IsRun(s, steps, s')
    ensures Inv(s')
    decreases |steps|
  {
    hide Ledger, Closing, NoLostWakeup, Refusals, Enabled, Apply;
    if steps != [] {
      RefusalsStep(s, steps[0]);
      LedgerStep(s, steps[0]);
      ClosingStep(s, steps[0]);
      WakeupStep(s, steps[0]);
      RunInv(Apply(s, steps[0]), steps[1..], s');
    }
  }

  /**
   * No thread is left waiting while its condition holds: a waiting worker means an empty queue (and, once
   * the pool is closed, a broadcast still to come); a waiting producer means a full queue; a waiting
   * destroyer means a queue that is not empty.
   */
  lemma WaitingIsJustified(threadNum: nat, cap: int, steps: seq<Step>, s: State)
    requires IsRun(Init(threadNum, cap), steps, s)
    ensures NoLostWakeup(s)
  {
    InitInv(threadNum, cap);
    RunInv(Init(threadNum, cap), steps, s);
  }

  /** Whatever the interleaving, threadpool_add_job refuses a job only after threadpool_destroy has been called. */
  lemma RefusedOnlyIfClosed(threadNum: nat, cap: int, steps: seq<Step>, s: State, t: nat)
    requires IsRun(Init(threadNum, cap), steps, s)
    requires t < |s.producers| && s.producers[t] == PReturned(false)
    ensures s.core.queueClose && exists k :: 0 <= k < |steps| && steps[k].CallDestroy?
  {
    InitInv(threadNum, cap);
    RunInv(Init(threadNum, cap), steps, s);
    hide Inv, IsRun;
    assert Refusals(s) && Closing(s) by {
      InvParts(s);
    }
    var i :| 0 <= i < |s.destroyers| && Owner(s.destroyers[i]);
    DestroyersCalled(Init(threadNum, cap), steps, s);
  }

  lemma InvParts(s: State)
    requires Inv(s)
    ensures Refusals(s) && Closing(s)
  {
  }

  lemma {:induction false} DestroyersCalled(s: State, steps: seq<Step>, s': State)
    requires IsRun(s, steps, s') && |s'.destroyers| > |s.destroyers|
    ensures exists k :: 0 <= k < |steps| && steps[k].CallDestroy?
    decreases |steps|
  {
    hide Enabled;
    if !steps[0].CallDestroy? {
      DestroyersStay(s, steps[0]);
      DestroyersCalled(Apply(s, steps[0]), steps[1..], s');
      var k :| 0 <= k < |steps[1..]| && steps[1..][k].CallDestroy?;
      assert steps[k + 1].CallDestroy?;
    }
  }

  lemma DestroyersStay(s: State, step: Step)
    requires Enabled(s, step) && !step.CallDestroy?
    ensures |Apply(s, step).destroyers| == |s.destroyers|
  {
  }

  /** Jobs leave in the order they were accepted, and the queue stays within its bound. */
  lemma QueueOrder(threadNum: nat, cap: nat, steps: seq<Step>, s: State)
    requires IsRun(Init(threadNum, cap), steps, s)
    ensures s.started + s.core.jobs == s.accepted
    ensures |s.core.jobs| <= cap
  {
    InitInv(threadNum, cap);
    RunInv(Init(threadNum, cap), steps, s);
    RunCap(Init(threadNum, cap), steps, s);
  }

  lemma {:induction false} RunCap(s: State, steps: seq<Step>, s': State)
    requires IsRun(s, steps, s')
    ensures s'.core.cap == s.core.cap && |s'.workers| == |s.workers|
    decreases |steps|
  {
    hide Enabled;
    if steps != [] {
      StepCap(s, steps[0]);
      RunCap(Apply(s, steps[0]), steps[1..], s');
    }
  }

  lemma StepCap(s: State, step: Step)
    requires Enabled(s, step)
    ensures Apply(s, step).core.cap == s.core.cap && |Apply(s, step).workers| == |s.workers|
    ensures s.core.queueClose ==> Apply(s, step).core.queueClose && Apply(s, step).accepted == s.accepted
  {
  }

  /** Once threadpool_destroy has closed the queue, nothing is accepted any more. */
  lemma {:induction false} ClosedStaysClosed(s: State, steps: seq<Step>, s': State)
    requires IsRun(s, steps, s') && s.core.queueClose
    ensures s'.core.queueClose && s'.accepted == s.accepted
    decreases |steps|
  {
    hide Enabled, Apply;
    if steps != [] {
      StepCap(s, steps[0]);
      ClosedStaysClosed(Apply(s, steps[0]), steps[1..], s');
    }
  }

  /** When threadpool_destroy has joined all workers, every accepted job has run exactly once. */
  lemma DestroyedAfterAllJobs(threadNum: nat, cap: int, steps: seq<Step>, s: State, t: nat)
    requires IsRun(Init(threadNum, cap), steps, s)
    requires t < |s.destroyers| && s.destroyers[t].DDone?
    ensures s.core.jobs == [] && s.finished == multiset(s.accepted)
  {
    InitInv(threadNum, cap);
    RunInv(Init(threadNum, cap), steps, s);
    OwnerSeen(s.destroyers, t);
    IdleRunning(s.workers);
    assert s.accepted == s.started;
  }

  // ---- Progress ----

  /** A step of a thread already inside the pool: no new call, no spurious wake-up. */
  predicate Internal(step: Step) {
    step.Add? || step.Work? || step.Finish? || step.Destroy?
  }

  ghost predicate CanMove(s: State) {
    exists step :: Internal(step) && Enabled(s, step)
  }

  /** Something is left to do inside the pool. */
  ghost predicate Unfinished(s: State) {
    || s.core.jobs != []
    || (exists t | 0 <= t < |s.producers| :: !s.producers[t].PReturned?)
    || (exists i | 0 <= i < |s.destroyers| :: !s.destroyers[i].DDone? && !s.destroyers[i].DRefused?)
  }

  lemma MovesIfLocking(s: State)
    ensures (exists w | 0 <= w < |s.workers| :: s.workers[w].WLocking? || s.workers[w].WRunning?) ==> CanMove(s)
    ensures (exists t | 0 <= t < |s.producers| :: s.producers[t].PLocking?) ==> CanMove(s)
    ensures (exists i | 0 <= i < |s.destroyers| :: Enabled(s, Destroy(i))) ==> CanMove(s)
  {
    if w :| 0 <= w < |s.workers| && s.workers[w].WLocking? {
      assert Enabled(s, Work(w, if WorkSection(s.core).1.WorkTake? && WorkSection(s.core).1.signalEmpty
                                then Waiters(s.destroyers) else {}));
    }
    if w :| 0 <= w < |s.workers| && s.workers[w].WRunning? {
      assert Enabled(s, Finish(w));
    }
    if t :| 0 <= t < |s.producers| && s.producers[t].PLocking? {
      assert Enabled(s, Add(t));
    }
    if i :| 0 <= i < |s.destroyers| && Enabled(s, Destroy(i)) {
      assert Internal(Destroy(i));
    }
  }

  /** If no thread can move, every worker is waiting or gone. */
  lemma StuckWorkers(s: State)
    requires !CanMove(s)
    ensures forall w | 0 <= w < |s.workers| :: s.workers[w].WWaiting? || s.workers[w].WExited?
    ensures forall t | 0 <= t < |s.producers| :: s.producers[t].PWaiting? || s.producers[t].PReturned?
    ensures forall i | 0 <= i < |s.destroyers| :: !Enabled(s, Destroy(i))
  {
    MovesIfLocking(s);
  }

  lemma StuckQueueEmpty(s: State)
    requires Closing(s) && NoLostWakeup(s) && s.workers != [] && !CanMove(s)
    ensures s.core.jobs == []
  {
    hide CanMove, SomeClosed, SomeBroadcast, SomeOwner, SomeCloser;
    StuckWorkers(s);
    assert s.workers[0].WWaiting? || s.workers[0].WExited?;
  }

  lemma StuckDestroyer(s: State, i: nat)
    requires Closing(s) && NoLostWakeup(s) && s.workers != [] && !CanMove(s)
    requires i < |s.destroyers|
    ensures s.destroyers[i].DDone? || s.destroyers[i].DRefused?
  {
    hide CanMove;
    StuckWorkers(s);
    StuckQueueEmpty(s);
    assert !Enabled(s, Destroy(i));
  }

  /**
   * No deadlock: with at least one worker and room for at least one job, while anything is left to do,
   * some thread can take its next step.
   */
  lemma NoDeadlock(s: State)
    requires Inv(s) && s.workers != [] && s.core.cap != 0 && Unfinished(s)
    ensures CanMove(s)
  {
    hide CanMove, Ledger;
    if !CanMove(s) {
      StuckQueueEmpty(s);
      StuckWorkers(s);
      forall i | 0 <= i < |s.destroyers|
        ensures s.destroyers[i].DDone? || s.destroyers[i].DRefused?
      {
        StuckDestroyer(s, i);
      }
    }
  }
}
