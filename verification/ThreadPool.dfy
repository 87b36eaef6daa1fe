/** The critical sections of threadpool.c: the fields under the mutex, and the linked job list. */
module ThreadPool {

  /** A job: its callback and argument, as one name. */
  type Job = nat

  /** What the mutex protects, with the job list as a sequence. */
  datatype Core = Core(cap: int, jobs: seq<Job>, queueClose: bool, poolClose: bool)

  datatype AddOutcome = AddWait | AddRefused | AddAccepted(wakeWorkers: bool)
  datatype WorkOutcome = WorkWait | WorkExit | WorkTake(job: Job, signalEmpty: bool, wakeProducers: bool)
  datatype CloseOutcome = CloseRefused | CloseWait | CloseDone

  /** threadpool_add_job from one acquisition of the mutex to the next release or wait. */
  function AddSection(c: Core, j: Job): (Core, AddOutcome) {
    if |c.jobs| == c.cap && !(c.queueClose || c.poolClose) then (c, AddWait)
    else if c.queueClose || c.poolClose then (c, AddRefused)
    else (c.(jobs := c.jobs + [j]), AddAccepted(c.jobs == []))
  }

  /** threadpool_function, likewise. */
  function WorkSection(c: Core): (Core, WorkOutcome) {
    if c.jobs == [] && !c.poolClose then (c, WorkWait)
    else if c.poolClose then (c, WorkExit)
    else
      var rest := c.jobs[1..];
      (c.(jobs := rest), WorkTake(c.jobs[0], rest == [], |rest| == c.cap - 1))
  }

  /** The waiting loop of threadpool_destroy. */
  function DrainSection(c: Core): (Core, CloseOutcome) {
    if c.jobs != [] then (c, CloseWait) else (c.(poolClose := true), CloseDone)
  }

  /** The entry of threadpool_destroy, which runs into the waiting loop under the same lock. */
  function CloseSection(c: Core): (Core, CloseOutcome) {
    if c.queueClose || c.poolClose then (c, CloseRefused) else DrainSection(c.(queueClose := true))
  }

  /** struct job. */
  class JobNode {
    const job: Job
    var next: JobNode?

    constructor (job: Job)
      ensures this.job == job && next == null
    {
      this.job := job;
      next := null;
    }
  }

  ghost function At(nodes: seq<JobNode>, i: nat): JobNode? {
    if i < |nodes| then nodes[i] else null
  }

  /** struct threadpool, without the threads. */
  class Pool {
    const queueMaxNum: int
    var head: JobNode?
    var tail: JobNode?
    var queueCurNum: int
    var queueClose: bool
    var poolClose: bool
    ghost var nodes: seq<JobNode>
    ghost var Repr: set<JobNode>

    /** head, tail and queue_cur_num describe one and the same list. */
    ghost predicate Valid()
      reads this, Repr
    {
      && (forall i | 0 <= i < |nodes| :: nodes[i] in Repr)
      && (forall i, j | 0 <= i < j < |nodes| :: nodes[i] != nodes[j])
      && head == At(nodes, 0)
      && tail == (if nodes == [] then null else nodes[|nodes| - 1])
      && queueCurNum == |nodes|
      && (forall i {:trigger nodes[i].next} | 0 <= i < |nodes| :: nodes[i].next == At(nodes, i + 1))
    }

    ghost function Jobs(): (s: seq<Job>)
      reads this
      ensures |s| == |nodes|
    {
      JobsOf(nodes)
    }

    static ghost function JobsOf(nodes: seq<JobNode>): (s: seq<Job>)
      ensures |s| == |nodes|
    {
      seq(|nodes|, i requires 0 <= i < |nodes| => nodes[i].job)
    }

    ghost function State(): Core
      reads this
    {
      Core(queueMaxNum, Jobs(), queueClose, poolClose)
    }

    /** threadpool_init. */
    constructor (queueMaxNum: int)
      ensures Valid() && Repr == {}
      ensures State() == Core(queueMaxNum, [], false, false)
    {
      this.queueMaxNum := queueMaxNum;
      head, tail, queueCurNum := null, null, 0;
      queueClose, poolClose := false, false;
      nodes, Repr := [], {};
    }

    method AddJob(job: Job) returns (outcome: AddOutcome)
      requires Valid()
      modifies this, Repr
      ensures Valid() && fresh(Repr - old(Repr))
      ensures (State(), outcome) == AddSection(old(State()), job)
    {
      if queueCurNum == queueMaxNum && !(queueClose || poolClose) {
        return AddWait;
      }
      if queueClose || poolClose {
        return AddRefused;
      }
      var pjob := new JobNode(job);
      if head == null {
        head, tail := pjob, pjob;
        outcome := AddAccepted(true);
      } else {
        tail.next := pjob;
        tail := pjob;
        outcome := AddAccepted(false);
      }
      queueCurNum := queueCurNum + 1;
      nodes, Repr := nodes + [pjob], Repr + {pjob};
      assert Jobs() == old(Jobs()) + [job];
    }

    method TakeJob() returns (outcome: WorkOutcome)
      requires Valid()
      modifies this
      ensures Valid() && Repr == old(Repr)
      ensures (State(), outcome) == WorkSection(old(State()))
    {
      if queueCurNum == 0 && !poolClose {
        return WorkWait;
      }
      if poolClose {
        return WorkExit;
      }
      queueCurNum := queueCurNum - 1;
      var pjob := head;
      if queueCurNum == 0 {
        head, tail := null, null;
      } else {
        head := pjob.next;
      }
      nodes := nodes[1..];
      assert Jobs() == old(Jobs())[1..];
      return WorkTake(pjob.job, queueCurNum == 0, queueCurNum == queueMaxNum - 1);
    }

    method DestroyWait() returns (outcome: CloseOutcome)
      requires Valid()
      modifies this`poolClose
      ensures Valid()
      ensures (State(), outcome) == DrainSection(old(State()))
    {
      if queueCurNum != 0 {
        return CloseWait;
      }
      poolClose := true;
      return CloseDone;
    }

    method Destroy() returns (outcome: CloseOutcome)
      requires Valid()
      modifies this`poolClose, this`queueClose
      ensures Valid()
      ensures (State(), outcome) == CloseSection(old(State()))
    {
      if queueClose || poolClose {
        return CloseRefused;
      }
      queueClose := true;
      outcome := DestroyWait();
    }
  }
}
