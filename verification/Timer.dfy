/** The software timers of pgos/MsOS_timer.c: when a timer is due, and how late it may be called. */
module Timer {
  import opened Bytes

  const U32: nat := 0x1_0000_0000

  function Wrap(x: nat): u32 {
    x % U32
  }

  /** The fields of MSOS_timer that decide about its callbacks. */
  datatype Timer = Timer(started: bool, first: u32, period: u32, init: u32, times: u32)

  /** When the callback after the given number of callbacks is due. */
  function Deadline(t: Timer, times: nat): (d: nat)
    ensures times == 0 ==> d == t.init + t.first
  {
    t.init + t.first + t.period * times
  }

  /** The comparison of TimerProcess, in 32 bits. */
  predicate Reached(d: nat, now: u32) {
    Wrap(d) <= now
  }

  predicate Due(t: Timer, now: u32) {
    Reached(Deadline(t, t.times), now)
  }

  /** One turn of the inner loop of TimerProcess: the timer afterwards, and whether it was called. */
  function Visit(t: Timer, now: u32): (Timer, bool) {
    if !t.started then (t, false)
    else if t.times == 0 then
      if Due(t, now) then (t.(times := 1), true) else (t, false)
    else if t.period != 0 then
      if Due(t, now) then (t.(times := Wrap(t.times + 1)), true) else (t, false)
    else (t, false)
  }

  /** The comparison is right for every clock reading exactly if the deadline fits 32 bits. */
  lemma DueIff(d: nat)
    ensures (forall now: u32 :: Reached(d, now) <==> d <= now) <==> d < 4294967296
  {
    if d >= U32 {
      var now: u32 := Wrap(d);
      assert Reached(d, now);
    } else {
      SmallWrap(d);
    }
  }

  // ---- The life of a timer ----

  datatype Event = Scan(now: u32) | Start(now: u32) | Stop(now: u32)
    | Reset(first: u32, period: u32, start: bool, now: u32)

  /** A timer with the times of its callbacks since it was last started, stopped or reset. */
  datatype Life = Life(t: Timer, calls: seq<u32>)

  function Step(l: Life, e: Event): Life {
    match e
    case Scan(now) =>
      var v := Visit(l.t, now);
      Life(v.0, if v.1 then l.calls + [now] else l.calls)
    case Start(now) => Life(l.t.(started := true, init := now, times := 0), [])
    case Stop(now) => Life(l.t.(started := false, init := now, times := 0), [])
    case Reset(first, period, start, now) => Life(Timer(start, first, period, now, 0), [])
  }

  function Run(l: Life, es: seq<Event>): Life {
    if es == [] then l else Step(Run(l, es[..|es| - 1]), es[|es| - 1])
  }

  /** The clock arithmetic for the next callback stays below 2^32. */
  predicate InRange(t: Timer) {
    Deadline(t, t.times) < U32 && t.times + 1 < U32
  }

  ghost predicate StaysInRange(l: Life, es: seq<Event>) {
    forall n | 0 <= n <= |es| :: InRange(Run(l, es[..n]).t)
  }

  ghost predicate Inv(l: Life) {
    && l.t.times == |l.calls|
    && (l.t.period == 0 ==> |l.calls| <= 1)
    && (forall k | 0 <= k < |l.calls| :: Deadline(l.t, k) <= l.calls[k])
  }

  lemma SmallWrap(x: nat)
    requires x < U32
    ensures Wrap(x) == x
  {
  }

  lemma StepKeeps(l: Life, e: Event)
    requires Inv(l) && InRange(l.t)
    ensures Inv(Step(l, e))
  {
    hide Wrap;
    SmallWrap(Deadline(l.t, l.t.times));
    SmallWrap(l.t.times + 1);
    var r := Step(l, e);
    assert e.Scan? ==> forall k :: Deadline(r.t, k) == Deadline(l.t, k);
  }

  /** In every run, times counts the callbacks since the last start, and none of them was early. */
  lemma {:induction false} NeverEarly(l: Life, es: seq<Event>)
    requires Inv(l) && StaysInRange(l, es)
    ensures Inv(Run(l, es))
    decreases |es|
  {
    if es != [] {
      var before := es[..|es| - 1];
      assert forall n | 0 <= n <= |before| :: before[..n] == es[..n];
      NeverEarly(l, before);
      assert before[..|before|] == before;
      assert InRange(Run(l, es[..|before|]).t);
      StepKeeps(Run(l, before), es[|es| - 1]);
    }
  }

  // ---- Lateness ----

  function Scans(nows: seq<u32>): (es: seq<Event>)
    ensures |es| == |nows|
  {
    if nows == [] then [] else Scans(nows[..|nows| - 1]) + [Scan(nows[|nows| - 1])]
  }

  function LastScan(t: Timer, nows: seq<u32>): u32 {
    if nows == [] then t.init else nows[|nows| - 1]
  }

  /** The clock never runs back, and from the start of the timer on no two scans are more than gap apart. */
  ghost predicate Dense(t: Timer, nows: seq<u32>, gap: nat) {
    forall i | 0 <= i < |nows| :: LastScan(t, nows[..i]) <= nows[i] <= LastScan(t, nows[..i]) + gap
  }

  lemma DensePrefix(t: Timer, nows: seq<u32>, gap: nat)
    requires nows != [] && Dense(t, nows, gap)
    ensures Dense(t, nows[..|nows| - 1], gap)
    ensures LastScan(t, nows[..|nows| - 1]) <= nows[|nows| - 1] <= LastScan(t, nows[..|nows| - 1]) + gap
  {
    var s := nows[..|nows| - 1];
    assert forall i | 0 <= i < |s| :: s[..i] == nows[..i];
  }

  lemma ScansPrefix(nows: seq<u32>)
    requires nows != []
    ensures Scans(nows)[..|nows| - 1] == Scans(nows[..|nows| - 1])
    ensures Scans(nows)[|nows| - 1] == Scan(nows[|nows| - 1])
  {
  }

  /** A timer that has just been started. */
  ghost predicate Started(t: Timer) {
    t.started && t.times == 0 && t.period > 0
  }

  /**
   * No callback later than gap, and none that was due before the last scan is missing. With a first
   * delay, every callback is less than gap late.
   */
  ghost predicate OnTime(t: Timer, l: Life, last: u32, gap: nat) {
    && l.t == t.(times := l.t.times) && l.t.times == |l.calls|
    && (forall k | 0 <= k < |l.calls| :: Deadline(t, k) <= l.calls[k] <= Deadline(t, k) + gap)
    && (forall k | 0 <= k < |l.calls| && t.first > 0 :: l.calls[k] < Deadline(t, k) + gap)
    && last <= Deadline(t, |l.calls|)
    && (t.first > 0 ==> last < Deadline(t, |l.calls|))
  }

  lemma ScanOnTime(t: Timer, l: Life, last: u32, now: u32, gap: nat)
    requires Started(t) && gap <= t.period && OnTime(t, l, last, gap) && InRange(l.t)
    requires last <= now <= last + gap
    ensures OnTime(t, Step(l, Scan(now)), now, gap)
  {
    hide Wrap, Deadline;
    var n := |l.calls|;
    NextDeadline(t, n);
    SameDeadline(t, l.t, n);
    SmallWrap(Deadline(t, n));
    SmallWrap(n + 1);
  }

  lemma SameDeadline(t: Timer, t': Timer, n: nat)
    requires t' == t.(times := t'.times)
    ensures Deadline(t', n) == Deadline(t, n)
  {
  }

  lemma NextDeadline(t: Timer, n: nat)
    ensures Deadline(t, n + 1) == Deadline(t, n) + t.period
  {
  }

  /**
   * With scans at most gap apart, and gap at most the period, every callback comes within gap of its
   * own deadline, however many there have been, and none is left out.
   */
  lemma {:induction false} LatenessDoesNotAccumulate(t: Timer, nows: seq<u32>, gap: nat)
    requires Started(t) && gap <= t.period && Dense(t, nows, gap)
    requires StaysInRange(Life(t, []), Scans(nows))
    ensures OnTime(t, Run(Life(t, []), Scans(nows)), LastScan(t, nows), gap)
    decreases |nows|
  {
    if nows != [] {
      var s := nows[..|nows| - 1];
      DensePrefix(t, nows, gap);
      ScansPrefix(nows);
      RangePrefix(Life(t, []), Scans(nows));
      LatenessDoesNotAccumulate(t, s, gap);
      hide OnTime, Step, Started, Dense;
      ScanOnTime(t, Run(Life(t, []), Scans(s)), LastScan(t, s), nows[|nows| - 1], gap);
    }
  }

  /** Without a first delay, the first callback can be late by all of gap: the scan comes gap after the start. */
  lemma WholeGapLate(t: Timer, gap: nat)
    requires Started(t) && t.first == 0 && 0 < gap <= t.period && t.init + gap < U32
    ensures var nows: seq<u32> := [t.init + gap];
      Dense(t, nows, gap) && Run(Life(t, []), Scans(nows)).calls == [Deadline(t, 0) + gap]
  {
    var now: u32 := t.init + gap;
    var nows: seq<u32> := [now];
    assert nows[..0] == [] && Scans(nows) == [Scan(now)];
    assert [Scan(now)][..0] == [];
    assert Run(Life(t, []), []) == Life(t, []);
    SmallWrap(Deadline(t, 0));
  }

  lemma RangePrefix(l: Life, es: seq<Event>)
    requires es != [] && StaysInRange(l, es)
    ensures StaysInRange(l, es[..|es| - 1]) && InRange(Run(l, es[..|es| - 1]).t)
  {
    var s := es[..|es| - 1];
    assert forall n | 0 <= n <= |s| :: s[..n] == es[..n];
  }

  /** n scans, gap apart, the first one gap after the start. */
  ghost predicate Regular(t: Timer, nows: seq<u32>, gap: nat) {
    forall i | 0 <= i < |nows| :: nows[i] == t.init + (i + 1) * gap
  }

  /** Callback k comes at now: at the first scan's lateness, and k times the difference later than due. */
  ghost predicate Behind(t: Timer, k: nat, gap: nat, now: u32) {
    now == Deadline(t, k) + (gap - t.first) + k * (gap - t.period)
  }

  /** When the period is shorter than the gap, every scan calls, and callback k is late by k * (gap - period) more. */
  lemma {:induction false} SlowScansFallBehind(t: Timer, nows: seq<u32>, gap: nat)
    requires Started(t) && t.period < gap && t.first <= gap && Regular(t, nows, gap)
    requires StaysInRange(Life(t, []), Scans(nows))
    ensures var l := Run(Life(t, []), Scans(nows));
      && l.t == t.(times := l.t.times) && l.t.times == |l.calls| && l.calls == nows
      && forall k | 0 <= k < |nows| :: Behind(t, k, gap, l.calls[k])
    decreases |nows|
  {
    if nows != [] {
      var n := |nows| - 1;
      var s := nows[..n];
      ScansPrefix(nows);
      RangePrefix(Life(t, []), Scans(nows));
      SlowScansFallBehind(t, s, gap);
      SlowStep(t, Run(Life(t, []), Scans(s)), nows[n], gap);
      hide Step, Behind;
      assert s + [nows[n]] == nows;
    }
  }

  lemma SlowStep(t: Timer, l: Life, now: u32, gap: nat)
    requires Started(t) && t.period < gap && t.first <= gap && InRange(l.t)
    requires l.t == t.(times := l.t.times) && l.t.times == |l.calls| && now == t.init + (|l.calls| + 1) * gap
    ensures Step(l, Scan(now)) == Life(t.(times := |l.calls| + 1), l.calls + [now])
    ensures Behind(t, |l.calls|, gap, now)
  {
    var n := |l.calls|;
    SlowScan(t, gap, n);
    SmallWrap(Deadline(t, n));
    SmallWrap(n + 1);
    hide Wrap, Deadline;
    SameDeadline(t, l.t, n);
  }

  lemma SlowScan(t: Timer, gap: nat, n: nat)
    requires t.period < gap && t.first <= gap
    ensures t.init + (n + 1) * gap == Deadline(t, n) + (gap - t.first) + n * (gap - t.period)
    ensures Deadline(t, n) <= t.init + (n + 1) * gap
  {
    assert (n + 1) * gap == n * gap + gap;
    assert n * (gap - t.period) == n * gap - n * t.period;
    assert n * (gap - t.period) >= 0;
  }

  // ---- Stopping and starting ----

  /** An event that starts nothing. */
  predicate StartsNothing(e: Event) {
    e.Scan? || e.Stop? || (e.Reset? && !e.start)
  }

  lemma {:induction false} StaysStopped(l: Life, es: seq<Event>)
    requires !l.t.started && l.calls == [] && forall i | 0 <= i < |es| :: StartsNothing(es[i])
    ensures !Run(l, es).t.started && Run(l, es).calls == []
    decreases |es|
  {
    if es != [] {
      StaysStopped(l, es[..|es| - 1]);
    }
  }

  /** After MsOS_StopTimer no scan calls the timer, whatever it was before, until something starts it. */
  lemma StoppedIsSilent(l: Life, now: u32, es: seq<Event>)
    requires forall i | 0 <= i < |es| :: StartsNothing(es[i])
    ensures Run(l, [Stop(now)] + es).calls == [] && !Run(l, [Stop(now)] + es).t.started
  {
    StaysStopped(Step(l, Stop(now)), es);
    RunFirst(l, Stop(now), es);
  }

  /** The same after MsOS_ResetTimer without the wish to start. */
  lemma ResetIsSilent(l: Life, first: u32, period: u32, now: u32, es: seq<Event>)
    requires forall i | 0 <= i < |es| :: StartsNothing(es[i])
    ensures Run(l, [Reset(first, period, false, now)] + es).calls == []
    ensures !Run(l, [Reset(first, period, false, now)] + es).t.started
  {
    StaysStopped(Step(l, Reset(first, period, false, now)), es);
    RunFirst(l, Reset(first, period, false, now), es);
  }

  lemma {:induction false} RunFirst(l: Life, e: Event, es: seq<Event>)
    ensures Run(l, [e] + es) == Run(Step(l, e), es)
    decreases |es|
  {
    hide Step;
    if es == [] {
      assert [e] + es == [e] && [e][..0] == [];
      assert Run(l, []) == l;
    } else {
      var n := |es| - 1;
      assert ([e] + es)[..|es|] == [e] + es[..n];
      RunFirst(l, e, es[..n]);
    }
  }

  /** e starts the timer at now, with these times; MsOS_StartTimer leaves the times as they are. */
  predicate Starts(l: Life, e: Event, now: u32, first: u32, period: u32) {
    || e == Reset(first, period, true, now)
    || (e == Start(now) && l.t.first == first && l.t.period == period)
  }

  /** From a start on, callback k comes no earlier than first + k * period behind it, whatever the clock reads. */
  lemma NotBeforeFirst(l: Life, e: Event, now: u32, first: u32, period: u32, nows: seq<u32>)
    requires Starts(l, e, now, first, period) && StaysInRange(Step(l, e), Scans(nows))
    ensures var calls := Run(l, [e] + Scans(nows)).calls;
      forall k | 0 <= k < |calls| :: calls[k] >= now + first + period * k
  {
    var s := Step(l, e);
    RunFirst(l, e, Scans(nows));
    NeverEarly(s, Scans(nows));
    TimesStay(s, nows);
  }

  lemma {:induction false} TimesStay(l: Life, nows: seq<u32>)
    ensures var t := Run(l, Scans(nows)).t;
      t.started == l.t.started && t.init == l.t.init && t.first == l.t.first && t.period == l.t.period
    decreases |nows|
  {
    if nows != [] {
      ScansPrefix(nows);
      TimesStay(l, nows[..|nows| - 1]);
    }
  }

  /**
   * From a start on, with scans at most gap apart and gap at most the period, callback k comes between
   * first + k * period and gap later, and none that was due before the last scan is missing.
   */
  lemma StartedOnTime(l: Life, e: Event, now: u32, first: u32, period: u32, nows: seq<u32>, gap: nat)
    requires Starts(l, e, now, first, period) && gap <= period && period > 0
    requires Spaced(now, nows, gap)
    requires StaysInRange(Step(l, e), Scans(nows))
    ensures var calls := Run(l, [e] + Scans(nows)).calls;
      && (forall k | 0 <= k < |calls| :: now + first + period * k <= calls[k] <= now + first + period * k + gap)
      && (nows != [] ==> nows[|nows| - 1] <= now + first + period * |calls|)
  {
    var t := Step(l, e).t;
    SpacedIsDense(t, nows, gap);
    hide Spaced, Dense, StaysInRange;
    RunFirst(l, e, Scans(nows));
    LatenessDoesNotAccumulate(t, nows, gap);
  }

  function Before(now: u32, nows: seq<u32>, i: nat): u32
    requires i < |nows|
  {
    if i == 0 then now else nows[i - 1]
  }

  /** The clock never runs back, and from now on no two scans are more than gap apart. */
  ghost predicate Spaced(now: u32, nows: seq<u32>, gap: nat) {
    forall i | 0 <= i < |nows| :: Before(now, nows, i) <= nows[i] <= Before(now, nows, i) + gap
  }

  lemma SpacedIsDense(t: Timer, nows: seq<u32>, gap: nat)
    requires Spaced(t.init, nows, gap)
    ensures Dense(t, nows, gap)
  {
    forall i | 0 <= i < |nows|
      ensures LastScan(t, nows[..i]) == Before(t.init, nows, i)
    {
    }
  }

  /** A timer without a period is called once, by the first scan that is not before its delay. */
  lemma {:induction false} OneShot(l: Life, e: Event, now: u32, first: u32, nows: seq<u32>, i: nat)
    requires Starts(l, e, now, first, 0) && now + first < U32 && i <= |nows|
    requires (forall j | 0 <= j < i :: nows[j] < now + first) && (i < |nows| ==> nows[i] >= now + first)
    ensures Run(l, [e] + Scans(nows)).calls == if i < |nows| then [nows[i]] else []
    decreases |nows|
  {
    RunFirst(l, e, Scans(nows));
    OneShotScans(Step(l, e).t, nows, i);
  }

  lemma {:induction false} OneShotScans(t: Timer, nows: seq<u32>, i: nat)
    requires t.started && t.times == 0 && t.period == 0 && Deadline(t, 0) < U32 && i <= |nows|
    requires forall j | 0 <= j < i :: nows[j] < Deadline(t, 0)
    requires i < |nows| ==> nows[i] >= Deadline(t, 0)
    ensures Run(Life(t, []), Scans(nows))
         == if i < |nows| then Life(t.(times := 1), [nows[i]]) else Life(t, [])
    decreases |nows|
  {
    if nows != [] {
      var n := |nows| - 1;
      ScansPrefix(nows);
      OneShotScans(t, nows[..n], if i < n then i else n);
      SmallWrap(Deadline(t, 0));
    }
  }

  // ---- The list of timers ----

  /** MSOS_timer. */
  class TimerNode {
    const hasCb: bool
    var bStartTimer: bool
    var FirstTimeMs: u32
    var PeriodTimeMs: u32
    var initTimeMs: u32
    var times: u32
    var pNext: TimerNode?

    ghost function View(): Timer
      reads this
    {
      Timer(bStartTimer, FirstTimeMs, PeriodTimeMs, initTimeMs, times)
    }

    constructor (hasCb: bool, first: u32, period: u32, start: bool, now: u32)
      ensures pNext == null && this.hasCb == hasCb
      ensures View() == Timer(start, first, period, if start then now else 0, 0)
    {
      this.hasCb := hasCb;
      bStartTimer, FirstTimeMs, PeriodTimeMs := start, first, period;
      initTimeMs, times, pNext := if start then now else 0, 0, null;
    }

    /** The body of the inner loop of TimerProcess. */
    method Process(now: u32) returns (called: bool)
      modifies this`times
      ensures (View(), called) == Visit(old(View()), now)
    {
      called := false;
      if bStartTimer {
        if times == 0 {
          if Reached(initTimeMs + FirstTimeMs, now) {
            called := true;
            times := 1;
          }
        } else if PeriodTimeMs != 0 {
          if Reached(initTimeMs + FirstTimeMs + PeriodTimeMs * times, now) {
            called := true;
            times := Wrap(times + 1);
          }
        }
      }
    }
  }

  ghost function At(nodes: seq<TimerNode>, i: nat): TimerNode? {
    if i < |nodes| then nodes[i] else null
  }

  ghost function Views(nodes: seq<TimerNode>): (v: seq<Timer>)
    reads nodes
    ensures |v| == |nodes| && forall i | 0 <= i < |v| :: v[i] == nodes[i].View()
  {
    seq(|nodes|, i requires 0 <= i < |nodes| reads nodes => nodes[i].View())
  }

  /** The callbacks of one pass over the list, in list order, with the clock readings on the way. */
  ghost function Pass(nodes: seq<TimerNode>, before: seq<Timer>, clock: seq<u32>): seq<(TimerNode, u32)>
    requires |nodes| == |before| == |clock|
  {
    if nodes == [] then []
    else
      var n := |nodes| - 1;
      Pass(nodes[..n], before[..n], clock[..n])
      + (if Visit(before[n], clock[n]).1 && nodes[n].hasCb then [(nodes[n], clock[n])] else [])
  }

  class TimerList {
    var s_pTimerHead: TimerNode?
    var calls: seq<(TimerNode, u32)>      // the callbacks made so far
    ghost var nodes: seq<TimerNode>
    ghost var Repr: set<TimerNode>

    ghost predicate Valid()
      reads this, Repr
    {
      && (forall i | 0 <= i < |nodes| :: nodes[i] in Repr)
      && (forall i, j | 0 <= i < j < |nodes| :: nodes[i] != nodes[j])
      && s_pTimerHead == At(nodes, 0)
      && (forall i {:trigger nodes[i].pNext} | 0 <= i < |nodes| :: nodes[i].pNext == At(nodes, i + 1))
    }

    /** MsOS_TimerInit. */
    constructor ()
      ensures Valid() && nodes == [] && calls == [] && Repr == {}
    {
      s_pTimerHead, calls, nodes, Repr := null, [], [], {};
    }

    /** One pass of TimerProcess over the list, with the clock read once for every timer. */
    method ScanAll(clock: seq<u32>)
      requires Valid() && |clock| == |nodes|
      modifies this`calls, Repr`times
      ensures Valid() && nodes == old(nodes)
      ensures forall i | 0 <= i < |nodes| :: nodes[i].View() == Visit(old(nodes[i].View()), clock[i]).0
      ensures calls == old(calls) + Pass(nodes, old(Views(nodes)), clock)
    {
      hide Visit, Pass;
      PassNone(nodes, Views(nodes), clock);
      var node := s_pTimerHead;
      ghost var was := Views(nodes);
      var i := 0;
      while node != null
        invariant 0 <= i <= |nodes| && node == At(nodes, i)
        invariant forall j | 0 <= j < i :: nodes[j].View() == Visit(was[j], clock[j]).0
        invariant forall j | i <= j < |nodes| :: nodes[j].View() == was[j]
        invariant calls == old(calls) + Pass(nodes[..i], was[..i], clock[..i])
        decreases |nodes| - i
      {
        PassStep(nodes, was, clock, i);
        var called := node.Process(clock[i]);
        if called && node.hasCb {
          calls := calls + [(node, clock[i])];
        }
        node := node.pNext;
        i := i + 1;
      }
      assert nodes[..i] == nodes && was[..i] == was && clock[..i] == clock;
    }

    /** MsOS_CreateTimer: the new timer goes behind the others. */
    method CreateTimer(hasCb: bool, first: u32, period: u32, start: bool, now: u32) returns (timer: TimerNode)
      requires Valid()
      modifies this`s_pTimerHead, this`nodes, this`Repr, Repr`pNext
      ensures Valid() && fresh(timer) && nodes == old(nodes) + [timer] && Repr == old(Repr) + {timer}
      ensures timer.View() == Timer(start, first, period, if start then now else 0, 0)
      ensures Views(old(nodes)) == old(Views(nodes))
    {
      timer := new TimerNode(hasCb, first, period, start, now);
      var prev, cur: TimerNode? := s_pTimerHead, s_pTimerHead;
      ghost var i := 0;
      while cur != null
        invariant 0 <= i <= |nodes| && cur == At(nodes, i)
        invariant prev == if i == 0 then cur else nodes[i - 1]
        decreases |nodes| - i
        modifies {}
      {
        prev := cur;
        cur := cur.pNext;
        i := i + 1;
      }
      if prev != null {
        prev.pNext := timer;
      } else {
        s_pTimerHead := timer;
      }
      nodes, Repr := nodes + [timer], Repr + {timer};
    }

    /** The search of the control functions; a name no timer has any more leads nowhere. */
    method Find(timer: TimerNode) returns (p: TimerNode?)
      requires Valid()
      ensures p == if timer in nodes then timer else null
    {
      p := s_pTimerHead;
      ghost var i := 0;
      while p != null && p != timer
        invariant 0 <= i <= |nodes| && p == At(nodes, i) && timer !in nodes[..i]
        decreases |nodes| - i
      {
        p := p.pNext;
        i := i + 1;
      }
      assert p == null ==> nodes[..i] == nodes;
    }

    /** MsOS_StartTimer. */
    method StartTimer(timer: TimerNode, now: u32)
      requires Valid()
      modifies timer`bStartTimer, timer`initTimeMs, timer`times
      ensures Valid()
      ensures timer.View() == if timer in nodes then old(timer.View()).(started := true, init := now, times := 0)
                        else old(timer.View())
    {
      var p := Find(timer);
      if p != null {
        p.bStartTimer, p.initTimeMs, p.times := true, now, 0;
      }
    }

    /** MsOS_StopTimer. */
    method StopTimer(timer: TimerNode, now: u32)
      requires Valid()
      modifies timer`bStartTimer, timer`initTimeMs, timer`times
      ensures Valid()
      ensures timer.View() == if timer in nodes then old(timer.View()).(started := false, init := now, times := 0)
                        else old(timer.View())
    {
      var p := Find(timer);
      if p != null {
        p.bStartTimer, p.initTimeMs, p.times := false, now, 0;
      }
    }

    /** MsOS_ResetTimer. */
    method ResetTimer(timer: TimerNode, first: u32, period: u32, start: bool, now: u32)
      requires Valid()
      modifies timer`bStartTimer, timer`FirstTimeMs, timer`PeriodTimeMs, timer`initTimeMs, timer`times
      ensures Valid()
      ensures timer.View() == if timer in nodes then Timer(start, first, period, now, 0) else old(timer.View())
    {
      var p := Find(timer);
      if p != null {
        p.bStartTimer, p.FirstTimeMs, p.PeriodTimeMs := start, first, period;
        p.initTimeMs, p.times := now, 0;
      }
    }

    /** MsOS_DeleteTimer: the timer leaves the list, and the others keep their order and their state. */
    method DeleteTimer(timer: TimerNode)
      requires Valid()
      modifies this`s_pTimerHead, this`nodes, Repr`pNext
      ensures Valid()
      ensures timer !in old(nodes) ==> nodes == old(nodes)
      ensures forall k | 0 <= k < |old(nodes)| && old(nodes)[k] == timer ::
        nodes == old(nodes)[..k] + old(nodes)[k + 1..]
    {
      var prev, cur := s_pTimerHead, s_pTimerHead;
      ghost var i := 0;
      while cur != null
        invariant 0 <= i <= |nodes| && cur == At(nodes, i)
        invariant prev == if i == 0 then cur else nodes[i - 1]
        invariant timer !in nodes[..i]
        decreases |nodes| - i
        modifies {}
      {
        if cur == timer {
          break;
        }
        prev := cur;
        cur := cur.pNext;
        i := i + 1;
      }
      if cur != null {
        prev.pNext := cur.pNext;
        if cur == s_pTimerHead {
          s_pTimerHead := cur.pNext;
        }
        nodes := nodes[..i] + nodes[i + 1..];
      } else {
        assert nodes[..i] == nodes;
      }
    }
  }

  lemma PassNone(nodes: seq<TimerNode>, before: seq<Timer>, clock: seq<u32>)
    requires |nodes| == |before| == |clock|
    ensures Pass(nodes[..0], before[..0], clock[..0]) == []
  {
  }

  lemma PassStep(nodes: seq<TimerNode>, before: seq<Timer>, clock: seq<u32>, i: nat)
    requires |nodes| == |before| == |clock| && i < |nodes|
    ensures Pass(nodes[..i + 1], before[..i + 1], clock[..i + 1])
         == Pass(nodes[..i], before[..i], clock[..i])
            + (if Visit(before[i], clock[i]).1 && nodes[i].hasCb then [(nodes[i], clock[i])] else [])
  {
    assert nodes[..i + 1][..i] == nodes[..i];
    assert before[..i + 1][..i] == before[..i];
    assert clock[..i + 1][..i] == clock[..i];
  }
}
