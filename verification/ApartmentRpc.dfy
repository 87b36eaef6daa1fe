/** MsOS_SendMessage, MsOS_PostMessage and the apartment thread that answers them. */
module ApartmentRpc {
  import opened Bytes

  /** MSOS_MESSAGE without the pointers: those are the caller's own slot and semaphore. */
  datatype Request = Request(id: u32, parameter1: u32, parameter2: u32, blocking: bool)

  /** (MS_U32)-1, what the result slot holds before the reply. */
  const NO_RESULT: u32 := 0xFFFF_FFFF

  datatype CallerPc =
    | CSend                     // before MsOS_SendToQueue returns
    | CWait                     // blocking call, at ObtainSemaphore(ReturnSemaphore)
    | CWoken                    // past it, result slot not read yet
    | CReturned(result: u32)

  datatype ServerPc =
    | VReceive
    | VHandle(call: nat)
    | VReply(call: nat, result: u32)     // handler returned, result slot not written yet
    | VRelease(call: nat)

  /** One call's state: the slot and the semaphore live on the caller's stack. */
  datatype Call = Call(request: Request, pc: CallerPc, slot: u32, sem: nat)

  datatype Handled = Handled(call: nat, result: u32)

  datatype State = State(calls: seq<Call>, queue: seq<nat>, server: ServerPc, sent: seq<nat>, handled: seq<Handled>)

  /** result is whatever the message handler answers this time. */
  datatype Step =
    | Begin(request: Request)
    | Enqueue(c: nat)
    | Obtain(c: nat)
    | Return(c: nat)
    | Receive
    | Handle(result: u32)
    | Write
    | Release

  predicate Enabled(s: State, step: Step) {
    match step
    case Begin(_) => true
    case Enqueue(c) => c < |s.calls| && s.calls[c].pc.CSend?
    case Obtain(c) => c < |s.calls| && s.calls[c].pc.CWait? && s.calls[c].sem > 0
    case Return(c) => c < |s.calls| && s.calls[c].pc.CWoken?
    case Receive => s.server.VReceive? && s.queue != []
    case Handle(_) => s.server.VHandle?
    case Write => s.server.VReply?
    case Release => s.server.VRelease?
  }

  function SetPc(s: State, c: nat, pc: CallerPc): State
    requires c < |s.calls|
  {
    s.(calls := s.calls[c := s.calls[c].(pc := pc)])
  }

  function Apply(s: State, step: Step): State
    requires Enabled(s, step)
  {
    match step
    case Begin(r) => s.(calls := s.calls + [Call(r, CSend, NO_RESULT, 0)])
    case Enqueue(c) =>
      SetPc(s, c, if s.calls[c].request.blocking then CWait else CReturned(1))
        .(queue := s.queue + [c], sent := s.sent + [c])
    case Obtain(c) => s.(calls := s.calls[c := s.calls[c].(pc := CWoken, sem := s.calls[c].sem - 1)])
    case Return(c) => SetPc(s, c, CReturned(s.calls[c].slot))
    case Receive => s.(queue := s.queue[1..], server := VHandle(s.queue[0]))
    case Handle(result) =>
      s.(server := VReply(s.server.call, result), handled := s.handled + [Handled(s.server.call, result)])
    case Write =>
      var c := s.server.call;
      if c < |s.calls| && s.calls[c].request.blocking
      then s.(calls := s.calls[c := s.calls[c].(slot := s.server.result)], server := VRelease(c))
      else s.(server := VRelease(c))
    case Release =>
      var c := s.server.call;
      if c < |s.calls| && s.calls[c].request.blocking
      then s.(calls := s.calls[c := s.calls[c].(sem := s.calls[c].sem + 1)], server := VReceive)
      else s.(server := VReceive)
  }

  const INIT: State := State([], [], VReceive, [], [])

  ghost predicate IsRun(s: State, steps: seq<Step>, s': State)
    decreases |steps|
  {
    if steps == [] then s == s'
    else Enabled(s, steps[0]) && IsRun(Apply(s, steps[0]), steps[1..], s')
  }

  // ---- Invariant ----

  function HandledCalls(h: seq<Handled>): (r: seq<nat>)
    ensures |r| == |h|
  {
    seq(|h|, i requires 0 <= i < |h| => h[i].call)
  }

  /** The call the server has taken off the queue but not handled yet. */
  function InHand(s: State): seq<nat> {
    if s.server.VHandle? then [s.server.call] else []
  }

  /** The server still owes call c something after handling it. */
  predicate Owed(s: State, c: nat) {
    (s.server.VReply? || s.server.VRelease?) && s.server.call == c
  }

  ghost predicate Answered(s: State, c: nat, result: u32) {
    exists k | 0 <= k < |s.handled| :: s.handled[k] == Handled(c, result)
  }

  /** Messages are handled in the order they entered the queue, each of them once. */
  ghost predicate InOrder(s: State) {
    && s.sent == HandledCalls(s.handled) + InHand(s) + s.queue
    && (forall i | 0 <= i < |s.sent| :: s.sent[i] < |s.calls| && !s.calls[s.sent[i]].pc.CSend?)
    && (forall i, j | 0 <= i < j < |s.sent| :: s.sent[i] != s.sent[j])
    && (forall c | 0 <= c < |s.calls| && !s.calls[c].pc.CSend? :: c in s.sent)
    && (s.server.VReply? || s.server.VRelease? ==> s.handled != [] && s.handled[|s.handled| - 1].call == s.server.call)
    && (s.server.VReply? ==> s.handled[|s.handled| - 1].result == s.server.result)
  }

  ghost predicate WasHandled(s: State, c: nat) {
    c in HandledCalls(s.handled)
  }

  /** The caller's side of a blocking call. */
  ghost predicate CallOk(s: State, c: nat)
    requires c < |s.calls|
  {
    var call := s.calls[c];
    if !call.request.blocking then
      // nobody waits for it, and nothing is written to it
      call.sem == 0 && (call.pc.CSend? || call.pc == CReturned(1))
    else if !WasHandled(s, c) then
      call.sem == 0 && (call.pc.CSend? || call.pc.CWait?)
    else if Owed(s, c) then
      // its slot and semaphore are still alive, and the slot is written before the release
      call.sem == 0 && call.pc.CWait? && (s.server.VRelease? ==> Answered(s, c, call.slot))
    else
      match call.pc
      case CSend => false
      case CWait => call.sem == 1 && Answered(s, c, call.slot)
      case CWoken => call.sem == 0 && Answered(s, c, call.slot)
      case CReturned(r) => call.sem == 0 && Answered(s, c, r)
  }

  ghost predicate Inv(s: State) {
    InOrder(s) && forall c | 0 <= c < |s.calls| :: CallOk(s, c)
  }

  lemma AnsweredMore(s: State, s': State, c: nat, r: u32)
    requires s.handled <= s'.handled && Answered(s, c, r)
    ensures Answered(s', c, r)
  {
    var k :| 0 <= k < |s.handled| && s.handled[k] == Handled(c, r);
    assert s'.handled[k] == Handled(c, r);
  }

  lemma InOrderCaller(s: State, step: Step)
    requires InOrder(s) && Enabled(s, step) && (step.Return? || step.Obtain? || step.Begin?)
    ensures InOrder(Apply(s, step))
  {
    var s' := Apply(s, step);
    assert InHand(s') == InHand(s);
  }

  lemma InOrderServer(s: State, step: Step)
    requires InOrder(s) && Enabled(s, step) && (step.Receive? || step.Handle? || step.Write? || step.Release?)
    ensures InOrder(Apply(s, step))
  {
    if step.Handle? {
      InOrderHandle(s, step);
    } else if step.Receive? {
      InOrderReceive(s);
    } else {
      assert InHand(Apply(s, step)) == InHand(s);
    }
  }

  lemma InOrderHandle(s: State, step: Step)
    requires InOrder(s) && Enabled(s, step) && step.Handle?
    ensures InOrder(Apply(s, step))
  {
    assert HandledCalls(Apply(s, step).handled) == HandledCalls(s.handled) + InHand(s);
  }

  lemma InOrderReceive(s: State)
    requires InOrder(s) && Enabled(s, Receive)
    ensures InOrder(Apply(s, Receive))
  {
    var s' := Apply(s, Receive);
    assert s.queue == InHand(s') + s'.queue;
    assert HandledCalls(s.handled) + [] + s.queue == HandledCalls(s.handled) + InHand(s') + s'.queue;
  }

  lemma InOrderEnqueue(s: State, c: nat)
    requires InOrder(s) && Enabled(s, Enqueue(c))
    ensures InOrder(Apply(s, Enqueue(c)))
  {
    var s' := Apply(s, Enqueue(c));
    assert s'.sent == s.sent + [c] && s'.handled == s.handled && InHand(s') == InHand(s);
    assert HandledCalls(s.handled) + InHand(s) + (s.queue + [c])
      == (HandledCalls(s.handled) + InHand(s) + s.queue) + [c];
    forall d | 0 <= d < |s'.calls| && !s'.calls[d].pc.CSend?
      ensures d in s'.sent
    {
      assert d == c || d in s.sent;
    }
  }

  /** The call the server works on, and the ones still queued, have not been handled before. */
  lemma NotHandledYet(s: State)
    requires InOrder(s)
    ensures s.server.VHandle? ==>
      s.server.call < |s.calls| && !s.calls[s.server.call].pc.CSend? && !WasHandled(s, s.server.call)
    ensures s.server.VReply? || s.server.VRelease? ==>
      s.server.call < |s.calls| && !s.calls[s.server.call].pc.CSend? && WasHandled(s, s.server.call)
    ensures forall c | 0 <= c < |s.calls| && s.calls[c].pc.CSend? :: !WasHandled(s, c)
  {
    var h := HandledCalls(s.handled);
    if s.server.VHandle? {
      assert s.sent[|h|] == s.server.call;
      assert forall i | 0 <= i < |h| :: s.sent[i] == h[i];
    }
    if s.server.VReply? || s.server.VRelease? {
      assert s.sent[|h| - 1] == h[|h| - 1] == s.server.call;
    }
    assert forall i | 0 <= i < |h| :: s.sent[i] == h[i];
  }

  lemma CallsAfterHandle(s: State, result: u32, c: nat)
    requires Inv(s) && Enabled(s, Handle(result)) && c < |s.calls|
    ensures CallOk(Apply(s, Handle(result)), c)
  {
    hide InOrder, InHand;
    var s' := Apply(s, Handle(result));
    NotHandledYet(s);
    assert HandledCalls(s'.handled) == HandledCalls(s.handled) + [s.server.call];
    assert WasHandled(s', c) == (WasHandled(s, c) || c == s.server.call);
    assert CallOk(s, c);
    forall r | Answered(s, c, r) ensures Answered(s', c, r) {
      AnsweredMore(s, s', c, r);
    }
  }

  lemma LastAnswer(s: State)
    requires InOrder(s) && s.server.VReply?
    ensures Answered(s, s.server.call, s.server.result)
  {
    assert s.handled[|s.handled| - 1] == Handled(s.server.call, s.server.result);
  }

  lemma SameAnswers(s: State, s': State)
    requires s'.handled == s.handled
    ensures forall c, r :: Answered(s', c, r) == Answered(s, c, r)
    ensures forall c :: WasHandled(s', c) == WasHandled(s, c)
  {
  }

  lemma CallsAfterServer(s: State, step: Step, c: nat)
    requires Inv(s) && Enabled(s, step) && c < |s.calls|
    requires step.Receive? || step.Write? || step.Release?
    ensures CallOk(Apply(s, step), c)
  {
    hide InOrder, Answered, WasHandled;
    var s' := Apply(s, step);
    SameAnswers(s, s');
    NotHandledYet(s);
    assert CallOk(s, c);
    if step.Write? {
      LastAnswer(s);
    }
  }

  lemma CallsAfterCaller(s: State, step: Step, c: nat)
    requires Inv(s) && Enabled(s, step) && c < |Apply(s, step).calls|
    requires step.Begin? || step.Enqueue? || step.Obtain? || step.Return?
    ensures CallOk(Apply(s, step), c)
  {
    hide InOrder, Answered;
    var s' := Apply(s, step);
    SameAnswers(s, s');
    NotHandledYet(s);
    if c < |s.calls| {
      assert CallOk(s, c);
    } else {
      NeverHandled(s, c);
    }
  }

  lemma NeverHandled(s: State, c: nat)
    requires InOrder(s) && c >= |s.calls|
    ensures !WasHandled(s, c)
  {
    var h := HandledCalls(s.handled);
    assert forall i | 0 <= i < |h| :: s.sent[i] == h[i];
  }

  lemma StepInv(s: State, step: Step)
    requires Inv(s) && Enabled(s, step)
    ensures Inv(Apply(s, step))
  {
    hide InOrder, CallOk, Enabled, Apply;
    if step.Enqueue? {
      InOrderEnqueue(s, step.c);
    } else if step.Return? || step.Obtain? || step.Begin? {
      InOrderCaller(s, step);
    } else {
      InOrderServer(s, step);
    }
    forall c | 0 <= c < |Apply(s, step).calls|
      ensures CallOk(Apply(s, step), c)
    {
      if step.Handle? {
        HandleKeepsCalls(s, step.result);
        CallsAfterHandle(s, step.result, c);
      } else if step.Receive? || step.Write? || step.Release? {
        ServerKeepsCalls(s, step);
        CallsAfterServer(s, step, c);
      } else {
        CallsAfterCaller(s, step, c);
      }
    }
  }

  lemma HandleKeepsCalls(s: State, result: u32)
    requires Enabled(s, Handle(result))
    ensures |Apply(s, Handle(result)).calls| == |s.calls|
  {
  }

  lemma ServerKeepsCalls(s: State, step: Step)
    requires Enabled(s, step) && (step.Receive? || step.Write? || step.Release?)
    ensures |Apply(s, step).calls| == |s.calls|
  {
  }

  lemma InitInv()
    ensures Inv(INIT)
  {
  }

  lemma {:induction false} RunInv(s: State, steps: seq<Step>, s': State)
    requires Inv(s) && IsRun(s, steps, s')
    ensures Inv(s')
    decreases |steps|
  {
    hide Inv, Enabled, Apply;
    if steps != [] {
      StepInv(s, steps[0]);
      RunInv(Apply(s, steps[0]), steps[1..], s');
    }
  }

  /** Each MsOS_SendMessage returns what the handler answered to its own message, and to no other. */
  lemma SendMessageResult(steps: seq<Step>, s: State, c: nat)
    requires IsRun(INIT, steps, s)
    requires c < |s.calls| && s.calls[c].request.blocking && s.calls[c].pc.CReturned?
    ensures exists k :: (0 <= k < |s.handled| && s.handled[k] == Handled(c, s.calls[c].pc.result)
                         && forall j | 0 <= j < |s.handled| && s.handled[j].call == c :: j == k)
  {
    InitInv();
    RunInv(INIT, steps, s);
    assert CallOk(s, c);
    NotHandledYet(s);
    assert WasHandled(s, c);
    var k :| 0 <= k < |s.handled| && s.handled[k] == Handled(c, s.calls[c].pc.result);
    forall j | 0 <= j < |s.handled| && s.handled[j].call == c
      ensures j == k
    {
      HandledOnce(s, j, k);
    }
  }

  lemma HandledOnce(s: State, j: nat, k: nat)
    requires InOrder(s) && j < |s.handled| && k < |s.handled| && s.handled[j].call == s.handled[k].call
    ensures j == k
  {
    var h := HandledCalls(s.handled);
    assert s.sent[j] == h[j] && s.sent[k] == h[k];
  }

  /** Messages are handled in the order they were queued, each one at most once. */
  lemma HandledInOrder(steps: seq<Step>, s: State)
    requires IsRun(INIT, steps, s)
    ensures HandledCalls(s.handled) <= s.sent
    ensures forall j, k | 0 <= j < |s.handled| && 0 <= k < |s.handled| && s.handled[j].call == s.handled[k].call
      :: j == k
  {
    InitInv();
    RunInv(INIT, steps, s);
    assert HandledCalls(s.handled) <= s.sent;
    forall j, k | 0 <= j < |s.handled| && 0 <= k < |s.handled| && s.handled[j].call == s.handled[k].call
      ensures j == k
    {
      HandledOnce(s, j, k);
    }
  }

  /**
   * Whenever the server is about to write a reply or to release a semaphore, the caller is still waiting
   * for it, so slot and semaphore exist; and at the release the slot already holds the answer.
   */
  lemma ReplyBeforeRelease(steps: seq<Step>, s: State)
    requires IsRun(INIT, steps, s)
    requires (s.server.VReply? || s.server.VRelease?) && s.server.call < |s.calls|
    requires s.calls[s.server.call].request.blocking
    ensures s.calls[s.server.call].pc.CWait? && s.calls[s.server.call].sem == 0
    ensures s.server.VRelease? ==> Answered(s, s.server.call, s.calls[s.server.call].slot)
  {
    InitInv();
    RunInv(INIT, steps, s);
    NotHandledYet(s);
    assert CallOk(s, s.server.call);
  }

  /** No caller hangs: once the server is idle and the queue empty, every waiting caller can go on. */
  lemma NoCallerHangs(steps: seq<Step>, s: State, c: nat)
    requires IsRun(INIT, steps, s)
    requires s.server.VReceive? && s.queue == []
    requires c < |s.calls| && s.calls[c].pc.CWait?
    ensures Enabled(s, Obtain(c))
  {
    InitInv();
    RunInv(INIT, steps, s);
    assert CallOk(s, c);
    assert s.sent == HandledCalls(s.handled);
  }
}
