/**
 * The apartment calls over the node queue they really use: callers and server go through the steps of
 * QueueProtocol, and what they do is a run of ApartmentRpc.
 */
module ApartmentQueue {
  import opened Bytes
  import Q = QueueProtocol
  import R = ApartmentRpc

  /** Call c's MSOS_MESSAGE as bytes; the pointers in it make it the message of that call. */
  type Coding = nat -> Q.Msg

  ghost predicate Sized(code: Coding, size: nat) {
    forall c :: |code(c)| == size
  }

  /** serving is the call of MsOS_RecvFromQueue whose message the server waits for or works on. */
  datatype State = State(r: R.State, q: Q.State, serving: Option<nat>)

  /** Calls never time out: both sides wait forever. */
  datatype Step =
    | Begin(request: R.Request)
    | Send(c: nat)            // the next step of call c inside MsOS_SendToQueue
    | Obtain(c: nat)
    | Return(c: nat)
    | CallRecv                // the server turns to MsOS_RecvFromQueue
    | Recv                    // its next step in there
    | Handle(result: u32)
    | Write
    | Release

  predicate Enabled(s: State, step: Step) {
    match step
    case Begin(_) => true
    case Send(c) => Q.Enabled(s.q, Q.Send(c))
    case Obtain(c) => R.Enabled(s.r, R.Obtain(c)) && c < |s.q.senders| && s.q.senders[c].SReturned?
    case Return(c) => R.Enabled(s.r, R.Return(c))
    case CallRecv => s.r.server.VReceive? && s.serving.None?
    case Recv => s.serving.Some? && Q.Enabled(s.q, Q.Recv(s.serving.value))
    case Handle(result) =>
      && R.Enabled(s.r, R.Handle(result)) && s.serving.Some?
      && s.serving.value < |s.q.receivers| && s.q.receivers[s.serving.value].RReturned?
    case Write => R.Enabled(s.r, R.Write)
    case Release => R.Enabled(s.r, R.Release)
  }

  /** What the step is in the abstract protocol, if it shows there. */
  function Shown(s: State, step: Step): seq<R.Step>
    requires Enabled(s, step)
  {
    match step
    case Begin(request) => [R.Begin(request)]
    case Send(c) => if s.q.senders[c].SSend? then [R.Enqueue(c)] else []
    case Obtain(c) => [R.Obtain(c)]
    case Return(c) => [R.Return(c)]
    case CallRecv => []
    case Recv => if s.q.receivers[s.serving.value].RTake? && s.q.used != [] then [R.Receive] else []
    case Handle(result) => [R.Handle(result)]
    case Write => [R.Write]
    case Release => [R.Release]
  }

  function ShownState(r: R.State, steps: seq<R.Step>): R.State {
    if steps != [] && R.Enabled(r, steps[0]) then R.Apply(r, steps[0]) else r
  }

  function QueueState(s: State, step: Step, code: Coding, size: nat): Q.State
    requires Enabled(s, step)
  {
    match step
    case Begin(_) => Q.Apply(s.q, Q.CallSend(code(|s.r.calls|)))
    case Send(c) => Q.Apply(s.q, Q.Send(c))
    case CallRecv => Q.Apply(s.q, Q.CallRecv(size))
    case Recv => Q.Apply(s.q, Q.Recv(s.serving.value))
    case _ => s.q
  }

  function Apply(s: State, step: Step, code: Coding, size: nat): State
    requires Enabled(s, step)
  {
    State(ShownState(s.r, Shown(s, step)), QueueState(s, step, code, size),
          if step.CallRecv? then Some(|s.q.receivers|) else if step.Handle? then None else s.serving)
  }

  /** MsOS_CreateApartment with a queue of n messages. */
  function Init(n: nat, size: nat): State {
    State(R.INIT, Q.Init(n, size), None)
  }

  ghost predicate IsRun(s: State, steps: seq<Step>, s': State, code: Coding, size: nat)
    decreases |steps|
  {
    if steps == [] then s == s'
    else Enabled(s, steps[0]) && IsRun(Apply(s, steps[0], code, size), steps[1..], s', code, size)
  }

  // ---- What ties the two together ----

  /** The call is still inside MsOS_SendToQueue, in front of the enqueuing. */
  predicate Sending(pc: Q.SenderPc) {
    pc.SObtain? || pc.SClaim? || pc.SFill? || pc.SSend?
  }

  ghost predicate Callers(s: State, code: Coding) {
    && |s.q.senders| == |s.r.calls|
    && (forall c | 0 <= c < |s.q.senders| ::
          s.q.senders[c].m == code(c) && !s.q.senders[c].STimedOut?
          && (s.r.calls[c].pc.CSend? <==> Sending(s.q.senders[c])))
  }

  function Codes(calls: seq<nat>, code: Coding): (m: seq<Q.Msg>)
    ensures |m| == |calls| && forall i | 0 <= i < |m| :: m[i] == code(calls[i])
  {
    seq(|calls|, i requires 0 <= i < |calls| => code(calls[i]))
  }

  /** The server holds the message of the call it works on, as far as it has got. */
  ghost predicate Holds(q: Q.State, pc: Q.ReceiverPc, v: R.ServerPc, code: Coding, size: nat) {
    match pc
    case RObtain(n) => v.VReceive? && n == size
    case RTake(n) => v.VReceive? && n == size
    case RCopy(n, _, i) => n == size && v.VHandle? && i < |q.dequeued| && q.dequeued[i] == code(v.call)
    case RFree(_, _, got, _) => v.VHandle? && got == code(v.call)
    case RRelease(_, got, _) => v.VHandle? && got == code(v.call)
    case RReturned(_, got, _) => v.VHandle? && got == code(v.call)
    case _ => false
  }

  ghost predicate Server(s: State, code: Coding, size: nat) {
    match s.serving
    case None => !s.r.server.VHandle?
    case Some(t) => t < |s.q.receivers| && Holds(s.q, s.q.receivers[t], s.r.server, code, size)
  }

  /** The server is in one call of MsOS_RecvFromQueue at a time. */
  ghost predicate OneAtATime(s: State) {
    forall t | 0 <= t < |s.q.receivers| && s.serving != Some(t) :: s.q.receivers[t].RReturned?
  }

  ghost predicate Inv(s: State, code: Coding, size: nat) {
    && Q.Inv(s.q) && s.q.maxSize == size && Sized(code, size)
    && Callers(s, code) && Q.Contents(s.q) == Codes(s.r.queue, code) && Server(s, code, size) && OneAtATime(s)
  }

  lemma QueueStep(q: Q.State, step: Q.Step)
    requires Q.Inv(q) && Q.Enabled(q, step)
    ensures Q.Inv(Q.Apply(q, step)) && Q.Apply(q, step).maxSize == q.maxSize
  {
    var q' := Q.Apply(q, step);
    Q.StepMessages(q, step);
    hide Q.Inv, Q.Enabled, Q.Apply;
    assert [step][1..] == [];
    assert Q.IsRun(q', [], q');
    assert Q.IsRun(q, [step], q');
    Q.RunInv(q, [step], q');
  }

  // ---- Every step keeps it, and is a step of the abstract protocol or none ----

  /** What one step has to show. */
  ghost predicate Follows(s: State, step: Step, code: Coding, size: nat)
    requires Enabled(s, step)
  {
    && (Shown(s, step) != [] ==> R.Enabled(s.r, Shown(s, step)[0]))
    && Inv(Apply(s, step, code, size), code, size)
  }

  lemma BeginFollows(s: State, request: R.Request, code: Coding, size: nat)
    requires Inv(s, code, size)
    ensures Follows(s, Begin(request), code, size)
  {
    QueueStep(s.q, Q.CallSend(code(|s.r.calls|)));
    var s' := Apply(s, Begin(request), code, size);
    assert Q.Contents(s'.q) == Q.Contents(s.q);
    BeginCallers(s, request, code, size);
    hide Q.Inv, Q.Contents, Callers;
    ServerSame(s, s', code, size);
  }

  lemma BeginCallers(s: State, request: R.Request, code: Coding, size: nat)
    requires Callers(s, code)
    ensures Callers(Apply(s, Begin(request), code, size), code)
  {
  }

  /** What the senders do does not touch the server. */
  lemma ServerSame(s: State, s': State, code: Coding, size: nat)
    requires Server(s, code, size) && s'.serving == s.serving && s'.q.receivers == s.q.receivers
    requires s'.q.dequeued == s.q.dequeued && s'.r.server == s.r.server
    ensures Server(s', code, size)
  {
  }

  lemma SendCallers(s: State, c: nat, code: Coding, size: nat)
    requires Callers(s, code) && Enabled(s, Send(c)) && s.q.maxSize == size == |code(c)|
    requires Q.SortedCall(s.q.senders[c], size) && (s.q.senders[c].SClaim? ==> s.q.free != [])
    ensures s.q.senders[c].SSend? ==> R.Enabled(s.r, R.Enqueue(c))
    ensures Callers(Apply(s, Send(c), code, size), code)
  {
  }

  lemma SendQueue(s: State, c: nat, code: Coding, size: nat)
    requires Enabled(s, Send(c)) && Q.Inv(s.q) && Q.Contents(s.q) == Codes(s.r.queue, code)
    requires s.q.senders[c].m == code(c)
    requires s.q.senders[c].SSend? ==> R.Enabled(s.r, R.Enqueue(c))
    ensures var s' := Apply(s, Send(c), code, size);
      Q.Contents(s'.q) == Codes(s'.r.queue, code)
  {
    Q.ContentsSend(s.q, c);
    AfterSend(s, c, code, size);
    hide Q.Inv, Q.Contents, Q.Apply, R.Apply, Q.Enabled, R.Enabled, Apply;
    assert Codes(s.r.queue + [c], code) == Codes(s.r.queue, code) + [code(c)];
  }

  lemma AfterSend(s: State, c: nat, code: Coding, size: nat)
    requires Enabled(s, Send(c)) && (s.q.senders[c].SSend? ==> R.Enabled(s.r, R.Enqueue(c)))
    ensures var s' := Apply(s, Send(c), code, size);
      && s'.q == Q.Apply(s.q, Q.Send(c))
      && s'.r.queue == if s.q.senders[c].SSend? then s.r.queue + [c] else s.r.queue
  {
  }

  lemma SendFollows(s: State, c: nat, code: Coding, size: nat)
    requires Inv(s, code, size) && Enabled(s, Send(c))
    ensures Follows(s, Send(c), code, size)
  {
    QueueStep(s.q, Q.Send(c));
    assert Q.SortedCall(s.q.senders[c], size);
    Q.NotEmpty(s.q);
    SendCallers(s, c, code, size);
    SendQueue(s, c, code, size);
    hide Q.Inv, Q.Contents, Q.SortedCall, Callers, Server, Codes;
    ServerSame(s, Apply(s, Send(c), code, size), code, size);
  }

  lemma CallRecvFollows(s: State, code: Coding, size: nat)
    requires Inv(s, code, size) && Enabled(s, CallRecv)
    ensures Follows(s, CallRecv, code, size)
  {
    QueueStep(s.q, Q.CallRecv(size));
    CallRecvParts(s, code, size);
    hide Q.Inv, Q.Contents, Callers, Server, OneAtATime, Q.Apply, Q.Enabled;
  }

  lemma CallRecvParts(s: State, code: Coding, size: nat)
    requires Enabled(s, CallRecv) && Callers(s, code) && OneAtATime(s)
    ensures var s' := Apply(s, CallRecv, code, size);
      && Callers(s', code) && Server(s', code, size) && OneAtATime(s')
      && s'.q == Q.Apply(s.q, Q.CallRecv(size)) && Q.Contents(s'.q) == Q.Contents(s.q) && s'.r == s.r
  {
    var s' := Apply(s, CallRecv, code, size);
    assert Q.Contents(s'.q) == Q.Contents(s.q);
    hide Q.Contents;
  }

  lemma RecvFollows(s: State, code: Coding, size: nat)
    requires Inv(s, code, size) && Enabled(s, Recv)
    ensures Follows(s, Recv, code, size)
  {
    QueueStep(s.q, Q.Recv(s.serving.value));
    RecvQueue(s, code, size);
    RecvServer(s, code, size);
    RecvOthers(s, code, size);
    hide Q.Inv, Q.Contents, Codes, Server, Callers, OneAtATime, Q.Apply, Q.Enabled, R.Apply, R.Enabled;
  }

  lemma RecvOthers(s: State, code: Coding, size: nat)
    requires Callers(s, code) && Enabled(s, Recv)
    ensures Callers(Apply(s, Recv, code, size), code)
    ensures Apply(s, Recv, code, size).q == Q.Apply(s.q, Q.Recv(s.serving.value))
    ensures OneAtATime(s) ==> OneAtATime(Apply(s, Recv, code, size))
  {
  }

  lemma RecvQueue(s: State, code: Coding, size: nat)
    requires Inv(s, code, size) && Enabled(s, Recv)
    ensures Shown(s, Recv) != [] ==> R.Enabled(s.r, R.Receive)
    ensures var s' := Apply(s, Recv, code, size);
      Q.Contents(s'.q) == Codes(s'.r.queue, code)
  {
    Q.ContentsRecv(s.q, s.serving.value);
    AfterRecv(s, code, size);
    hide Q.Inv, Q.Contents, Callers, Server, OneAtATime, Q.Apply, R.Apply, Q.Enabled, Apply;
    if Shown(s, Recv) != [] {
      assert Codes(s.r.queue, code)[1..] == Codes(s.r.queue[1..], code);
    }
  }

  lemma AfterRecv(s: State, code: Coding, size: nat)
    requires Enabled(s, Recv) && Server(s, code, size) && |Q.Contents(s.q)| == |s.r.queue|
    ensures Shown(s, Recv) != [] ==> R.Enabled(s.r, R.Receive)
    ensures var s' := Apply(s, Recv, code, size);
      && s'.q == Q.Apply(s.q, Q.Recv(s.serving.value))
      && s'.r.queue == if Shown(s, Recv) != [] then s.r.queue[1..] else s.r.queue
  {
  }

  lemma RecvServer(s: State, code: Coding, size: nat)
    requires Inv(s, code, size) && Enabled(s, Recv)
    ensures Server(Apply(s, Recv, code, size), code, size)
  {
    var t := s.serving.value;
    match s.q.receivers[t] {
      case RTake(_) =>
        Q.NotEmpty(s.q);
        Q.ContentsRecv(s.q, t);
        TakeServer(s, t, code, size);
      case RCopy(_, _, _) =>
        CopyIsCode(s, t, code, size);
        hide Q.Inv, Q.Contents, OneAtATime;
      case _ => IdleServer(s, t, code, size);
    }
  }

  lemma IdleServer(s: State, t: nat, code: Coding, size: nat)
    requires Server(s, code, size) && s.serving == Some(t) && Enabled(s, Recv)
    requires !s.q.receivers[t].RTake? && !s.q.receivers[t].RCopy?
    ensures Server(Apply(s, Recv, code, size), code, size)
  {
  }

  lemma TakeServer(s: State, t: nat, code: Coding, size: nat)
    requires Server(s, code, size) && s.serving == Some(t) && Enabled(s, Recv) && s.q.receivers[t].RTake?
    requires s.q.used != [] && Q.Contents(s.q) == Codes(s.r.queue, code)
    requires Q.Apply(s.q, Q.Recv(t)).dequeued == s.q.dequeued + [Q.Contents(s.q)[0]]
    ensures Server(Apply(s, Recv, code, size), code, size)
  {
    hide Q.Contents;
  }

  /** What the server copies out of the node is the whole message. */
  lemma CopyIsCode(s: State, t: nat, code: Coding, size: nat)
    requires Inv(s, code, size) && s.serving == Some(t) && Q.Enabled(s.q, Q.Recv(t)) && s.q.receivers[t].RCopy?
    ensures var pc := Q.Apply(s.q, Q.Recv(t)).receivers[t]; pc.RFree? && pc.got == code(s.r.server.call)
  {
  }

  lemma CallerFollows(s: State, step: Step, code: Coding, size: nat)
    requires Inv(s, code, size) && Enabled(s, step) && (step.Obtain? || step.Return?)
    ensures Follows(s, step, code, size)
  {
    hide Q.Inv, Q.Contents;
  }

  lemma ServerFollows(s: State, step: Step, code: Coding, size: nat)
    requires Inv(s, code, size) && Enabled(s, step) && (step.Handle? || step.Write? || step.Release?)
    ensures Follows(s, step, code, size)
  {
    hide Q.Inv, Q.Contents;
  }

  lemma StepFollows(s: State, step: Step, code: Coding, size: nat)
    requires Inv(s, code, size) && Enabled(s, step)
    ensures Follows(s, step, code, size)
  {
    hide Inv, Follows, Apply;
    match step
    case Begin(request) => BeginFollows(s, request, code, size);
    case Send(c) => SendFollows(s, c, code, size);
    case CallRecv => CallRecvFollows(s, code, size);
    case Recv => RecvFollows(s, code, size);
    case Obtain(c) => CallerFollows(s, step, code, size);
    case Return(c) => CallerFollows(s, step, code, size);
    case _ => ServerFollows(s, step, code, size);
  }

  // ---- Over whole runs ----

  /** The steps of a run that show in the abstract protocol. */
  function ShownAll(s: State, steps: seq<Step>, code: Coding, size: nat): seq<R.Step>
    decreases |steps|
  {
    if steps == [] || !Enabled(s, steps[0]) then []
    else Shown(s, steps[0]) + ShownAll(Apply(s, steps[0], code, size), steps[1..], code, size)
  }

  lemma ShownStep(r: R.State, x: seq<R.Step>, rest: seq<R.Step>, r': R.State)
    requires |x| <= 1 && (x != [] ==> R.Enabled(r, x[0])) && R.IsRun(ShownState(r, x), rest, r')
    ensures R.IsRun(r, x + rest, r')
  {
    if x == [] {
      assert x + rest == rest;
    } else {
      assert (x + rest)[0] == x[0] && (x + rest)[1..] == rest;
    }
  }

  lemma PlacesKept(s: State, step: Step, code: Coding, size: nat)
    requires Enabled(s, step)
    ensures |Apply(s, step, code, size).q.place| == |s.q.place|
    ensures |Shown(s, step)| <= 1 && Apply(s, step, code, size).r == ShownState(s.r, Shown(s, step))
  {
  }

  lemma {:induction false} RunRefines(s: State, steps: seq<Step>, s': State, code: Coding, size: nat)
    requires Inv(s, code, size) && IsRun(s, steps, s', code, size)
    ensures Inv(s', code, size) && |s'.q.place| == |s.q.place|
    ensures R.IsRun(s.r, ShownAll(s, steps, code, size), s'.r)
    decreases |steps|
  {
    hide Inv, Enabled, Apply, Shown, ShownState;
    if steps != [] {
      var t := Apply(s, steps[0], code, size);
      StepFollows(s, steps[0], code, size);
      PlacesKept(s, steps[0], code, size);
      RunRefines(t, steps[1..], s', code, size);
      ShownStep(s.r, Shown(s, steps[0]), ShownAll(t, steps[1..], code, size), s'.r);
    }
  }

  lemma InitInv(n: nat, size: nat, code: Coding)
    requires Sized(code, size)
    ensures Inv(Init(n, size), code, size)
  {
    Q.InitInv(n, size);
    hide Q.Inv;
  }

  /**
   * Over the node queue, with any number of nodes and any interleaving down to its semaphores, callers and
   * server run the call protocol, and the handler is given the message of the call it is to answer.
   */
  lemma Refines(n: nat, size: nat, steps: seq<Step>, s: State, code: Coding)
    requires Sized(code, size) && IsRun(Init(n, size), steps, s, code, size)
    ensures R.IsRun(R.INIT, ShownAll(Init(n, size), steps, code, size), s.r)
    ensures forall result | Enabled(s, Handle(result)) ::
      s.q.receivers[s.serving.value].got == code(s.r.server.call)
  {
    hide IsRun, Inv, R.IsRun, ShownAll, Init;
    InitInv(n, size, code);
    RunRefines(Init(n, size), steps, s, code, size);
    forall result | Enabled(s, Handle(result))
      ensures s.q.receivers[s.serving.value].got == code(s.r.server.call)
    {
      HandlesItsMessage(s, result, code, size);
    }
    StartsEmpty(n, size);
  }

  lemma StartsEmpty(n: nat, size: nat)
    ensures Init(n, size).r == R.INIT && |Init(n, size).q.place| == n
  {
  }

  lemma HandlesItsMessage(s: State, result: u32, code: Coding, size: nat)
    requires Inv(s, code, size) && Enabled(s, Handle(result))
    ensures s.q.receivers[s.serving.value].got == code(s.r.server.call)
  {
    hide Q.Inv, Q.Contents;
  }

  /** So each MsOS_SendMessage returns what the handler answered to its own message. */
  lemma EachItsOwnAnswer(n: nat, size: nat, steps: seq<Step>, s: State, code: Coding, c: nat)
    requires Sized(code, size) && IsRun(Init(n, size), steps, s, code, size)
    requires c < |s.r.calls| && s.r.calls[c].request.blocking && s.r.calls[c].pc.CReturned?
    ensures exists k :: (0 <= k < |s.r.handled| && s.r.handled[k] == R.Handled(c, s.r.calls[c].pc.result)
                         && forall j | 0 <= j < |s.r.handled| && s.r.handled[j].call == c :: j == k)
  {
    Refines(n, size, steps, s, code);
    R.SendMessageResult(ShownAll(Init(n, size), steps, code, size), s.r, c);
  }

  // ---- No deadlock ----

  /** Some caller is still inside its call. */
  ghost predicate Unfinished(s: State) {
    exists c | 0 <= c < |s.r.calls| && c < |s.q.senders| ::
      !s.r.calls[c].pc.CReturned? || !s.q.senders[c].SReturned?
  }

  ghost predicate CanMove(s: State) {
    exists step: Step :: !step.Begin? && Enabled(s, step)
  }

  /** If nobody can move, the server waits for a message, with no token for one. */
  lemma StuckServer(s: State, code: Coding, size: nat)
    requires Inv(s, code, size) && !CanMove(s)
    ensures s.r.server.VReceive? && s.serving.Some? && s.serving.value < |s.q.receivers|
    ensures s.q.receivers[s.serving.value].RObtain? && s.q.recvSem == 0
  {
    hide Q.Inv, Q.Contents, Callers;
    assert !Enabled(s, CallRecv) && !Enabled(s, Recv) && !Enabled(s, Handle(0));
    assert !Enabled(s, Write) && !Enabled(s, Release);
  }

  /** And every sender has returned, or waits with no token for a free node. */
  lemma StuckSender(s: State, code: Coding, size: nat, c: nat)
    requires Inv(s, code, size) && !CanMove(s) && c < |s.q.senders|
    ensures s.q.senders[c].SReturned? || (s.q.senders[c].SObtain? && s.q.sendSem == 0)
  {
    hide Q.Inv, Q.Contents, Server;
    assert !Enabled(s, Send(c));
  }

  /** Then the queue is empty, and all its nodes are free. */
  lemma StuckQueue(s: State, code: Coding, size: nat)
    requires Inv(s, code, size) && !CanMove(s) && s.q.place != []
    ensures s.q.used == [] && s.q.sendSem > 0
  {
    StuckServer(s, code, size);
    forall c | 0 <= c < |s.q.senders|
      ensures s.q.senders[c].SReturned? || (s.q.senders[c].SObtain? && s.q.sendSem == 0)
    {
      StuckSender(s, code, size, c);
    }
    hide Server, CanMove;
    Q.CountNone(s.q.senders, Q.Claiming());
    Q.CountNone(s.q.senders, Q.Announcing());
    Q.CountNone(s.q.receivers, Q.Refunding());
    Q.CountNone(s.q.receivers, Q.Taking());
    forall c | 0 <= c < |s.q.senders|
      ensures !Q.Rejected()(s.q.senders[c])
    {
      assert Q.SortedCall(s.q.senders[c], size) && |code(c)| == size;
    }
    Q.CountNone(s.q.senders, Q.Rejected());
    Q.NodeAtRest(s.q, 0);
  }

  /**
   * While a call has not returned, somebody can move: neither a full queue nor an empty one, nor callers
   * waiting for replies, bring the apartment to a halt.
   */
  lemma NoDeadlock(n: nat, size: nat, steps: seq<Step>, s: State, code: Coding)
    requires n > 0 && Sized(code, size) && IsRun(Init(n, size), steps, s, code, size) && Unfinished(s)
    ensures CanMove(s)
  {
    hide IsRun, Inv, R.IsRun, ShownAll, Init, CanMove, Unfinished;
    InitInv(n, size, code);
    RunRefines(Init(n, size), steps, s, code, size);
    StartsEmpty(n, size);
    if !CanMove(s) {
      StuckServer(s, code, size);
      StuckQueue(s, code, size);
      NothingQueued(s, code, size);
      var c := SomeUnfinished(s);
      CallStuck(s, code, size, c);
      R.NoCallerHangs(ShownAll(Init(n, size), steps, code, size), s.r, c);
      CallerGoesOn(s, code, size, c);
    }
  }

  lemma NothingQueued(s: State, code: Coding, size: nat)
    requires Inv(s, code, size) && s.q.used == []
    ensures s.r.queue == []
  {
    assert |Q.Contents(s.q)| == |Codes(s.r.queue, code)|;
    hide Q.Inv;
  }

  lemma SomeUnfinished(s: State) returns (c: nat)
    requires Unfinished(s)
    ensures c < |s.r.calls| && c < |s.q.senders|
    ensures !s.r.calls[c].pc.CReturned? || !s.q.senders[c].SReturned?
  {
    c :| 0 <= c < |s.r.calls| && c < |s.q.senders| && (!s.r.calls[c].pc.CReturned? || !s.q.senders[c].SReturned?);
  }

  /** With free nodes and nobody able to move, an unfinished call can only wait for its reply. */
  lemma CallStuck(s: State, code: Coding, size: nat, c: nat)
    requires Inv(s, code, size) && !CanMove(s) && s.q.sendSem > 0
    requires c < |s.r.calls| && c < |s.q.senders|
    requires !s.r.calls[c].pc.CReturned? || !s.q.senders[c].SReturned?
    ensures s.q.senders[c].SReturned? && s.r.calls[c].pc.CWait?
  {
    CallersOf(s, code, size);
    NotReturning(s, c);
    hide Inv, CanMove, Enabled, Callers;
    StuckSender(s, code, size, c);
    BehindSending(s, code, c);
  }

  lemma CallersOf(s: State, code: Coding, size: nat)
    requires Inv(s, code, size)
    ensures Callers(s, code)
  {
    hide Q.Inv, Q.Contents, Callers;
  }

  lemma NotReturning(s: State, c: nat)
    requires !CanMove(s) && c < |s.r.calls|
    ensures !s.r.calls[c].pc.CWoken?
  {
    assert !Enabled(s, Return(c));
  }

  lemma BehindSending(s: State, code: Coding, c: nat)
    requires Callers(s, code) && c < |s.q.senders| && s.q.senders[c].SReturned?
    ensures c < |s.r.calls| && !s.r.calls[c].pc.CSend?
  {
  }

  lemma CallerGoesOn(s: State, code: Coding, size: nat, c: nat)
    requires c < |s.q.senders| && s.q.senders[c].SReturned? && R.Enabled(s.r, R.Obtain(c))
    ensures CanMove(s)
  {
    assert Enabled(s, Obtain(c)) && !Obtain(c).Begin?;
  }
}
