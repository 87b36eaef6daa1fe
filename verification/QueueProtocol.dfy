/** MsOS_queue.c as a protocol: any number of senders and receivers over the semaphores and the two lists. */
module QueueProtocol {
  import opened Bytes

  type Msg = seq<byte>
  type Node = nat

  /** Where a call of MsOS_SendToQueue is; each list operation is one step under lockSemaphore. */
  datatype SenderPc =
    | SObtain(m: Msg)                // before ObtainSemaphore(sendSemaphore)
    | SClaim(m: Msg)                 // past it, before _RemoveFromListHead(free)
    | SFill(m: Msg, node: Node)
    | SGiveBack(m: Msg, node: Node)  // message too long, before _AddToListTail(free)
    | SSend(m: Msg, node: Node)      // filled, before _AddToListTail(used)
    | SRelease(m: Msg)               // before ReleaseSemaphore(recvSemaphore)
    | SReturned(m: Msg, ok: bool)
    | STimedOut(m: Msg)

  /** Where a call of MsOS_RecvFromQueue is; index is the place of its message in receive order. */
  datatype ReceiverPc =
    | RObtain(size: nat)
    | RTake(size: nat)
    | RCopy(size: nat, node: Node, index: nat)
    | RFree(node: Node, index: nat, got: Msg, size: nat)
    | RRelease(index: nat, got: Msg, size: nat)
    | RReturned(index: nat, got: Msg, size: nat)
    | RTimeout
    | REmpty                         // ReceiveQueue found no node

  /** Who has a node. */
  datatype Place = InFree | InUsed | BySender(t: nat) | ByReceiver(t: nat)

  datatype State = State(
    maxSize: nat, free: seq<Node>, used: seq<Node>, content: seq<Msg>, place: seq<Place>,
    sendSem: nat, recvSem: nat, senders: seq<SenderPc>, receivers: seq<ReceiverPc>,
    enqueued: seq<Msg>, dequeued: seq<Msg>)

  datatype Step =
    | CallSend(m: Msg) | CallRecv(size: nat)
    | Send(t: nat) | Recv(t: nat)
    | SendTimeout(t: nat) | RecvTimeout(t: nat)

  predicate Enabled(s: State, step: Step) {
    match step
    case CallSend(_) => true
    case CallRecv(_) => true
    case Send(t) =>
      && t < |s.senders| && !s.senders[t].SReturned? && !s.senders[t].STimedOut?
      && (s.senders[t].SObtain? ==> s.sendSem > 0)
    case Recv(t) =>
      && t < |s.receivers| && !s.receivers[t].RReturned? && !s.receivers[t].RTimeout? && !s.receivers[t].REmpty?
      && (s.receivers[t].RObtain? ==> s.recvSem > 0)
    case SendTimeout(t) => t < |s.senders| && s.senders[t].SObtain?
    case RecvTimeout(t) => t < |s.receivers| && s.receivers[t].RObtain?
  }

  function Cut(m: Msg, size: nat): Msg {
    if |m| <= size then m else m[..size]
  }

  function Put<T>(s: seq<T>, i: nat, v: T): (r: seq<T>)
    ensures |r| == |s|
  {
    if i < |s| then s[i := v] else s
  }

  function ApplySend(s: State, t: nat): State
    requires t < |s.senders|
  {
    match s.senders[t]
    case SObtain(m) =>
      s.(sendSem := if s.sendSem > 0 then s.sendSem - 1 else 0, senders := s.senders[t := SClaim(m)])
    case SClaim(m) =>
      if s.free == [] then s.(senders := s.senders[t := SReturned(m, false)])
      else s.(free := s.free[1..], place := Put(s.place, s.free[0], BySender(t)),
              senders := s.senders[t := SFill(m, s.free[0])])
    case SFill(m, node) =>
      if |m| <= s.maxSize
      then s.(content := Put(s.content, node, m), senders := s.senders[t := SSend(m, node)])
      else s.(senders := s.senders[t := SGiveBack(m, node)])
    case SGiveBack(m, node) =>
      s.(free := s.free + [node], place := Put(s.place, node, InFree),
         senders := s.senders[t := SReturned(m, false)])
    case SSend(m, node) =>
      s.(used := s.used + [node], place := Put(s.place, node, InUsed), enqueued := s.enqueued + [m],
         senders := s.senders[t := SRelease(m)])
    case SRelease(m) =>
      s.(recvSem := s.recvSem + 1, senders := s.senders[t := SReturned(m, true)])
    case _ => s
  }

  function ApplyRecv(s: State, t: nat): State
    requires t < |s.receivers|
  {
    match s.receivers[t]
    case RObtain(size) =>
      s.(recvSem := if s.recvSem > 0 then s.recvSem - 1 else 0, receivers := s.receivers[t := RTake(size)])
    case RTake(size) =>
      if s.used == [] then s.(receivers := s.receivers[t := REmpty])
      else
        var node := s.used[0];
        s.(used := s.used[1..], place := Put(s.place, node, ByReceiver(t)),
           dequeued := s.dequeued + (if node < |s.content| then [s.content[node]] else []),
           receivers := s.receivers[t := RCopy(size, node, |s.dequeued|)])
    case RCopy(size, node, index) =>
      var got := if node < |s.content| then Cut(s.content[node], size) else [];
      s.(receivers := s.receivers[t := RFree(node, index, got, size)])
    case RFree(node, index, got, size) =>
      s.(free := s.free + [node], place := Put(s.place, node, InFree),
         receivers := s.receivers[t := RRelease(index, got, size)])
    case RRelease(index, got, size) =>
      s.(sendSem := s.sendSem + 1, receivers := s.receivers[t := RReturned(index, got, size)])
    case _ => s
  }

  function Apply(s: State, step: Step): State
    requires Enabled(s, step)
  {
    match step
    case CallSend(m) => s.(senders := s.senders + [SObtain(m)])
    case CallRecv(size) => s.(receivers := s.receivers + [RObtain(size)])
    case Send(t) => ApplySend(s, t)
    case Recv(t) => ApplyRecv(s, t)
    case SendTimeout(t) => s.(senders := s.senders[t := STimedOut(s.senders[t].m)])
    case RecvTimeout(t) => s.(receivers := s.receivers[t := RTimeout])
  }

  /** MsOS_CreateQueue. */
  function Init(n: nat, maxSize: nat): State {
    State(maxSize, seq(n, i => i), [], seq(n, _ => []), seq(n, _ => InFree), n, 0, [], [], [], [])
  }

  ghost predicate IsRun(s: State, steps: seq<Step>, s': State)
    decreases |steps|
  {
    if steps == [] then s == s'
    else Enabled(s, steps[0]) && IsRun(Apply(s, steps[0]), steps[1..], s')
  }

  // ---- Invariant ----

  function SenderHolds(pc: SenderPc): Option<Node> {
    match pc
    case SFill(_, n) => Some(n)
    case SGiveBack(_, n) => Some(n)
    case SSend(_, n) => Some(n)
    case _ => None
  }

  function ReceiverHolds(pc: ReceiverPc): Option<Node> {
    match pc
    case RCopy(_, n, _) => Some(n)
    case RFree(n, _, _, _) => Some(n)
    case _ => None
  }

  /** list holds each node whose place is p, once, and no other. */
  ghost predicate Lists(list: seq<Node>, place: seq<Place>, p: Place) {
    && (forall i, j | 0 <= i < j < |list| :: list[i] != list[j])
    && (forall i | 0 <= i < |list| :: list[i] < |place| && place[list[i]] == p)
    && (forall n | 0 <= n < |place| && place[n] == p :: n in list)
  }

  ghost predicate SendersHold(senders: seq<SenderPc>, place: seq<Place>) {
    && (forall n | 0 <= n < |place| && place[n].BySender? ::
          place[n].t < |senders| && SenderHolds(senders[place[n].t]) == Some(n))
    && (forall t | 0 <= t < |senders| && SenderHolds(senders[t]).Some? ::
          SenderHolds(senders[t]).value < |place| && place[SenderHolds(senders[t]).value] == BySender(t))
  }

  ghost predicate ReceiversHold(receivers: seq<ReceiverPc>, place: seq<Place>) {
    && (forall n | 0 <= n < |place| && place[n].ByReceiver? ::
          place[n].t < |receivers| && ReceiverHolds(receivers[place[n].t]) == Some(n))
    && (forall t | 0 <= t < |receivers| && ReceiverHolds(receivers[t]).Some? ::
          ReceiverHolds(receivers[t]).value < |place| && place[ReceiverHolds(receivers[t]).value] == ByReceiver(t))
  }

  /** The free list, the used list and the nodes in flight partition the pool. */
  ghost predicate Partition(s: State) {
    && |s.content| == |s.place|
    && Lists(s.free, s.place, InFree)
    && Lists(s.used, s.place, InUsed)
    && SendersHold(s.senders, s.place)
    && ReceiversHold(s.receivers, s.place)
  }

  function Count<T>(s: seq<T>, f: T -> bool): nat {
    if s == [] then 0 else Count(s[..|s| - 1], f) + (if f(s[|s| - 1]) then 1 else 0)
  }

  function Claiming(): SenderPc -> bool { (pc: SenderPc) => pc.SClaim? }
  function Announcing(): SenderPc -> bool { (pc: SenderPc) => pc.SRelease? }
  function Rejected(): SenderPc -> bool { (pc: SenderPc) => pc.SReturned? && !pc.ok }
  function Taking(): ReceiverPc -> bool { (pc: ReceiverPc) => pc.RTake? }
  function Refunding(): ReceiverPc -> bool { (pc: ReceiverPc) => pc.RRelease? }

  /** Each list's length, as tokens: in the semaphore, with a call past it, not released yet, or lost. */
  ghost predicate Tokens(s: State) {
    && |s.free| == s.sendSem + Count(s.senders, Claiming()) + Count(s.receivers, Refunding())
                 + Count(s.senders, Rejected())
    && |s.used| == s.recvSem + Count(s.receivers, Taking()) + Count(s.senders, Announcing())
  }

  /** What became of a message shows whether it fits. */
  ghost predicate Sorted(s: State) {
    forall t | 0 <= t < |s.senders| :: SortedCall(s.senders[t], s.maxSize)
  }

  predicate SortedCall(pc: SenderPc, maxSize: nat) {
    match pc
    case SGiveBack(m, _) => |m| > maxSize
    case SSend(m, _) => |m| <= maxSize
    case SRelease(m) => |m| <= maxSize
    case SReturned(m, ok) => ok <==> |m| <= maxSize
    case _ => true
  }

  function Contents(s: State): (m: seq<Msg>)
    ensures |m| == |s.used|
  {
    seq(|s.used|, i requires 0 <= i < |s.used| => if s.used[i] < |s.content| then s.content[s.used[i]] else [])
  }

  /** What was sent is what has been received, in order, followed by what is still queued. */
  ghost predicate Fifo(s: State) {
    && s.enqueued == s.dequeued + Contents(s)
    && (forall t | 0 <= t < |s.senders| && s.senders[t].SSend? ::
          s.senders[t].node < |s.content| && s.content[s.senders[t].node] == s.senders[t].m)
    && (forall t | 0 <= t < |s.receivers| && s.receivers[t].RCopy? ::
          s.receivers[t].node < |s.content| && s.receivers[t].index < |s.dequeued|
          && s.content[s.receivers[t].node] == s.dequeued[s.receivers[t].index])
    && (forall t | 0 <= t < |s.receivers|
          && (s.receivers[t].RFree? || s.receivers[t].RRelease? || s.receivers[t].RReturned?) ::
          s.receivers[t].index < |s.dequeued|
          && s.receivers[t].got == Cut(s.dequeued[s.receivers[t].index], s.receivers[t].size))
  }

  ghost predicate NeverEmpty(s: State) {
    forall t | 0 <= t < |s.receivers| :: !s.receivers[t].REmpty?
  }

  function IndexOf(pc: ReceiverPc): Option<nat> {
    match pc
    case RCopy(_, _, i) => Some(i)
    case RFree(_, i, _, _) => Some(i)
    case RRelease(i, _, _) => Some(i)
    case RReturned(i, _, _) => Some(i)
    case _ => None
  }

  ghost predicate Taken(rs: seq<ReceiverPc>, i: nat) {
    exists t | 0 <= t < |rs| :: IndexOf(rs[t]) == Some(i)
  }

  /** Each message taken off the queue went to exactly one call. */
  ghost predicate Receipts(s: State) {
    && (forall t | 0 <= t < |s.receivers| && IndexOf(s.receivers[t]).Some? ::
          IndexOf(s.receivers[t]).value < |s.dequeued|)
    && (forall t, u | 0 <= t < u < |s.receivers| && IndexOf(s.receivers[t]).Some? ::
          IndexOf(s.receivers[t]) != IndexOf(s.receivers[u]))
    && (forall i | 0 <= i < |s.dequeued| :: Taken(s.receivers, i))
  }

  ghost predicate Inv(s: State) {
    Partition(s) && Tokens(s) && Fifo(s) && NeverEmpty(s) && Receipts(s) && Sorted(s)
  }

  // ---- Every step keeps it ----

  lemma {:induction false} CountUpdate<T>(s: seq<T>, i: nat, v: T, f: T -> bool)
    requires i < |s|
    ensures Count(s[i := v], f) + (if f(s[i]) then 1 else 0) == Count(s, f) + (if f(v) then 1 else 0)
  {
    var n := |s| - 1;
    if i == n {
      assert s[i := v][..n] == s[..n];
    } else {
      assert s[i := v][..n] == s[..n][i := v];
      CountUpdate(s[..n], i, v, f);
    }
  }

  lemma CountAppend<T>(s: seq<T>, v: T, f: T -> bool)
    ensures Count(s + [v], f) == Count(s, f) + (if f(v) then 1 else 0)
  {
    assert (s + [v])[..|s|] == s;
  }

  lemma {:induction false} CountAtLeast<T>(s: seq<T>, i: nat, f: T -> bool)
    requires i < |s| && f(s[i])
    ensures Count(s, f) >= 1
  {
    if i < |s| - 1 {
      CountAtLeast(s[..|s| - 1], i, f);
    }
  }

  /** A claim or a receive that has its semaphore token never finds its list empty. */
  lemma NotEmpty(s: State)
    requires Tokens(s)
    ensures forall t | 0 <= t < |s.senders| && s.senders[t].SClaim? :: s.free != []
    ensures forall t | 0 <= t < |s.receivers| && s.receivers[t].RTake? :: s.used != []
  {
    forall t | 0 <= t < |s.senders| && s.senders[t].SClaim? ensures s.free != [] {
      CountAtLeast(s.senders, t, Claiming());
    }
    forall t | 0 <= t < |s.receivers| && s.receivers[t].RTake? ensures s.used != [] {
      CountAtLeast(s.receivers, t, Taking());
    }
  }

  lemma TokensStep(s: State, step: Step)
    requires Tokens(s) && Enabled(s, step)
    ensures Tokens(Apply(s, step))
  {
    NotEmpty(s);
    match step
    case CallSend(m) =>
      hide Count;
      CountAppend(s.senders, SObtain(m), Claiming());
      CountAppend(s.senders, SObtain(m), Announcing());
      CountAppend(s.senders, SObtain(m), Rejected());
    case CallRecv(size) =>
      hide Count;
      CountAppend(s.receivers, RObtain(size), Refunding());
      CountAppend(s.receivers, RObtain(size), Taking());
    case Send(t) => SenderTokens(s, step, t);
    case Recv(t) => ReceiverTokens(s, step, t);
    case SendTimeout(t) => SenderTokens(s, step, t);
    case RecvTimeout(t) => ReceiverTokens(s, step, t);
  }

  lemma SenderTokens(s: State, step: Step, t: nat)
    requires Tokens(s) && Enabled(s, step) && (step == Send(t) || step == SendTimeout(t))
    requires s.senders[t].SClaim? ==> s.free != []
    ensures Tokens(Apply(s, step))
  {
    hide Count;
    var pc := Apply(s, step).senders[t];
    CountUpdate(s.senders, t, pc, Claiming());
    CountUpdate(s.senders, t, pc, Announcing());
    CountUpdate(s.senders, t, pc, Rejected());
  }

  lemma ReceiverTokens(s: State, step: Step, t: nat)
    requires Tokens(s) && Enabled(s, step) && (step == Recv(t) || step == RecvTimeout(t))
    requires s.receivers[t].RTake? ==> s.used != []
    ensures Tokens(Apply(s, step))
  {
    hide Count;
    var pc := Apply(s, step).receivers[t];
    CountUpdate(s.receivers, t, pc, Refunding());
    CountUpdate(s.receivers, t, pc, Taking());
  }

  lemma ListPop(list: seq<Node>, place: seq<Place>, p: Place, q: Place)
    requires Lists(list, place, p) && list != [] && q != p
    ensures list[0] < |place| && Lists(list[1..], place[list[0] := q], p)
  {
    var place' := place[list[0] := q];
    forall n | 0 <= n < |place'| && place'[n] == p
      ensures n in list[1..]
    {
      assert n in list && n != list[0];
    }
  }

  lemma ListPush(list: seq<Node>, place: seq<Place>, p: Place, n: Node)
    requires Lists(list, place, p) && n < |place| && place[n] != p
    ensures Lists(list + [n], place[n := p], p)
  {
  }

  lemma ListOther(list: seq<Node>, place: seq<Place>, p: Place, n: Node, q: Place)
    requires Lists(list, place, p) && n < |place| && place[n] != p && q != p
    ensures Lists(list, place[n := q], p)
  {
  }

  lemma SendersOther(senders: seq<SenderPc>, place: seq<Place>, n: Node, q: Place)
    requires SendersHold(senders, place) && n < |place| && !place[n].BySender? && !q.BySender?
    ensures SendersHold(senders, place[n := q])
  {
  }

  lemma ReceiversOther(receivers: seq<ReceiverPc>, place: seq<Place>, n: Node, q: Place)
    requires ReceiversHold(receivers, place) && n < |place| && !place[n].ByReceiver? && !q.ByReceiver?
    ensures ReceiversHold(receivers, place[n := q])
  {
  }

  /** A sender that held nothing takes node n, or one that held n puts it down. */
  lemma SenderMoves(senders: seq<SenderPc>, place: seq<Place>, t: nat, pc: SenderPc, n: Node, q: Place)
    requires SendersHold(senders, place) && t < |senders| && n < |place|
    requires
      || (SenderHolds(senders[t]) == None && !place[n].BySender? && SenderHolds(pc) == Some(n) && q == BySender(t))
      || (SenderHolds(senders[t]) == Some(n) && SenderHolds(pc) == None && !q.BySender?)
    ensures SendersHold(senders[t := pc], place[n := q])
  {
  }

  lemma ReceiverMoves(receivers: seq<ReceiverPc>, place: seq<Place>, t: nat, pc: ReceiverPc, n: Node, q: Place)
    requires ReceiversHold(receivers, place) && t < |receivers| && n < |place|
    requires
      || (ReceiverHolds(receivers[t]) == None && !place[n].ByReceiver?
          && ReceiverHolds(pc) == Some(n) && q == ByReceiver(t))
      || (ReceiverHolds(receivers[t]) == Some(n) && ReceiverHolds(pc) == None && !q.ByReceiver?)
    ensures ReceiversHold(receivers[t := pc], place[n := q])
  {
  }

  lemma SenderStays(senders: seq<SenderPc>, place: seq<Place>, t: nat, pc: SenderPc)
    requires SendersHold(senders, place) && t < |senders| && SenderHolds(senders[t]) == SenderHolds(pc)
    ensures SendersHold(senders[t := pc], place)
  {
  }

  lemma ReceiverStays(receivers: seq<ReceiverPc>, place: seq<Place>, t: nat, pc: ReceiverPc)
    requires ReceiversHold(receivers, place) && t < |receivers| && ReceiverHolds(receivers[t]) == ReceiverHolds(pc)
    ensures ReceiversHold(receivers[t := pc], place)
  {
  }

  lemma PartitionSend(s: State, t: nat)
    requires Partition(s) && Enabled(s, Send(t))
    ensures Partition(Apply(s, Send(t)))
  {
    hide Lists, SendersHold, ReceiversHold;
    var pc := Apply(s, Send(t)).senders[t];
    PlaceOf(s, t);
    match s.senders[t] {
      case SClaim(m) =>
        if s.free != [] {
          ListPop(s.free, s.place, InFree, BySender(t));
          ListOther(s.used, s.place, InUsed, s.free[0], BySender(t));
          SenderMoves(s.senders, s.place, t, pc, s.free[0], BySender(t));
          ReceiversOther(s.receivers, s.place, s.free[0], BySender(t));
        } else {
          SenderStays(s.senders, s.place, t, pc);
        }
      case SGiveBack(_, node) =>
        ListPush(s.free, s.place, InFree, node);
        ListOther(s.used, s.place, InUsed, node, InFree);
        SenderMoves(s.senders, s.place, t, pc, node, InFree);
        ReceiversOther(s.receivers, s.place, node, InFree);
      case SSend(m, node) =>
        ListPush(s.used, s.place, InUsed, node);
        ListOther(s.free, s.place, InFree, node, InUsed);
        SenderMoves(s.senders, s.place, t, pc, node, InUsed);
        ReceiversOther(s.receivers, s.place, node, InUsed);
      case _ =>
        SenderStays(s.senders, s.place, t, pc);
    }
  }

  lemma PlaceOf(s: State, t: nat)
    requires Partition(s)
    ensures t < |s.senders| && SenderHolds(s.senders[t]).Some? ==>
      SenderHolds(s.senders[t]).value < |s.place| && s.place[SenderHolds(s.senders[t]).value] == BySender(t)
    ensures t < |s.receivers| && ReceiverHolds(s.receivers[t]).Some? ==>
      ReceiverHolds(s.receivers[t]).value < |s.place| && s.place[ReceiverHolds(s.receivers[t]).value] == ByReceiver(t)
    ensures s.free != [] ==> s.free[0] < |s.place| && s.place[s.free[0]] == InFree
    ensures s.used != [] ==> s.used[0] < |s.place| && s.place[s.used[0]] == InUsed
  {
  }

  lemma PartitionRecv(s: State, t: nat)
    requires Partition(s) && Enabled(s, Recv(t))
    ensures Partition(Apply(s, Recv(t)))
  {
    hide Lists, SendersHold, ReceiversHold;
    var pc := Apply(s, Recv(t)).receivers[t];
    PlaceOf(s, t);
    match s.receivers[t] {
      case RTake(size) =>
        if s.used != [] {
          ListPop(s.used, s.place, InUsed, ByReceiver(t));
          ListOther(s.free, s.place, InFree, s.used[0], ByReceiver(t));
          ReceiverMoves(s.receivers, s.place, t, pc, s.used[0], ByReceiver(t));
          SendersOther(s.senders, s.place, s.used[0], ByReceiver(t));
        } else {
          ReceiverStays(s.receivers, s.place, t, pc);
        }
      case RFree(node, index, got, size) =>
        ListPush(s.free, s.place, InFree, node);
        ListOther(s.used, s.place, InUsed, node, InFree);
        ReceiverMoves(s.receivers, s.place, t, pc, node, InFree);
        SendersOther(s.senders, s.place, node, InFree);
      case _ =>
        ReceiverStays(s.receivers, s.place, t, pc);
    }
  }

  lemma PartitionStep(s: State, step: Step)
    requires Partition(s) && Enabled(s, step)
    ensures Partition(Apply(s, step))
  {
    match step
    case Send(t) => PartitionSend(s, t);
    case Recv(t) => PartitionRecv(s, t);
    case _ =>
  }

  /** Only the enqueuing of a sender changes what is queued: its message goes behind the others. */
  lemma ContentsSend(s: State, t: nat)
    requires Partition(s) && Fifo(s) && Enabled(s, Send(t))
    ensures Contents(Apply(s, Send(t)))
         == if s.senders[t].SSend? then Contents(s) + [s.senders[t].m] else Contents(s)
  {
    if s.senders[t].SFill? {
      var node := s.senders[t].node;
      assert SenderHolds(s.senders[t]) == Some(node);
      forall i | 0 <= i < |s.used|
        ensures s.used[i] != node
      {
        assert s.place[s.used[i]] == InUsed;
      }
    }
  }

  /** And only the dequeuing of a receiver: the first message goes to it. */
  lemma ContentsRecv(s: State, t: nat)
    requires Partition(s) && Fifo(s) && Enabled(s, Recv(t))
    ensures var s' := Apply(s, Recv(t));
      if s.receivers[t].RTake? && s.used != [] then
        Contents(s) == [Contents(s)[0]] + Contents(s') && s'.dequeued == s.dequeued + [Contents(s)[0]]
      else Contents(s') == Contents(s) && s'.dequeued == s.dequeued
  {
  }

  /** Filling a node disturbs nobody: no other call has it, and it is not queued. */
  lemma FifoFill(s: State, t: nat)
    requires Partition(s) && Fifo(s) && Enabled(s, Send(t)) && s.senders[t].SFill?
    ensures Fifo(Apply(s, Send(t)))
  {
    var s' := Apply(s, Send(t));
    var node := s.senders[t].node;
    assert SenderHolds(s.senders[t]) == Some(node);
    ContentsSend(s, t);
    forall k | 0 <= k < |s.senders| && k != t && s.senders[k].SSend?
      ensures s.senders[k].node != node
    {
      assert SenderHolds(s.senders[k]) == Some(s.senders[k].node);
    }
    forall k | 0 <= k < |s.receivers| && s.receivers[k].RCopy?
      ensures s.receivers[k].node != node
    {
      assert ReceiverHolds(s.receivers[k]) == Some(s.receivers[k].node);
    }
  }

  lemma FifoSend(s: State, t: nat)
    requires Partition(s) && Fifo(s) && Enabled(s, Send(t)) && !s.senders[t].SFill?
    ensures Fifo(Apply(s, Send(t)))
  {
    ContentsSend(s, t);
    if s.senders[t].SSend? {
      FifoPut(s, t);
    } else {
      hide Partition, Contents, Put;
    }
  }

  lemma FifoPut(s: State, t: nat)
    requires Fifo(s) && Enabled(s, Send(t)) && s.senders[t].SSend?
    requires Contents(Apply(s, Send(t))) == Contents(s) + [s.senders[t].m]
    ensures Fifo(Apply(s, Send(t)))
  {
    hide Contents, Put;
    var s' := Apply(s, Send(t));
    assert s'.enqueued == s'.dequeued + Contents(s');
  }

  lemma FifoRecv(s: State, t: nat)
    requires Partition(s) && Fifo(s) && Enabled(s, Recv(t))
    ensures Fifo(Apply(s, Recv(t)))
  {
  }

  lemma FifoStep(s: State, step: Step)
    requires Partition(s) && Fifo(s) && Enabled(s, step)
    ensures Fifo(Apply(s, step))
  {
    match step
    case Send(t) => if s.senders[t].SFill? { FifoFill(s, t); } else { FifoSend(s, t); }
    case Recv(t) => FifoRecv(s, t);
    case _ =>
  }

  lemma NeverEmptyStep(s: State, step: Step)
    requires Tokens(s) && NeverEmpty(s) && Enabled(s, step)
    ensures NeverEmpty(Apply(s, step))
  {
    NotEmpty(s);
  }

  lemma SortedStep(s: State, step: Step)
    requires Tokens(s) && Sorted(s) && Enabled(s, step)
    ensures Sorted(Apply(s, step))
  {
    NotEmpty(s);
    hide Tokens;
  }

  lemma TakenStays(rs: seq<ReceiverPc>, t: nat, pc: ReceiverPc, i: nat)
    requires t < |rs| && Taken(rs, i) && (IndexOf(rs[t]) == Some(i) ==> IndexOf(pc) == Some(i))
    ensures Taken(rs[t := pc], i)
  {
    var k :| 0 <= k < |rs| && IndexOf(rs[k]) == Some(i);
    assert IndexOf(rs[t := pc][k]) == Some(i);
  }

  lemma TakenBy(rs: seq<ReceiverPc>, t: nat, i: nat)
    requires t < |rs| && IndexOf(rs[t]) == Some(i)
    ensures Taken(rs, i)
  {
  }

  lemma TakenMore(rs: seq<ReceiverPc>, pc: ReceiverPc, i: nat)
    requires Taken(rs, i)
    ensures Taken(rs + [pc], i)
  {
    var k :| 0 <= k < |rs| && IndexOf(rs[k]) == Some(i);
    assert IndexOf((rs + [pc])[k]) == Some(i);
  }

  lemma ReceiptsRecv(s: State, t: nat)
    requires Partition(s) && Receipts(s) && t < |s.receivers| && !s.receivers[t].RReturned?
    ensures Receipts(ApplyRecv(s, t))
  {
    hide Taken, SendersHold, ReceiversHold;
    var s' := ApplyRecv(s, t);
    var pc := s'.receivers[t];
    PlaceOf(s, t);
    forall i | 0 <= i < |s'.dequeued|
      ensures Taken(s'.receivers, i)
    {
      if i < |s.dequeued| {
        if IndexOf(pc) == Some(i) {
          TakenBy(s'.receivers, t, i);
        } else {
          TakenStays(s.receivers, t, pc, i);
        }
      } else {
        TakenBy(s'.receivers, t, i);
      }
    }
  }

  lemma ReceiptsStep(s: State, step: Step)
    requires Partition(s) && Receipts(s) && Enabled(s, step)
    ensures Receipts(Apply(s, step))
  {
    hide Taken, Partition;
    match step
    case CallRecv(size) =>
      var rs := s.receivers + [RObtain(size)];
      forall i | 0 <= i < |s.dequeued| ensures Taken(rs, i) {
        TakenMore(s.receivers, RObtain(size), i);
      }
    case Recv(t) => ReceiptsRecv(s, t);
    case RecvTimeout(t) =>
      var rs := s.receivers[t := RTimeout];
      forall i | 0 <= i < |s.dequeued| ensures Taken(rs, i) {
        TakenStays(s.receivers, t, RTimeout, i);
      }
    case _ =>
  }

  // ---- Over whole runs ----

  lemma {:induction false} CountNone<T>(s: seq<T>, f: T -> bool)
    requires forall i | 0 <= i < |s| :: !f(s[i])
    ensures Count(s, f) == 0
  {
    if s != [] {
      CountNone(s[..|s| - 1], f);
    }
  }

  lemma InitInv(n: nat, maxSize: nat)
    ensures Inv(Init(n, maxSize))
  {
    var s := Init(n, maxSize);
    forall k | 0 <= k < |s.place| && s.place[k] == InFree
      ensures k in s.free
    {
      assert s.free[k] == k;
    }
    assert Contents(s) == [];
  }

  lemma {:induction false} RunInv(s: State, steps: seq<Step>, s': State)
    requires Inv(s) && IsRun(s, steps, s')
    ensures Inv(s')
    decreases |steps|
  {
    hide Partition, Tokens, Fifo, NeverEmpty, Receipts, Sorted, Enabled, Apply;
    if steps != [] {
      PartitionStep(s, steps[0]);
      TokensStep(s, steps[0]);
      FifoStep(s, steps[0]);
      NeverEmptyStep(s, steps[0]);
      SortedStep(s, steps[0]);
      ReceiptsStep(s, steps[0]);
      RunInv(Apply(s, steps[0]), steps[1..], s');
    }
  }

  /**
   * Over all interleavings: what any receiver gets is the message sent at that place of the enqueue
   * order, cut to the receiver's buffer, and no claim or receive finds an empty list.
   */
  lemma Delivery(n: nat, maxSize: nat, steps: seq<Step>, s: State)
    requires IsRun(Init(n, maxSize), steps, s)
    ensures s.dequeued <= s.enqueued && Receipts(s)
    ensures forall t | 0 <= t < |s.receivers| && s.receivers[t].RReturned? ::
      s.receivers[t].index < |s.enqueued|
      && (var m, size := s.enqueued[s.receivers[t].index], s.receivers[t].size;
          s.receivers[t].got == if |m| <= size then m else m[..size])
    ensures forall t | 0 <= t < |s.senders| && s.senders[t].SClaim? :: s.free != []
    ensures forall t | 0 <= t < |s.receivers| && s.receivers[t].RTake? :: s.used != []
  {
    InitInv(n, maxSize);
    RunInv(Init(n, maxSize), steps, s);
    NotEmpty(s);
  }

  /** No call of the queue is under way. */
  ghost predicate AtRest(s: State) {
    && (forall t | 0 <= t < |s.senders| :: s.senders[t].SReturned? || s.senders[t].STimedOut? || s.senders[t].SObtain?)
    && (forall t | 0 <= t < |s.receivers| ::
          s.receivers[t].RReturned? || s.receivers[t].RTimeout? || s.receivers[t].REmpty? || s.receivers[t].RObtain?)
  }

  /** The messages handed to MsOS_SendToQueue, in the order of the calls. */
  function Calls(steps: seq<Step>): seq<Msg> {
    if steps == [] then []
    else (if steps[0].CallSend? then [steps[0].m] else []) + Calls(steps[1..])
  }

  function Messages(senders: seq<SenderPc>): (r: seq<Msg>)
    ensures |r| == |senders|
  {
    seq(|senders|, t requires 0 <= t < |senders| => senders[t].m)
  }

  /** A call got its token and was not given up for lack of time, but its message is too long. */
  function Overlong(maxSize: nat): SenderPc -> bool {
    (pc: SenderPc) => pc.SReturned? && |pc.m| > maxSize
  }

  lemma StepMessages(s: State, step: Step)
    requires Enabled(s, step)
    ensures Messages(Apply(s, step).senders) == Messages(s.senders) + Calls([step])
    ensures Apply(s, step).maxSize == s.maxSize
  {
    assert [step][1..] == [];
    assert Calls([step]) == if step.CallSend? then [step.m] else [];
  }

  lemma {:induction false} RunMessages(s: State, steps: seq<Step>, s': State)
    requires IsRun(s, steps, s')
    ensures Messages(s'.senders) == Messages(s.senders) + Calls(steps) && s'.maxSize == s.maxSize
    decreases |steps|
  {
    hide Enabled, Apply, Messages;
    if steps != [] {
      StepMessages(s, steps[0]);
      RunMessages(Apply(s, steps[0]), steps[1..], s');
      assert Calls(steps) == Calls([steps[0]]) + Calls(steps[1..]) by {
        assert [steps[0]][1..] == [];
      }
    } else {
      assert Messages(s.senders) + [] == Messages(s.senders);
    }
  }

  lemma MessagesOfRun(n: nat, maxSize: nat, steps: seq<Step>, s: State)
    requires IsRun(Init(n, maxSize), steps, s)
    ensures Messages(s.senders) == Calls(steps) && s.maxSize == maxSize
  {
    hide IsRun;
    RunMessages(Init(n, maxSize), steps, s);
    assert [] + Calls(steps) == Calls(steps);
  }

  // ---- What becomes of the messages ----

  /** The message of a call that has put it on the queue. */
  function EnteredBy(pc: SenderPc): multiset<Msg> {
    if pc.SRelease? || (pc.SReturned? && pc.ok) then multiset{pc.m} else multiset{}
  }

  function Entered(senders: seq<SenderPc>): multiset<Msg> {
    if senders == [] then multiset{} else Entered(senders[..|senders| - 1]) + EnteredBy(senders[|senders| - 1])
  }

  lemma {:induction false} EnteredUpdate(ss: seq<SenderPc>, t: nat, pc: SenderPc)
    requires t < |ss|
    ensures Entered(ss[t := pc]) + EnteredBy(ss[t]) == Entered(ss) + EnteredBy(pc)
  {
    hide EnteredBy;
    var n := |ss| - 1;
    var xs := ss[t := pc];
    if t == n {
      assert xs[..n] == ss[..n];
    } else {
      assert xs[..n] == ss[..n][t := pc];
      EnteredUpdate(ss[..n], t, pc);
      EnteredRegroup(Entered(ss[..n]), Entered(xs[..n]), EnteredBy(ss[t]), EnteredBy(pc), EnteredBy(ss[n]));
    }
  }

  lemma EnteredRegroup(a: multiset<Msg>, b: multiset<Msg>, x: multiset<Msg>, y: multiset<Msg>, last: multiset<Msg>)
    requires b + x == a + y
    ensures (b + last) + x == (a + last) + y
  {
    var l, r := (b + last) + x, (a + last) + y;
    forall e: Msg
      ensures l[e] == r[e]
    {
      assert (b + x)[e] == (a + y)[e];
    }
    assert l == r;
  }

  ghost predicate AllEntered(s: State) {
    multiset(s.enqueued) == Entered(s.senders)
  }

  lemma EnteredStep(s: State, step: Step)
    requires AllEntered(s) && Enabled(s, step)
    ensures AllEntered(Apply(s, step))
  {
    var s' := Apply(s, step);
    match step
    case CallSend(m) => EnteredNone(s.senders, SObtain(m));
    case Send(t) => EnteredSender(s, s', t);
    case SendTimeout(t) => EnteredSender(s, s', t);
    case Recv(t) => RecvSendsNothing(s, t);
    case _ =>
  }

  lemma RecvSendsNothing(s: State, t: nat)
    requires t < |s.receivers|
    ensures ApplyRecv(s, t).senders == s.senders && ApplyRecv(s, t).enqueued == s.enqueued
  {
    hide Put, Cut;
  }

  /** A step of one sender puts its message on the queue, or changes nothing about who has. */
  lemma SenderEnters(s: State, t: nat)
    requires t < |s.senders|
    ensures var s' := ApplySend(s, t);
      && s'.senders == s.senders[t := s'.senders[t]]
      && (if s.senders[t].SSend?
          then EnteredBy(s.senders[t]) == multiset{} && EnteredBy(s'.senders[t]) == multiset{s.senders[t].m}
               && s'.enqueued == s.enqueued + [s.senders[t].m]
          else EnteredBy(s.senders[t]) == EnteredBy(s'.senders[t]) && s'.enqueued == s.enqueued)
  {
    hide Put;
  }

  lemma EnteredSender(s: State, s': State, t: nat)
    requires AllEntered(s) && t < |s.senders|
    requires (Enabled(s, Send(t)) && s' == ApplySend(s, t))
          || (s.senders[t].SObtain? && s' == s.(senders := s.senders[t := STimedOut(s.senders[t].m)]))
    ensures AllEntered(s')
  {
    SenderEnters(s, t);
    hide ApplySend, Enabled, Entered;
    var x, y := EnteredBy(s.senders[t]), EnteredBy(s'.senders[t]);
    EnteredUpdate(s.senders, t, s'.senders[t]);
    assert s'.senders == s.senders[t := s'.senders[t]];
    EnteredMore(s.enqueued, s'.enqueued, Entered(s.senders), Entered(s'.senders), x, y, s.senders[t].m);
  }

  lemma EnteredNone(ss: seq<SenderPc>, pc: SenderPc)
    requires EnteredBy(pc) == multiset{}
    ensures Entered(ss + [pc]) == Entered(ss)
  {
    assert (ss + [pc])[..|ss|] == ss;
  }

  lemma EnteredMore(q: seq<Msg>, q': seq<Msg>, e: multiset<Msg>, e': multiset<Msg>,
                    x: multiset<Msg>, y: multiset<Msg>, m: Msg)
    requires multiset(q) == e && e' + x == e + y
    requires (x == y && q' == q) || (x == multiset{} && y == multiset{m} && q' == q + [m])
    ensures multiset(q') == e'
  {
    forall k: Msg
      ensures multiset(q')[k] == e'[k]
    {
      assert (e' + x)[k] == (e + y)[k];
    }
  }

  lemma {:induction false} RunEntered(s: State, steps: seq<Step>, s': State)
    requires AllEntered(s) && IsRun(s, steps, s')
    ensures AllEntered(s')
    decreases |steps|
  {
    hide AllEntered, Enabled, Apply;
    if steps != [] {
      EnteredStep(s, steps[0]);
      RunEntered(Apply(s, steps[0]), steps[1..], s');
    }
  }

  /**
   * Over all interleavings: call t of MsOS_SendToQueue is about the t-th message handed in, and it returns
   * success exactly if that message fits; the messages put on the queue are those of the calls that have
   * succeeded or are about to.
   */
  lemma SentMessages(n: nat, maxSize: nat, steps: seq<Step>, s: State)
    requires IsRun(Init(n, maxSize), steps, s)
    ensures |s.senders| == |Calls(steps)| && forall t | 0 <= t < |s.senders| :: s.senders[t].m == Calls(steps)[t]
    ensures forall t | 0 <= t < |s.senders| && s.senders[t].SReturned? ::
      s.senders[t].ok <==> |Calls(steps)[t]| <= maxSize
    ensures multiset(s.enqueued) == Entered(s.senders)
  {
    InitInv(n, maxSize);
    RunInv(Init(n, maxSize), steps, s);
    MessagesOfRun(n, maxSize, steps, s);
    assert AllEntered(Init(n, maxSize));
    RunEntered(Init(n, maxSize), steps, s);
    hide IsRun, Calls, Partition, Fifo, NeverEmpty, Receipts, Tokens, Init;
    assert forall t | 0 <= t < |s.senders| :: s.senders[t].m == Messages(s.senders)[t];
  }

  /** Who can go on: a call that waits for a token exactly when there is one, any other that has not returned. */
  lemma EnabledIff(s: State, t: nat)
    ensures Enabled(s, Send(t)) <==>
      t < |s.senders| && match s.senders[t]
                         case SObtain(_) => s.sendSem >= 1
                         case SReturned(_, _) => false
                         case STimedOut(_) => false
                         case _ => true
    ensures Enabled(s, Recv(t)) <==>
      t < |s.receivers| && match s.receivers[t]
                           case RObtain(_) => s.recvSem >= 1
                           case RReturned(_, _, _) => false
                           case RTimeout => false
                           case REmpty => false
                           case _ => true
  {
  }

  lemma {:induction false} SameCount<T>(s: seq<T>, f: T -> bool, g: T -> bool)
    requires forall i | 0 <= i < |s| :: f(s[i]) <==> g(s[i])
    ensures Count(s, f) == Count(s, g)
  {
    if s != [] {
      SameCount(s[..|s| - 1], f, g);
    }
  }

  lemma {:induction false} CountZeroIff<T>(s: seq<T>, f: T -> bool)
    ensures Count(s, f) == 0 <==> forall i | 0 <= i < |s| :: !f(s[i])
  {
    if s != [] {
      CountZeroIff(s[..|s| - 1], f);
    }
  }

  /**
   * The tokens for free nodes at rest: one is missing for each over-long message that was not given up
   * for lack of time. A queue whose callers keep to maxSizeOfMsg never loses any.
   */
  lemma TokensAtRest(n: nat, maxSize: nat, steps: seq<Step>, s: State)
    requires IsRun(Init(n, maxSize), steps, s) && AtRest(s)
    ensures Messages(s.senders) == Calls(steps)
    ensures s.recvSem == |s.used|
    ensures |s.free| == s.sendSem + Count(s.senders, Overlong(maxSize))
    ensures s.sendSem == |s.free|
      <==> (forall t | 0 <= t < |s.senders| && s.senders[t].SReturned? :: |Calls(steps)[t]| <= maxSize)
  {
    InitInv(n, maxSize);
    RunInv(Init(n, maxSize), steps, s);
    MessagesOfRun(n, maxSize, steps, s);
    CountNone(s.senders, Claiming());
    CountNone(s.senders, Announcing());
    CountNone(s.receivers, Refunding());
    CountNone(s.receivers, Taking());
    SameCount(s.senders, Rejected(), Overlong(maxSize));
    CountZeroIff(s.senders, Overlong(maxSize));
  }

  /** As long as every message fits, no token is lost at any time, not only at rest. */
  lemma NothingLost(n: nat, maxSize: nat, steps: seq<Step>, s: State)
    requires IsRun(Init(n, maxSize), steps, s)
    requires forall i | 0 <= i < |Calls(steps)| :: |Calls(steps)[i]| <= maxSize
    ensures |s.free| == s.sendSem + Count(s.senders, Claiming()) + Count(s.receivers, Refunding())
    ensures |s.used| == s.recvSem + Count(s.receivers, Taking()) + Count(s.senders, Announcing())
  {
    hide IsRun, Calls, Partition, Fifo, NeverEmpty, Receipts, Init;
    InitInv(n, maxSize);
    RunInv(Init(n, maxSize), steps, s);
    MessagesOfRun(n, maxSize, steps, s);
    forall t | 0 <= t < |s.senders|
      ensures !Rejected()(s.senders[t])
    {
      assert Messages(s.senders)[t] == Calls(steps)[t];
    }
    CountNone(s.senders, Rejected());
  }

  /** Every over-long message costs one place for good: this is what an empty queue at rest can still take. */
  lemma CapacityLeft(n: nat, maxSize: nat, steps: seq<Step>, s: State)
    requires IsRun(Init(n, maxSize), steps, s) && AtRest(s) && s.used == []
    ensures s.sendSem + Count(s.senders, Overlong(maxSize)) == n
  {
    TokensAtRest(n, maxSize, steps, s);
    InitInv(n, maxSize);
    RunInv(Init(n, maxSize), steps, s);
    RunNodes(Init(n, maxSize), steps, s);
    forall k | 0 <= k < n
      ensures k in s.free
    {
      NodeAtRest(s, k);
    }
    AllOnce(s.free, n);
  }

  lemma {:induction false} RunNodes(s: State, steps: seq<Step>, s': State)
    requires IsRun(s, steps, s')
    ensures |s'.place| == |s.place|
    decreases |steps|
  {
    if steps != [] {
      RunNodes(Apply(s, steps[0]), steps[1..], s');
    }
  }

  lemma NodeAtRest(s: State, k: Node)
    requires Partition(s) && AtRest(s) && k < |s.place|
    ensures k in s.free || k in s.used
  {
  }

  /** A list that holds each number below n once, and nothing else, has n elements. */
  lemma {:induction false} AllOnce(list: seq<Node>, n: nat)
    requires forall i, j | 0 <= i < j < |list| :: list[i] != list[j]
    requires forall i | 0 <= i < |list| :: list[i] < n
    requires forall k | 0 <= k < n :: k in list
    ensures |list| == n
  {
    if n > 0 {
      assert n - 1 in list;
      var i :| 0 <= i < |list| && list[i] == n - 1;
      var rest := list[..i] + list[i + 1..];
      forall k | 0 <= k < n - 1
        ensures k in rest
      {
        assert k in list;
        var j :| 0 <= j < |list| && list[j] == k;
        assert rest[if j < i then j else j - 1] == k;
      }
      AllOnce(rest, n - 1);
    }
  }

  /** One over-long message to a queue of one node: the node is free again, but no token is left for it. */
  lemma LeakExample(m: Msg)
    requires |m| == 2
    ensures exists s :: (IsRun(Init(1, 1), [CallSend(m), Send(0), Send(0), Send(0), Send(0)], s)
                         && s.free == [0] && s.sendSem == 0 && s.senders == [SReturned(m, false)])
  {
    var s0 := Init(1, 1);
    var s1 := Apply(s0, CallSend(m));
    var s2 := Apply(s1, Send(0));
    var s3 := Apply(s2, Send(0));
    assert s2.free == [0] && s3.free == [];
    var s4 := Apply(s3, Send(0));
    var s5 := Apply(s4, Send(0));
    assert IsRun(s5, [], s5);
    assert IsRun(s4, [Send(0)], s5);
    assert IsRun(s3, [Send(0), Send(0)], s5);
    assert IsRun(s2, [Send(0), Send(0), Send(0)], s5);
    assert IsRun(s1, [Send(0), Send(0), Send(0), Send(0)], s5);
    assert IsRun(s0, [CallSend(m), Send(0), Send(0), Send(0), Send(0)], s5);
  }
}
