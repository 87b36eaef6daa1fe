/** End to end: fragmented and single commands over one connection. */
module Transfers {
  import opened Bytes
  import opened Frame
  import opened Pending
  import opened CmdFifo
  import opened PackSocket
  import opened Reassembly

  const PACKAGE_MAX_LEN: nat := 1600
  const CLIENT_MSG_REBACK: u16 := 0x2020
  const REBACK_MIPI_CODE: u16 := 2

  /** The fragments of one command in order, and the single-frame commands sent behind each of them. */
  datatype Transfer = Transfer(frags: seq<Packet>, between: seq<seq<Packet>>)

  predicate IsSingle(p: Packet) { p.lastNo == 0 }

  predicate WellFormed(t: Transfer) {
    && 0 < |t.frags| == |t.between| && t.frags[0].lastNo == |t.frags| - 1
    && (forall k | 0 <= k < |t.frags| :: t.frags[k].cmd == t.frags[0].cmd)
    && (forall k, i | 0 <= k < |t.between| && 0 <= i < |t.between[k]| :: IsSingle(t.between[k][i]))
    && (forall k, i | 0 <= k < |t.between| - 1 && 0 <= i < |t.between[k]| ::
          t.between[k][i].cmd != t.frags[0].cmd)
  }

  /** The packets of a transfer from fragment k on. */
  function Packets(t: Transfer, k: nat): seq<Packet>
    requires k <= |t.frags| == |t.between|
    decreases |t.frags| - k
  {
    if k == |t.frags| then [] else [t.frags[k]] + t.between[k] + Packets(t, k + 1)
  }

  /** The bytes a list of packets carries. */
  function Carried(packets: seq<Packet>): seq<byte> {
    if packets == [] then [] else Carried(packets[..|packets| - 1]) + Sent(packets[|packets| - 1].data)
  }

  function AsMessage(p: Packet): Message {
    Message(p.cmd, p.ptype, p.ipnum, Sent(p.data))
  }

  function AsMessages(ps: seq<Packet>): seq<Message> {
    seq(|ps|, i requires 0 <= i < |ps| => AsMessage(ps[i]))
  }

  /** The whole command: its bytes in order, under the type and ipnum of the last fragment. */
  function Whole(frags: seq<Packet>): Message
    requires frags != []
  {
    var last := frags[|frags| - 1];
    Message(last.cmd, last.ptype, last.ipnum, Carried(frags))
  }

  /** The commands a receiver should see from fragment k on. */
  function Expected(t: Transfer, k: nat): seq<Message>
    requires k <= |t.frags| == |t.between|
    decreases |t.frags| - k
  {
    if k == |t.frags| then []
    else (if k + 1 == |t.frags| then [Whole(t.frags)] else []) + AsMessages(t.between[k]) + Expected(t, k + 1)
  }

  function AllPackets(ts: seq<Transfer>): seq<Packet>
    requires forall t | t in ts :: WellFormed(t)
  {
    if ts == [] then [] else assert WellFormed(ts[0]); Packets(ts[0], 0) + AllPackets(ts[1..])
  }

  function AllExpected(ts: seq<Transfer>): seq<Message>
    requires forall t | t in ts :: WellFormed(t)
  {
    if ts == [] then [] else assert WellFormed(ts[0]); Expected(ts[0], 0) + AllExpected(ts[1..])
  }

  lemma {:induction false} PayloadCarried(frags: seq<Packet>)
    ensures Payload(Arrived(frags)) == Carried(frags)
  {
    hide Received;
    if frags != [] {
      var n := |frags| - 1;
      assert Arrived(frags)[..n] == Arrived(frags[..n]);
      PayloadCarried(frags[..n]);
      ReceivedFields(frags[n]);
    }
  }

  lemma ReceivedFields(p: Packet)
    ensures var i := Received(p);
      && i.valid == Sent(p.data) && i.cmd == p.cmd && i.ptype == p.ptype && i.ipnum == p.ipnum && i.lastNo == p.lastNo
      && CrcOk(i)
  {
    EncodeDecode(p);
  }

  /** Single-frame commands pass through, whatever other command is in flight. */
  lemma {:induction false} RunSingles(p: seq<Info>, singles: seq<Packet>)
    requires forall i | 0 <= i < |singles| :: IsSingle(singles[i])
    requires forall i, k | 0 <= i < |singles| && 0 <= k < |p| :: p[k].cmd != singles[i].cmd
    ensures Run(Live(p), Arrived(singles)) == Ran(Live(p), AsMessages(singles))
    decreases |singles|
  {
    hide Step, Received, CrcOk;
    if singles != [] {
      var s := singles[0];
      ReceivedFields(s);
      StepSingle(p, Received(s));
      assert Arrived(singles)[1..] == Arrived(singles[1..]);
      RunSingles(p, singles[1..]);
      assert AsMessages(singles) == [AsMessage(s)] + AsMessages(singles[1..]);
    }
  }

  /** One fragment: kept until it is the last one announced, then the whole command comes out. */
  lemma RunFragment(t: Transfer, k: nat)
    requires WellFormed(t) && k < |t.frags|
    ensures Run(Live(Arrived(t.frags[..k])), [Received(t.frags[k])])
         == if k + 1 == |t.frags| then Ran(Live([]), [Whole(t.frags)]) else Ran(Live(Arrived(t.frags[..k + 1])), [])
  {
    hide Step, Received, CrcOk, Payload, Carried;
    var p, i := Arrived(t.frags[..k]), Received(t.frags[k]);
    ReceivedFields(t.frags[k]);
    forall j | 0 <= j < k
      ensures p[j].cmd == i.cmd
    {
      ReceivedFields(t.frags[j]);
    }
    assert p + [i] == Arrived(t.frags[..k + 1]);
    ReceivedFields(t.frags[0]);
    assert (p + [i])[0] == Received(t.frags[0]);
    StepSame(p, i);
    RunOne(Live(p), i);
    if k + 1 == |t.frags| {
      assert t.frags[..k + 1] == t.frags;
      PayloadCarried(t.frags);
    }
  }

  /** A transfer from fragment k on, with the first k fragments pending. */
  lemma {:induction false} RunTransfer(t: Transfer, k: nat)
    requires WellFormed(t) && k < |t.frags|
    ensures Run(Live(Arrived(t.frags[..k])), Arrived(Packets(t, k))) == Ran(Live([]), Expected(t, k))
    decreases |t.frags| - k
  {
    hide Step, Received, CrcOk, Run;
    var p, f, b := Arrived(t.frags[..k]), t.frags[k], t.between[k];
    RunFragment(t, k);
    var r := Run(Live(p), [Received(f)]);
    forall i, j | 0 <= i < |b| && 0 <= j < |r.pending.p|
      ensures r.pending.p[j].cmd != b[i].cmd
    {
      ReceivedFields(t.frags[j]);
    }
    RunSingles(r.pending.p, b);
    var rest := Packets(t, k + 1);
    assert Arrived(Packets(t, k)) == [Received(f)] + (Arrived(b) + Arrived(rest));
    RunAppend(Live(p), [Received(f)], Arrived(b) + Arrived(rest));
    RunAppend(r.pending, Arrived(b), Arrived(rest));
    if k + 1 == |t.frags| {
      RunEmpty(Live([]));
      assert Arrived(rest) == [];
      assert AsMessages(b) + [] == AsMessages(b);
      assert Expected(t, k) == [Whole(t.frags)] + AsMessages(b) + [];
      assert r.msgs + AsMessages(b) == Expected(t, k);
    } else {
      RunTransfer(t, k + 1);
      assert Expected(t, k) == [] + AsMessages(b) + Expected(t, k + 1);
      assert r.msgs + (AsMessages(b) + Expected(t, k + 1)) == Expected(t, k);
    }
  }

  /** Any number of transfers, one after the other. */
  lemma {:induction false} RunTransfers(ts: seq<Transfer>)
    requires forall t | t in ts :: WellFormed(t)
    ensures Run(Live([]), Arrived(AllPackets(ts))) == Ran(Live([]), AllExpected(ts))
  {
    hide Run, Packets, Expected;
    if ts == [] {
      assert Arrived(AllPackets(ts)) == [];
      RunEmpty(Live([]));
    } else {
      var t := ts[0];
      assert WellFormed(t);
      TransferStarts(t);
      RunTransfers(ts[1..]);
      ArrivedAppend(Packets(t, 0), AllPackets(ts[1..]));
      RunAppend(Live([]), Arrived(Packets(t, 0)), Arrived(AllPackets(ts[1..])));
    }
  }

  lemma TransferStarts(t: Transfer)
    requires WellFormed(t)
    ensures Run(Live([]), Arrived(Packets(t, 0))) == Ran(Live([]), Expected(t, 0))
  {
    hide Run, Packets, Expected;
    assert Arrived(t.frags[..0]) == [];
    RunTransfer(t, 0);
  }

  /**
   * The transport as a whole. Commands, fragmented or not, with single-frame commands of other ids
   * between fragments, are encoded, cut anywhere into chunks of at most half the ring, and served:
   * no chunk is refused, nothing stays behind, and exactly the sent commands come out, in order.
   */
  lemma EndToEnd(ts: seq<Transfer>, chunks: seq<seq<byte>>)
    requires forall t | t in ts :: WellFormed(t)
    requires FramesWithin(AllPackets(ts), 20480)
    requires forall k | 0 <= k < |chunks| :: |chunks[k]| <= 20480
    requires Concat(chunks) == Wire(AllPackets(ts))
    ensures NeverRefused([], Live([]), chunks)
    ensures Serve([], Live([]), chunks) == Drained([], Live([]), AllExpected(ts))
  {
    ServeWire(AllPackets(ts), chunks, Live([]));
    RunTransfers(ts);
  }

  /** The special case of single-frame commands only. */
  lemma SinglesRoundTrip(singles: seq<Packet>, chunks: seq<seq<byte>>)
    requires forall i | 0 <= i < |singles| :: IsSingle(singles[i])
    requires FramesWithin(singles, 20480)
    requires forall k | 0 <= k < |chunks| :: |chunks[k]| <= 20480
    requires Concat(chunks) == Wire(singles)
    ensures NeverRefused([], Live([]), chunks)
    ensures Serve([], Live([]), chunks) == Drained([], Live([]), AsMessages(singles))
  {
    ServeWire(singles, chunks, Live([]));
    RunSingles([], singles);
  }

  // ---- client_rebackMipiCode ----

  function Min(a: nat, b: nat): nat { if a < b then a else b }

  /** Fragment i of client_rebackMipiCode: the number fields are truncated to sixteen bits on the way. */
  function Fragment(code: seq<byte>, i: nat): Packet
    requires i <= |code| / 1600
  {
    Packet(0x2020, 0, i % 0x1_0000, (|code| / 1600) % 0x1_0000, 2,
           code[i * 1600..Min((i + 1) * 1600, |code|)])
  }

  function Fragments(code: seq<byte>): (f: seq<Packet>)
    ensures |f| == |code| / 1600 + 1
  {
    seq(|code| / 1600 + 1, i requires 0 <= i < |code| / 1600 + 1 => Fragment(code, i))
  }

  /** client_rebackMipiCode: the calls of sendSocketCmd it makes. */
  method ClientRebackMipiCode(code: seq<byte>) returns (sent: seq<Packet>)
    ensures sent == if |code| > 0 then Fragments(code) else []
  {
    sent := [];
    if |code| > 0 {
      var remain := |code|;
      var lastNo := |code| / PACKAGE_MAX_LEN;
      var i := 0;
      while i < lastNo + 1
        invariant 0 <= i <= lastNo + 1
        invariant sent == Fragments(code)[..i]
        invariant i <= lastNo ==> remain == |code| - i * PACKAGE_MAX_LEN
      {
        var sendLen := if remain >= PACKAGE_MAX_LEN then PACKAGE_MAX_LEN else remain;
        var data := code[i * PACKAGE_MAX_LEN..i * PACKAGE_MAX_LEN + sendLen];
        sent := sent + [Packet(CLIENT_MSG_REBACK, 0, i % 0x1_0000, lastNo % 0x1_0000, REBACK_MIPI_CODE, data)];
        remain := remain - sendLen;
        i := i + 1;
      }
    }
  }

  lemma {:induction false} CarriedFragments(code: seq<byte>, n: nat)
    requires n <= |code| / 1600 + 1
    ensures Carried(Fragments(code)[..n]) == code[..Min(n * 1600, |code|)]
  {
    if n != 0 {
      var fs := Fragments(code);
      assert fs[..n][..n - 1] == fs[..n - 1];
      CarriedFragments(code, n - 1);
      assert Sent(fs[n - 1].data) == fs[n - 1].data;
    }
  }

  /** The transfer made of the first n fragments, with given single-frame commands behind each. */
  lemma FirstFragments(code: seq<byte>, n: nat, between: seq<seq<Packet>>)
    requires n == (|code| / 1600) % 0x1_0000 + 1 == |between|
    requires forall k, i | 0 <= k < |between| && 0 <= i < |between[k]| ::
      IsSingle(between[k][i]) && between[k][i].cmd != 0x2020
    ensures var t := Transfer(Fragments(code)[..n], between);
      WellFormed(t) && Whole(t.frags) == Message(0x2020, 2, 0,
                                                 code[..Min(n * 1600, |code|)])
  {
    hide Carried;
    CarriedFragments(code, n);
  }

  /**
   * A MIPI code is reassembled from its fragments, including the empty last one on exact multiples of
   * the packet length, with single-frame commands of other ids allowed in between.
   */
  lemma MipiReassembled(code: seq<byte>, between: seq<seq<Packet>>)
    requires |code| / 1600 < 0x1_0000
    requires |between| == |code| / 1600 + 1
    requires forall k, i | 0 <= k < |between| && 0 <= i < |between[k]| ::
      IsSingle(between[k][i]) && between[k][i].cmd != 0x2020
    ensures WellFormed(Transfer(Fragments(code), between))
    ensures Whole(Fragments(code)) == Message(0x2020, 2, 0, code)
  {
    var n := |between|;
    assert Fragments(code)[..n] == Fragments(code);
    FirstFragments(code, n, between);
  }

  /** The single-frame commands of several gaps, in order. */
  function Singles(between: seq<seq<Packet>>): seq<Message> {
    if between == [] then [] else AsMessages(between[0]) + Singles(between[1..])
  }

  lemma {:induction false} ExpectedShape(t: Transfer, k: nat)
    requires k < |t.frags| == |t.between|
    ensures var n := |t.frags| - 1;
      Expected(t, k) == Singles(t.between[k..n]) + [Whole(t.frags)] + AsMessages(t.between[n])
    decreases |t.frags| - k
  {
    hide Whole, AsMessages;
    var n := |t.frags| - 1;
    var last := [Whole(t.frags)] + AsMessages(t.between[n]);
    if k == n {
      assert Singles(t.between[k..n]) == [];
      assert last + [] == last;
    } else {
      ExpectedShape(t, k + 1);
      assert t.between[k..n][1..] == t.between[k + 1..n];
      assert Expected(t, k) == [] + AsMessages(t.between[k]) + Expected(t, k + 1);
    }
  }

  lemma {:induction false} PacketsWithin(t: Transfer, k: nat, bound: nat)
    requires k <= |t.frags| == |t.between| && FramesWithin(t.frags, bound)
    requires forall j | 0 <= j < |t.between| :: FramesWithin(t.between[j], bound)
    ensures FramesWithin(Packets(t, k), bound)
    decreases |t.frags| - k
  {
    if k < |t.frags| {
      PacketsWithin(t, k + 1, bound);
    }
  }

  /**
   * A MIPI code over the whole transport: fragmented, with single-frame commands of other ids between the
   * fragments and any behind the last, cut anywhere by the network. No chunk is refused, and the receiver
   * sees the singles and, when its last fragment has come, the code.
   */
  lemma MipiEndToEnd(code: seq<byte>, between: seq<seq<Packet>>, chunks: seq<seq<byte>>)
    requires |code| / 1600 < 0x1_0000
    requires |between| == |code| / 1600 + 1
    requires forall k, i | 0 <= k < |between| && 0 <= i < |between[k]| ::
      IsSingle(between[k][i]) && between[k][i].cmd != 0x2020
    requires forall k | 0 <= k < |between| :: FramesWithin(between[k], 20480)
    requires forall k | 0 <= k < |chunks| :: |chunks[k]| <= 20480
    requires Concat(chunks) == Wire(Packets(Transfer(Fragments(code), between), 0))
    ensures NeverRefused([], Live([]), chunks)
    ensures var n := |between| - 1;
      Serve([], Live([]), chunks)
      == Drained([], Live([]), Singles(between[..n]) + [Message(0x2020, 2, 0, code)]
                         + AsMessages(between[n]))
  {
    hide Serve, Wire, Packets, Expected, Whole, WellFormed, Run;
    var t := Transfer(Fragments(code), between);
    MipiReassembled(code, between);
    PacketsWithin(t, 0, 20480);
    ServeWire(Packets(t, 0), chunks, Live([]));
    TransferStarts(t);
    ExpectedShape(t, 0);
    assert between[0..|between| - 1] == between[..|between| - 1];
  }

  function NoSingles(n: nat): (b: seq<seq<Packet>>)
    ensures |b| == n
  {
    seq(n, i => [])
  }

  lemma {:induction false} PlainPackets(frags: seq<Packet>, k: nat)
    requires k <= |frags|
    ensures Packets(Transfer(frags, NoSingles(|frags|)), k) == frags[k..]
    decreases |frags| - k
  {
    if k < |frags| {
      PlainPackets(frags, k + 1);
    }
  }

  lemma {:induction false} PlainExpected(frags: seq<Packet>, k: nat)
    requires k < |frags|
    ensures Expected(Transfer(frags, NoSingles(|frags|)), k) == [Whole(frags)]
    decreases |frags| - k
  {
    hide Whole;
    var t := Transfer(frags, NoSingles(|frags|));
    assert AsMessages(t.between[k]) == [];
    if k + 1 < |frags| {
      PlainExpected(frags, k + 1);
    }
  }

  /** The first lastNo+1 fragments always come out as one command. */
  lemma FirstDelivered(code: seq<byte>, n: nat)
    requires n == (|code| / 1600) % 0x1_0000 + 1
    ensures Run(Live([]), Arrived(Fragments(code)[..n]))
         == Ran(Live([]), [Message(0x2020, 2, 0, code[..Min(n * 1600, |code|)])])
  {
    hide Run, Whole, WellFormed, Packets, Expected;
    var fs := Fragments(code)[..n];
    FirstFragments(code, n, NoSingles(n));
    TransferStarts(Transfer(fs, NoSingles(n)));
    PlainPackets(fs, 0);
    PlainExpected(fs, 0);
    assert fs[0..] == fs;
  }

  /**
   * The fragment count travels in sixteen bits, and that is exactly the limit: the receiver sees the
   * code as one command if and only if it has less than 65536 packet lengths.
   */
  lemma MipiRoundTripIff(code: seq<byte>)
    requires code != []
    ensures Run(Live([]), Arrived(Fragments(code))).msgs == [Message(0x2020, 2, 0, code)]
       <==> |code| / 1600 < 0x1_0000
  {
    hide Run;
    var fs := Fragments(code);
    var n := (|code| / 1600) % 0x1_0000 + 1;
    FirstDelivered(code, n);
    if |code| / 1600 < 0x1_0000 {
      assert fs[..n] == fs;
      assert code[..|code|] == code;
    } else {
      assert fs == fs[..n] + fs[n..];
      ArrivedAppend(fs[..n], fs[n..]);
      RunAppend(Live([]), Arrived(fs[..n]), Arrived(fs[n..]));
      assert Run(Live([]), Arrived(fs)).msgs[0].data == code[..n * 1600];
      assert |code[..n * 1600]| < |code|;
    }
  }
}
