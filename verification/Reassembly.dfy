/** What the decoder of packsocket.c makes of a whole stream of frames. */
module Reassembly {
  import opened Bytes
  import opened Frame
  import opened Pending
  import opened CmdFifo
  import opened PackSocket
  import opened Crc

  datatype Ran = Ran(pending: List, msgs: seq<Message>)

  /** The decoder over a list of frames that have arrived. */
  ghost function Run(l: List, infos: seq<Info>): Ran
    decreases |infos|
  {
    if infos == [] then Ran(l, [])
    else
      var s := Step(l, infos[0]);
      var r := Run(s.pending, infos[1..]);
      r.(msgs := Shown(s.msg) + r.msgs)
  }

  lemma {:induction false} RunAppend(l: List, a: seq<Info>, b: seq<Info>)
    ensures var ra := Run(l, a);
      var rb := Run(ra.pending, b);
      Run(l, a + b) == Ran(rb.pending, ra.msgs + rb.msgs)
    decreases |a|
  {
    hide Step;
    if a == [] {
      assert a + b == b;
      assert [] + Run(l, b).msgs == Run(l, b).msgs;
    } else {
      var s := Step(l, a[0]);
      assert (a + b)[1..] == a[1..] + b;
      RunAppend(s.pending, a[1..], b);
      var ra := Run(s.pending, a[1..]);
      var rb := Run(ra.pending, b);
      assert Shown(s.msg) + (ra.msgs + rb.msgs) == (Shown(s.msg) + ra.msgs) + rb.msgs;
    }
  }

  lemma RunOne(l: List, i: Info)
    ensures var s := Step(l, i); Run(l, [i]) == Ran(s.pending, Shown(s.msg))
  {
    hide Step;
    var s := Step(l, i);
    assert [i][1..] == [];
    assert Run(s.pending, []) == Ran(s.pending, []);
    assert Shown(s.msg) + [] == Shown(s.msg);
  }

  // ---- At most one fragmented command in flight ----

  /** All pending fragments belong to one command. */
  predicate OneCommand(p: seq<Info>) {
    forall i | 0 <= i < |p| :: p[i].cmd == p[0].cmd
  }

  /** No command has all the fragments its first one announced. */
  ghost predicate AllIncomplete(p: seq<Info>) {
    forall cmd: u16 :: !Complete(p, cmd)
  }

  /** i may arrive now: it continues the fragmented command, or is a whole command by itself, or is corrupt. */
  predicate MayFollow(p: seq<Info>, i: Info) {
    p == [] || i.cmd == p[0].cmd || i.lastNo == 0 || !CrcOk(i)
  }

  ghost predicate Orderly(l: List, infos: seq<Info>)
    decreases |infos|
  {
    infos == [] || ((l.Live? ==> MayFollow(l.p, infos[0])) && Orderly(Step(l, infos[0]).pending, infos[1..]))
  }

  /** A fragment at the end of the list is not sandwiched, and neither is one of its only command. */
  lemma NoSandwich(p: seq<Info>, i: Info)
    requires (forall k | 0 <= k < |p| :: p[k].cmd == i.cmd) || (forall k | 0 <= k < |p| :: p[k].cmd != i.cmd)
    ensures !Sandwiched(p + [i], i.cmd)
  {
  }

  /** A frame that belongs to the command in flight. */
  lemma StepSame(p: seq<Info>, i: Info)
    requires forall k | 0 <= k < |p| :: p[k].cmd == i.cmd
    requires CrcOk(i)
    ensures Complete(p + [i], i.cmd) <==> (p + [i])[0].lastNo <= |p|
    ensures Step(Live(p), i) == if (p + [i])[0].lastNo <= |p|
                                then Stepped(Live([]), Some(Message(i.cmd, i.ptype, i.ipnum, Payload(p + [i]))))
                                else Stepped(Live(p + [i]), None)
  {
    NoSandwich(p, i);
    hide Matching, Payload, Others, Sandwiched;
    AllMatch(p + [i], i.cmd);
  }

  /** A whole command of another id, while a fragmented one may be in flight. */
  lemma StepSingle(p: seq<Info>, i: Info)
    requires forall k | 0 <= k < |p| :: p[k].cmd != i.cmd
    requires CrcOk(i) && i.lastNo == 0
    ensures Step(Live(p), i) == Stepped(Live(p), Some(Message(i.cmd, i.ptype, i.ipnum, i.valid)))
  {
    NoneMatch(p, i.cmd);
    AllMatch([i], i.cmd);
    MatchingAppend(p, [i], i.cmd);
    NoSandwich(p, i);
    PayloadOne(i);
    hide Matching, Payload, Others, Sandwiched;
    assert Matching(p + [i], i.cmd) == [i];
  }

  lemma PayloadOne(i: Info)
    ensures Payload([i]) == i.valid
  {
    assert Payload([i][..0]) + i.valid == i.valid;
  }

  /** A corrupt frame changes nothing and delivers nothing. */
  lemma StepCorrupt(p: seq<Info>, i: Info)
    requires AllIncomplete(p) && !CrcOk(i)
    ensures Step(Live(p), i) == Stepped(Live(p), None)
  {
  }

  /** A damaged frame with a checksum field other than zero neither changes the list nor delivers anything. */
  lemma DamagedFrameIgnored(p: seq<Info>, sent: Packet, at: nat, w: seq<byte>)
    requires AllIncomplete(p) && CrcField(sent.data) != 0
    requires at + |w| <= |Sent(sent.data)| && |w| <= 4 && w != Sent(sent.data)[at..at + |w|]
    ensures var f := Damage(Encode(sent), at, w);
      IsFrame(f) && Step(Live(p), Decode(f)) == Stepped(Live(p), None)
  {
    hide Decode, IsFrame, CrcOk, Step;
    DamageNoticed(sent, at, w);
    StepCorrupt(p, Decode(Damage(Encode(sent), at, w)));
  }

  /** The other side: the four bytes of the polynomial may be damaged at will, and are delivered. */
  lemma DamageUnnoticed(p: seq<Info>, w: seq<byte>)
    requires |w| == 4 && w != POLY_BYTES
    requires forall k | 0 <= k < |p| :: p[k].cmd != 1
    ensures var f := Damage(Encode(Packet(1, 0, 0, 0, 0, POLY_BYTES)), 0, w);
      IsFrame(f) && CrcOk(Decode(f)) && Step(Live(p), Decode(f)) == Stepped(Live(p), Some(Message(1, 0, 0, w)))
  {
    hide IsFrame, CrcOk, Checksum, Damage, Encode, Step;
    ZeroChecksumExists();
    var sent := Packet(1, 0, 0, 0, 0, POLY_BYTES);
    assert Sent(sent.data) == POLY_BYTES;
    DamageNoticed(sent, 0, w);
    DamagedFields(sent, 0, w);
    var f := Damage(Encode(sent), 0, w);
    assert POLY_BYTES[..0] + w + POLY_BYTES[0 + |w|..] == w;
    hide Decode;
    StepSingle(p, Decode(f));
  }

  lemma IncompleteOne(p: seq<Info>)
    requires OneCommand(p)
    ensures AllIncomplete(p) <==> (p == [] || |p| <= p[0].lastNo)
  {
    hide Matching;
    if p == [] {
      forall cmd: u16 ensures !Complete(p, cmd) { NoneMatch(p, cmd); }
    } else {
      AllMatch(p, p[0].cmd);
      forall cmd: u16 | cmd != p[0].cmd ensures !Complete(p, cmd) { NoneMatch(p, cmd); }
      assert AllIncomplete(p) ==> !Complete(p, p[0].cmd);
    }
  }

  /**
   * One pass of parseSocketCmd with at most one fragmented command in flight: every pending command
   * keeps fewer fragments than it announced, and _destoryRecvList2 removes the delivered command alone.
   */
  lemma StepKeeps(p: seq<Info>, i: Info)
    requires OneCommand(p) && AllIncomplete(p) && MayFollow(p, i)
    ensures var s := Step(Live(p), i);
      && s.pending.Live? && OneCommand(s.pending.p) && AllIncomplete(s.pending.p)
      && (!CrcOk(i) ==> s == Stepped(Live(p), None))
      && (s.msg.Some? ==> s.pending == Live(Others(p + [i], i.cmd)))
  {
    hide Matching, Payload, Others, Step, Complete, AllIncomplete, CrcOk;
    IncompleteOne(p);
    if !CrcOk(i) {
      StepCorrupt(p, i);
    } else if p == [] || i.cmd == p[0].cmd {
      StepSame(p, i);
      IncompleteOne(Step(Live(p), i).pending.p);
      AllMatch(p + [i], i.cmd);
    } else {
      StepSingle(p, i);
      NoneMatch(p, i.cmd);
      AllMatch([i], i.cmd);
      MatchingAppend(p, [i], i.cmd);
    }
  }

  /**
   * The same over a whole run, and at every point of it, since every prefix of an orderly run is one: no
   * freed node is left on the list, let alone read.
   */
  lemma {:induction false} RunKeeps(p: seq<Info>, infos: seq<Info>)
    requires OneCommand(p) && AllIncomplete(p) && Orderly(Live(p), infos)
    ensures var l := Run(Live(p), infos).pending; l.Live? && OneCommand(l.p) && AllIncomplete(l.p)
    decreases |infos|
  {
    hide Step, AllIncomplete, MayFollow;
    if infos != [] {
      StepKeeps(p, infos[0]);
      RunKeeps(Step(Live(p), infos[0]).pending.p, infos[1..]);
    }
  }

  lemma {:induction false} OrderlyPrefix(l: List, a: seq<Info>, b: seq<Info>)
    requires Orderly(l, a + b)
    ensures Orderly(l, a)
    decreases |a|
  {
    hide Step, MayFollow;
    if a != [] {
      assert (a + b)[1..] == a[1..] + b;
      OrderlyPrefix(Step(l, a[0]).pending, a[1..], b);
    }
  }

  // ---- When a freed node is read ----

  /** Frame k completes a command that is sandwiched at that moment. */
  ghost predicate Sandwiches(l: List, infos: seq<Info>, k: nat)
    requires k < |infos|
  {
    var before := Run(l, infos[..k]).pending;
    before.Live? && SandwichesNow(before.p, infos[k])
  }

  ghost predicate SandwichesNow(p: seq<Info>, i: Info) {
    var p1 := if CrcOk(i) then p + [i] else p;
    Complete(p1, i.cmd) && Sandwiched(p1, i.cmd)
  }

  lemma StepPending(l: List, i: Info)
    ensures Step(l, i).pending == Dangling <==> l.Live? && SandwichesNow(l.p, i)
    ensures Step(l, i).pending == Crashed <==> !l.Live?
  {
  }

  lemma LastStep(l: List, infos: seq<Info>)
    requires infos != []
    ensures var n := |infos| - 1;
      Run(l, infos).pending == Step(Run(l, infos[..n]).pending, infos[n]).pending
  {
    var n := |infos| - 1;
    assert infos == infos[..n] + [infos[n]];
    RunAppend(l, infos[..n], [infos[n]]);
    RunOne(Run(l, infos[..n]).pending, infos[n]);
    hide Run, Step;
  }

  /**
   * A run reads a freed node if and only if some frame in it completed a command that was sandwiched at
   * that moment, and another frame followed, whichever it was.
   */
  lemma {:induction false} CrashIff(p: seq<Info>, infos: seq<Info>)
    ensures Run(Live(p), infos).pending == Crashed
        <==> exists k | 0 <= k < |infos| - 1 :: Sandwiches(Live(p), infos, k)
    ensures Run(Live(p), infos).pending == Dangling
        <==> infos != [] && Sandwiches(Live(p), infos, |infos| - 1)
    decreases |infos|
  {
    hide Run, Step, SandwichesNow;
    if infos == [] {
      RunEmpty(Live(p));
    } else {
      var n := |infos| - 1;
      var front := infos[..n];
      CrashIff(p, front);
      LastStep(Live(p), infos);
      StepPending(Run(Live(p), front).pending, infos[n]);
      forall k | 0 <= k < n
        ensures Sandwiches(Live(p), infos, k) <==> Sandwiches(Live(p), front, k)
      {
        assert front[..k] == infos[..k] && front[k] == infos[k];
      }
    }
  }

  lemma RunEmpty(l: List)
    ensures Run(l, []) == Ran(l, [])
  {
  }

  // ---- From bytes to frames ----

  function Frames(packets: seq<Packet>): seq<seq<byte>> {
    seq(|packets|, i requires 0 <= i < |packets| => Encode(packets[i]))
  }

  function Wire(packets: seq<Packet>): seq<byte> {
    Concat(Frames(packets))
  }

  function Arrived(packets: seq<Packet>): seq<Info> {
    seq(|packets|, i requires 0 <= i < |packets| => Received(packets[i]))
  }

  lemma WireStep(packets: seq<Packet>)
    requires packets != []
    ensures Wire(packets) == Encode(packets[0]) + Wire(packets[1..])
    ensures Arrived(packets)[0] == Received(packets[0]) && Arrived(packets)[1..] == Arrived(packets[1..])
  {
    assert Frames(packets)[1..] == Frames(packets[1..]);
  }

  lemma ArrivedAppend(a: seq<Packet>, b: seq<Packet>)
    ensures Arrived(a + b) == Arrived(a) + Arrived(b)
  {
  }

  /** Draining the bytes of encoded packets is running the decoder over the packets. */
  lemma {:induction false} DrainWire(packets: seq<Packet>, l: List)
    ensures var r := Run(l, Arrived(packets));
      Drain(Wire(packets), l) == Drained([], r.pending, r.msgs)
    decreases |packets|
  {
    hide Step, Encode, Drain, Decode, IsFrame, Received, CrcOk;
    if packets == [] {
      assert Wire(packets) == [];
      DrainIdle([], l);
    } else {
      WireStep(packets);
      EncodeDecode(packets[0]);
      var s := Step(l, Received(packets[0]));
      DrainAfterFrame(Encode(packets[0]), Wire(packets[1..]), l);
      DrainWire(packets[1..], s.pending);
    }
  }

  /** Each encoded frame has at most `bound` bytes. */
  predicate FramesWithin(packets: seq<Packet>, bound: nat) {
    forall i | 0 <= i < |packets| :: OVERHEAD + |Sent(packets[i].data)| <= bound
  }

  /** Whatever part of a stream has arrived, less than one frame of it stays in the ring. */
  lemma {:induction false} LeftoverBound(packets: seq<Packet>, x: seq<byte>, l: List, bound: nat)
    requires 0 < bound && FramesWithin(packets, bound) && x <= Wire(packets)
    ensures |Drain(x, l).rest| < bound
    decreases |packets|
  {
    hide Step, Drain, Decode, IsFrame, Received, CrcOk;
    if packets == [] {
      assert Wire(packets) == [];
      DrainIdle(x, l);
    } else {
      WireStep(packets);
      EncodeDecode(packets[0]);
      var f := Encode(packets[0]);
      if |x| < |f| {
        assert x <= f by { assert f == Wire(packets)[..|f|]; }
        PrefixNotReady(f, x);
        DrainIdle(x, l);
      } else {
        assert x[..|f|] == Wire(packets)[..|f|] == f;
        assert x == f + x[|f|..];
        assert Wire(packets)[|f|..] == Wire(packets[1..]);
        var s := Step(l, Received(packets[0]));
        DrainAfterFrame(f, x[|f|..], l);
        LeftoverBound(packets[1..], x[|f|..], s.pending, bound);
      }
    }
  }

  // ---- Arbitrary segmentation ----

  /** write_cmd_fifo takes every one of these chunks. */
  ghost predicate NeverRefused(buf: seq<byte>, l: List, chunks: seq<seq<byte>>) {
    forall k | 0 <= k < |chunks| :: |Serve(buf, l, chunks[..k]).rest| + |chunks[k]| <= 40960
  }

  lemma ConcatLast(chunks: seq<seq<byte>>)
    requires chunks != []
    ensures Concat(chunks) == Concat(chunks[..|chunks| - 1]) + chunks[|chunks| - 1]
  {
    var n := |chunks| - 1;
    assert chunks == chunks[..n] + [chunks[n]];
    ConcatAppend(chunks[..n], [chunks[n]]);
    var one := [chunks[n]];
    assert one[1..] == [];
    assert Concat(one) == chunks[n] + [];
  }

  /** However a stream of frames is cut into chunks, serving it is draining what has come so far. */
  lemma {:induction false} ServePrefix(packets: seq<Packet>, chunks: seq<seq<byte>>, l: List)
    requires FramesWithin(packets, 20480)
    requires forall k | 0 <= k < |chunks| :: |chunks[k]| <= 20480
    requires Concat(chunks) <= Wire(packets)
    ensures Serve([], l, chunks) == Drain(Concat(chunks), l)
    ensures NeverRefused([], l, chunks)
    decreases |chunks|
  {
    hide Drain, Wire, TryRead;
    if chunks == [] {
      ShortIdle();
      DrainIdle([], l);
    } else {
      var n := |chunks| - 1;
      var x, c := Concat(chunks[..n]), chunks[n];
      ConcatLast(chunks);
      assert x <= Wire(packets) by { assert x == Concat(chunks)[..|x|]; }
      ServePrefix(packets, chunks[..n], l);
      LeftoverBound(packets, x, l, 20480);
      DrainSplit(x, c, l);
      RefusedNext([], l, chunks);
    }
  }

  lemma RefusedNext(buf: seq<byte>, l: List, chunks: seq<seq<byte>>)
    requires chunks != [] && NeverRefused(buf, l, chunks[..|chunks| - 1])
    requires |Serve(buf, l, chunks[..|chunks| - 1]).rest| + |chunks[|chunks| - 1]| <= 40960
    ensures NeverRefused(buf, l, chunks)
  {
    hide Serve;
    var n := |chunks| - 1;
    forall k | 0 <= k < |chunks|
      ensures |Serve(buf, l, chunks[..k]).rest| + |chunks[k]| <= 40960
    {
      if k < n {
        assert chunks[..n][..k] == chunks[..k] && chunks[..n][k] == chunks[k];
      }
    }
  }

  lemma ShortIdle()
    ensures TryRead([]) == None
  {
  }

  /**
   * Encoder, arbitrary segmentation, ring and decoder together: no chunk is refused, and what comes
   * out is what the decoder makes of the packets themselves.
   */
  lemma ServeWire(packets: seq<Packet>, chunks: seq<seq<byte>>, l: List)
    requires FramesWithin(packets, 20480)
    requires forall k | 0 <= k < |chunks| :: |chunks[k]| <= 20480
    requires Concat(chunks) == Wire(packets)
    ensures NeverRefused([], l, chunks)
    ensures var r := Run(l, Arrived(packets));
      Serve([], l, chunks) == Drained([], r.pending, r.msgs)
  {
    ServePrefix(packets, chunks, l);
    DrainWire(packets, l);
  }
}
