/** Two commands in several fragments each on one connection, and the freed node it leaves on the list. */
module Interleaved {
  import opened Bytes
  import opened Frame
  import opened Pending
  import opened PackSocket
  import opened Reassembly
  import opened Transfers

  // ---- On the frames as they have arrived ----

  /** Fragments of one command around the first fragment of another. */
  ghost predicate Around(b1: Info, a1: Info, b2: Info) {
    && b1.cmd == b2.cmd != a1.cmd && b1.lastNo == 2 && a1.lastNo == 1
    && CrcOk(b1) && CrcOk(a1) && CrcOk(b2)
  }

  lemma MatchingMore(q: seq<Info>, i: Info, cmd: u16)
    ensures Matching(q + [i], cmd) == if i.cmd == cmd then Matching(q, cmd) + [i] else Matching(q, cmd)
  {
    assert (q + [i])[..|q|] == q;
  }

  lemma MatchingThree(b1: Info, a1: Info, b2: Info)
    requires b1.cmd == b2.cmd != a1.cmd
    ensures Matching([b1], b1.cmd) == [b1] && Matching([b1, a1], a1.cmd) == [a1]
    ensures Matching([b1, a1, b2], b1.cmd) == [b1, b2] && Matching([b1, a1, b2], a1.cmd) == [a1]
  {
    assert [] + [b1] == [b1] && [b1] + [a1] == [b1, a1] && [b1, a1] + [b2] == [b1, a1, b2];
    assert [] + [a1] == [a1];
    NoneMatch([], b1.cmd);
    NoneMatch([], a1.cmd);
    hide Matching;
    MatchingMore([], b1, b1.cmd);
    MatchingMore([], b1, a1.cmd);
    MatchingMore([b1], a1, a1.cmd);
    MatchingMore([b1], a1, b1.cmd);
    MatchingMore([b1, a1], b2, b1.cmd);
    MatchingMore([b1, a1], b2, a1.cmd);
  }

  /** A fragment that does not complete its command is kept. */
  lemma StepWaits(p: seq<Info>, i: Info, m: seq<Info>)
    requires CrcOk(i) && m == Matching(p + [i], i.cmd) && m != [] && |m| <= m[0].lastNo
    ensures Run(Live(p), [i]) == Ran(Live(p + [i]), [])
  {
    hide Matching, Payload, Removed, CrcOk;
    RunOne(Live(p), i);
  }

  lemma ThreeWait(b1: Info, a1: Info, b2: Info)
    requires Around(b1, a1, b2)
    ensures Run(Live([]), [b1, a1, b2]) == Ran(Live([b1, a1, b2]), [])
  {
    MatchingThree(b1, a1, b2);
    hide Run, Matching, CrcOk;
    assert [] + [b1] == [b1] && [b1] + [a1] == [b1, a1] && [b1, a1] + [b2] == [b1, a1, b2];
    StepWaits([], b1, [b1]);
    StepWaits([b1], a1, [a1]);
    StepWaits([b1, a1], b2, [b1, b2]);
    RunAppend(Live([]), [b1], [a1]);
    RunAppend(Live([]), [b1, a1], [b2]);
  }

  lemma PayloadTwo(i: Info, j: Info)
    ensures Payload([i, j]) == i.valid + j.valid
  {
    PayloadOne(i);
    assert [i, j][..1] == [i];
  }

  /** One more fragment of the first command completes it, with its first fragment between two others. */
  lemma NextDangles(b1: Info, a1: Info, b2: Info, next: Info)
    requires Around(b1, a1, b2) && next.cmd == a1.cmd && CrcOk(next)
    ensures Sandwiched([b1, a1, b2, next], a1.cmd)
    ensures Run(Live([b1, a1, b2]), [next])
         == Ran(Dangling, [Message(next.cmd, next.ptype, next.ipnum, a1.valid + next.valid)])
  {
    var p, q := [b1, a1, b2], [b1, a1, b2, next];
    assert q == p + [next];
    MatchingThree(b1, a1, b2);
    MatchingMore(p, next, a1.cmd);
    assert [a1] + [next] == [a1, next];
    PayloadTwo(a1, next);
    assert q[0].cmd != a1.cmd && q[1].cmd == a1.cmd && q[2].cmd != a1.cmd;
    hide Matching, Payload, CrcOk, Sandwiched;
    RunOne(Live(p), next);
  }

  /**
   * Fragments b1 a1 b2 a2, as two senders may interleave them: a is delivered whole, but its first fragment
   * is freed while b1 still leads to it. The next frame, whichever it is, walks into it.
   */
  lemma SandwichReached(b1: Info, a1: Info, b2: Info, a2: Info, later: Info)
    requires Around(b1, a1, b2) && a2.cmd == a1.cmd && CrcOk(a2)
    ensures Run(Live([]), [b1, a1, b2, a2])
         == Ran(Dangling, [Message(a2.cmd, a2.ptype, a2.ipnum, a1.valid + a2.valid)])
    ensures Run(Live([]), [b1, a1, b2, a2, later]).pending == Crashed
  {
    hide Run, CrcOk, Sandwiched;
    ThreeWait(b1, a1, b2);
    NextDangles(b1, a1, b2, a2);
    var p := [b1, a1, b2];
    assert p + [a2] == [b1, a1, b2, a2] && [b1, a1, b2, a2] + [later] == [b1, a1, b2, a2, later];
    RunAppend(Live([]), p, [a2]);
    RunAppend(Live([]), p + [a2], [later]);
    RunOne(Dangling, later);
  }

  // ---- The same on the wire ----

  /** Frames 2:1 1:A 2:2 1:B deliver "AB", and any frame behind them reads freed memory. */
  const PACKETS: seq<Packet> := [
    Packet(2, 0, 0, 2, 0, [1]), Packet(1, 0, 0, 1, 0, [0x41]),
    Packet(2, 0, 1, 2, 0, [2]), Packet(1, 0, 1, 1, 0, [0x42])]

  lemma DanglingExample(later: Packet)
    ensures Drain(Wire(PACKETS), Live([])) == Drained([], Dangling, [Message(1, 0, 0, [0x41, 0x42])])
    ensures Drain(Wire(PACKETS + [later]), Live([])).pending == Crashed
  {
    hide Run, Wire, Drain, Received, CrcOk, Sandwiched;
    var ps := PACKETS;
    forall k | 0 <= k < 4
      ensures |ps[k].data| == 1 && Sent(ps[k].data) == ps[k].data
    {
      OneByte(ps[k].data);
    }
    ReceivedFields(ps[0]);
    ReceivedFields(ps[1]);
    ReceivedFields(ps[2]);
    ReceivedFields(ps[3]);
    hide Sent;
    var i := Arrived(ps);
    var last := Received(later);
    assert i == [i[0], i[1], i[2], i[3]];
    assert Arrived(ps + [later]) == [i[0], i[1], i[2], i[3], last];
    SandwichReached(i[0], i[1], i[2], i[3], last);
    DrainWire(ps, Live([]));
    DrainWire(ps + [later], Live([]));
    assert i[1].valid == [0x41] && i[3].valid == [0x42];
    assert i[1].valid + i[3].valid == [0x41, 0x42];
  }

  lemma OneByte(d: seq<byte>)
    requires |d| == 1
    ensures Sent(d) == d
  {
  }
}
