/** Where the decoder of packsocket.c gets stuck, and where it does not. */
module Stall {
  import opened Bytes
  import opened Frame
  import opened Pending
  import opened CmdFifo
  import opened PackSocket
  import opened Reassembly

  /** The frame of an empty message, to complete the front of a ring with. */
  const EMPTY_FRAME: seq<byte> := [0x47, 0x47, 0, 0, 0, 0, 0, 0, 0, 0, 0, 0, 0, 0, 0, 0, 0, 0, 0, 0]

  function Filled(buf: seq<byte>): (f: seq<byte>)
    ensures |f| >= OVERHEAD && buf <= f
    ensures |buf| >= OVERHEAD ==> f == buf
  {
    if |buf| >= OVERHEAD then buf else buf + EMPTY_FRAME[|buf|..]
  }

  /** The front of the ring is no beginning of a header, or announces a frame that the ring cannot hold. */
  predicate Stalled(buf: seq<byte>) {
    ShortAt(Filled(buf), 0) != 0x4747 || 20 + ShortAt(Filled(buf), 14) > 40960
  }

  lemma StallStays(buf: seq<byte>, more: seq<byte>, l: List)
    requires Stalled(buf) && |buf + more| <= 40960
    ensures Stalled(buf + more) && Drain(buf + more, l) == Drained(buf + more, l, [])
  {
    FilledFront(buf);
    FilledFront(buf + more);
    hide Filled;
    assert forall i | 0 <= i < |buf| :: (buf + more)[i] == buf[i];
  }

  /** The four bytes that decide, with zeros and the sync word where nothing has come yet. */
  lemma FilledFront(buf: seq<byte>)
    ensures var e := Filled(buf);
      && e[0] == (if |buf| > 0 then buf[0] else 0x47) && e[1] == (if |buf| > 1 then buf[1] else 0x47)
      && e[14] == (if |buf| > 14 then buf[14] else 0) && e[15] == (if |buf| > 15 then buf[15] else 0)
  {
  }

  /** Such a front is never skipped: whatever arrives, no command comes out of this connection again. */
  lemma {:induction false} StalledForever(buf: seq<byte>, l: List, chunks: seq<seq<byte>>)
    requires Stalled(buf) && |buf| <= 40960 && TryRead(buf) == None
    ensures var r := Serve(buf, l, chunks);
      r.msgs == [] && r.pending == l && buf <= r.rest && Stalled(r.rest) && |r.rest| <= 40960
    decreases |chunks|
  {
    hide Drain, Stalled;
    if chunks != [] {
      var before := Serve(buf, l, chunks[..|chunks| - 1]);
      var chunk := chunks[|chunks| - 1];
      StalledForever(buf, l, chunks[..|chunks| - 1]);
      var taken := if |before.rest| + |chunk| > 40960 then [] else chunk;
      StallStays(before.rest, taken, l);
      assert before.rest + [] == before.rest;
    }
  }

  // ---- Any other front can be completed ----

  function Zeros(n: nat): (z: seq<byte>)
    ensures |z| == n
  {
    seq(n, _ => 0)
  }

  lemma Completing(buf: seq<byte>) returns (x: seq<byte>)
    requires !Stalled(buf) && TryRead(buf) == None
    ensures x != [] && |buf + x| <= 40960 && IsFrame(buf + x)
  {
    var e := Filled(buf);
    var n := OVERHEAD + ShortAt(e, 14);
    x := e[|buf|..] + Zeros(n - |e|);
    var t := buf + x;
    assert t == e + Zeros(n - |e|);
    assert t[0] == e[0] && t[1] == e[1] && t[14] == e[14] && t[15] == e[15];
  }

  /** While nothing is refused, serving is draining everything that has come. */
  lemma {:induction false} ServeIsDrain(buf: seq<byte>, l: List, chunks: seq<seq<byte>>)
    requires TryRead(buf) == None && |buf| + |Concat(chunks)| <= 40960
    ensures Serve(buf, l, chunks) == Drain(buf + Concat(chunks), l)
    decreases |chunks|
  {
    hide Drain, TryRead;
    if chunks == [] {
      assert buf + Concat(chunks) == buf;
      DrainIdle(buf, l);
    } else {
      var n := |chunks| - 1;
      ConcatLast(chunks);
      ServeIsDrain(buf, l, chunks[..n]);
      DrainSplit(buf + Concat(chunks[..n]), chunks[n], l);
      assert buf + Concat(chunks) == (buf + Concat(chunks[..n])) + chunks[n];
    }
  }

  lemma {:induction false} ServeAppend(buf: seq<byte>, l: List, a: seq<seq<byte>>, b: seq<seq<byte>>)
    ensures var r := Serve(buf, l, a);
      var s := Serve(r.rest, r.pending, b);
      Serve(buf, l, a + b) == s.(msgs := r.msgs + s.msgs)
    decreases |b|
  {
    hide Receive;
    if b == [] {
      assert a + b == a;
      assert Serve(buf, l, a).msgs + [] == Serve(buf, l, a).msgs;
    } else {
      var n := |b| - 1;
      assert (a + b)[..|a + b| - 1] == a + b[..n];
      ServeAppend(buf, l, a, b[..n]);
      var r := Serve(buf, l, a);
      var s := Serve(r.rest, r.pending, b[..n]);
      var t := Receive(s.rest, s.pending, b[n]);
      assert (r.msgs + s.msgs) + t.msgs == r.msgs + (s.msgs + t.msgs);
    }
  }

  // ---- And then commands come again ----

  const NUDGE: Packet := Packet(0, 0, 0, 0, 0, [])

  function Nudges(k: nat): (ps: seq<Packet>)
    ensures |ps| == k
  {
    seq(k, _ => NUDGE)
  }

  /** Frames of one command more than are pending complete it. */
  lemma {:induction false} SomeDelivery(p: seq<Info>) returns (k: nat)
    ensures Run(Live(p), Arrived(Nudges(k))).msgs != []
    decreases (var m := Matching(p, 0); if m == [] then 0 else m[0].lastNo + 1 - |m|)
  {
    hide Removed, Payload, Matching, Run;
    var i := Received(NUDGE);
    EncodeDecode(NUDGE);
    OneMatch(p, i);
    var s := Step(Live(p), i);
    if s.msg.Some? {
      k := 1;
      assert Arrived(Nudges(1)) == [i];
      RunOne(Live(p), i);
    } else {
      var n := SomeDelivery(s.pending.p);
      k := n + 1;
      assert Arrived(Nudges(k)) == [i] + Arrived(Nudges(n));
      RunAppend(Live(p), [i], Arrived(Nudges(n)));
      RunOne(Live(p), i);
    }
  }

  lemma OneMatch(p: seq<Info>, i: Info)
    requires i.cmd == 0
    ensures Matching(p + [i], 0) == Matching(p, 0) + [i]
  {
    assert (p + [i])[..|p|] == p;
  }

  /** What recv() can return: something, and at most half a ring of it. */
  ghost predicate Receivable(chunks: seq<seq<byte>>) {
    forall k | 0 <= k < |chunks| :: 0 < |chunks[k]| <= 20480
  }

  lemma Cut(x: seq<byte>) returns (chunks: seq<seq<byte>>)
    requires 0 < |x| <= 40960
    ensures Receivable(chunks) && Concat(chunks) == x
  {
    var h := 20480;
    if |x| <= h {
      chunks := [x];
    } else {
      chunks := [x[..h], x[h..]];
      assert chunks[1..] == [x[h..]];
    }
    var last := [chunks[|chunks| - 1]];
    assert last[1..] == [];
    assert Concat(last) == last[0] + [];
  }

  lemma Recovers(buf: seq<byte>, p: seq<Info>) returns (chunks: seq<seq<byte>>)
    requires !Stalled(buf) && |buf| <= 40960 && TryRead(buf) == None
    ensures Receivable(chunks) && Serve(buf, Live(p), chunks).msgs != []
  {
    hide Stalled, Serve, Drain, Run, Concat, TryRead, Removed, Matching, Payload, Complete;
    var x := Completing(buf);
    chunks := Cut(x);
    ServeIsDrain(buf, Live(p), chunks);
    var s := Step(Live(p), Decode(buf + x));
    WholeFrame(buf + x, Live(p));
    if s.msg.None? {
      var k := SomeDelivery(s.pending.p);
      var b := Frames(Nudges(k));
      assert forall i | 0 <= i < k :: b[i] == Encode(NUDGE) && |b[i]| == OVERHEAD;
      ServeWire(Nudges(k), b, s.pending);
      ServeAppend(buf, Live(p), chunks, b);
      chunks := chunks + b;
    }
  }

  lemma WholeFrame(f: seq<byte>, l: List)
    requires IsFrame(f)
    ensures var s := Step(l, Decode(f)); Drain(f, l) == Drained([], s.pending, Shown(s.msg))
  {
    hide Decode, Step, IsFrame;
    DrainAfterFrame(f, [], l);
    ShortIdle();
    DrainIdle([], Step(l, Decode(f)).pending);
    assert f + [] == f;
  }

  lemma DrainSpoiled(buf: seq<byte>, l: List)
    requires !l.Live?
    ensures Drain(buf, l).msgs == [] && !Drain(buf, l).pending.Live?
  {
    var n := TryRead(buf);
    if n.Some? {
      DrainCrashed(buf[n.value..]);
    }
  }

  /** A freed node on the list is as deadly as a stalled front. */
  lemma {:induction false} SpoiledForever(buf: seq<byte>, l: List, chunks: seq<seq<byte>>)
    requires !l.Live?
    ensures Serve(buf, l, chunks).msgs == [] && !Serve(buf, l, chunks).pending.Live?
    decreases |chunks|
  {
    hide Drain;
    if chunks != [] {
      var n := |chunks| - 1;
      SpoiledForever(buf, l, chunks[..n]);
      var r := Serve(buf, l, chunks[..n]);
      DrainSpoiled(if |r.rest| + |chunks[n]| > 40960 then r.rest else r.rest + chunks[n], r.pending);
    }
  }

  /**
   * Between two calls of recv(), the connection is dead exactly if its front is stalled or a freed node
   * hangs on its list: otherwise the frame can be completed, and commands come out again, whatever
   * fragments are pending.
   */
  lemma DeadIff(buf: seq<byte>, l: List)
    requires |buf| <= 40960 && TryRead(buf) == None
    ensures Stalled(buf) || !l.Live? <==> forall chunks | Receivable(chunks) :: Serve(buf, l, chunks).msgs == []
  {
    hide Stalled, Serve, Receivable;
    if Stalled(buf) || !l.Live? {
      forall chunks | Receivable(chunks)
        ensures Serve(buf, l, chunks).msgs == []
      {
        if l.Live? {
          StalledForever(buf, l, chunks);
        } else {
          SpoiledForever(buf, l, chunks);
        }
      }
    } else {
      var chunks := Recovers(buf, l.p);
    }
  }

  // ---- Reconnecting ----

  /**
   * The accept loop of server_start. init_cmd_fifo sets ring and list up once, so each connection goes on
   * with what the one before has left.
   */
  ghost function Accept(buf: seq<byte>, l: List, connections: seq<seq<seq<byte>>>): Drained
    decreases |connections|
  {
    if connections == [] then Drained(buf, l, [])
    else
      var first := Serve(buf, l, connections[0]);
      var later := Accept(first.rest, first.pending, connections[1..]);
      later.(msgs := first.msgs + later.msgs)
  }

  /** All connections together are one, so hanging up heals nothing. */
  lemma {:induction false} AcceptIsServe(buf: seq<byte>, l: List, connections: seq<seq<seq<byte>>>)
    ensures Accept(buf, l, connections) == Serve(buf, l, AllChunks(connections))
    decreases |connections|
  {
    hide Serve;
    if connections == [] {
      ServeNothing(buf, l);
    } else {
      var first := Serve(buf, l, connections[0]);
      AcceptIsServe(first.rest, first.pending, connections[1..]);
      ServeAppend(buf, l, connections[0], AllChunks(connections[1..]));
    }
  }

  function AllChunks(connections: seq<seq<seq<byte>>>): seq<seq<byte>> {
    if connections == [] then [] else connections[0] + AllChunks(connections[1..])
  }

  lemma ServeNothing(buf: seq<byte>, l: List)
    ensures Serve(buf, l, []) == Drained(buf, l, [])
  {
  }

  /** A dead connection is dead for all clients that come after it. */
  lemma DeadForAll(buf: seq<byte>, l: List, connections: seq<seq<seq<byte>>>)
    requires |buf| <= 40960 && TryRead(buf) == None && (Stalled(buf) || !l.Live?)
    ensures Accept(buf, l, connections).msgs == []
  {
    hide Stalled, Serve;
    AcceptIsServe(buf, l, connections);
    if l.Live? {
      StalledForever(buf, l, AllChunks(connections));
    } else {
      SpoiledForever(buf, l, AllChunks(connections));
    }
  }
}
