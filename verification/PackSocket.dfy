/** The receiving side of packsocket.c and the drain loop of server_start. */
module PackSocket {
  import opened Bytes
  import opened Frame
  import opened Pending
  import opened CmdFifo
  import opened RecvList
  import opened Crc
  import opened CrcDivision

  /** socket_cmd_t: a complete command. */
  datatype Message = Message(cmd: u16, mtype: u16, ipnum: u32, data: seq<byte>)

  function Shown(m: Option<Message>): seq<Message> {
    if m.Some? then [m.value] else []
  }

  // ---- Specification: what one frame, one call and one recv() do ----

  datatype Stepped = Stepped(pending: List, msg: Option<Message>)

  /**
   * The loop body of parseSocketCmd, for a frame already taken out of the ring. Every frame makes it walk
   * the whole list, so that a freed node on it is read.
   */
  ghost function Step(l: List, i: Info): Stepped {
    match l
    case Live(p) =>
      var p1 := if CrcOk(i) then p + [i] else p;
      if Complete(p1, i.cmd) then
        Stepped(Removed(p1, i.cmd), Some(Message(i.cmd, i.ptype, i.ipnum, Payload(Matching(p1, i.cmd)))))
      else
        Stepped(Live(p1), None)
    case _ => Stepped(Crashed, None)
  }

  datatype Parsed = Parsed(rest: seq<byte>, pending: List, msg: Option<Message>)

  /** parseSocketCmd: frames are taken out until one completes a command or no whole frame is left. */
  ghost function ParseNext(buf: seq<byte>, l: List): (r: Parsed)
    ensures |r.rest| <= |buf|
    ensures r.msg.Some? ==> |r.rest| + OVERHEAD <= |buf| && r.pending != Crashed
    ensures r.msg.None? ==> TryRead(r.rest) == None
    decreases |buf|
  {
    var n := TryRead(buf);
    if n == None then Parsed(buf, l, None)
    else
      FrontIsFrame(buf);
      var s := Step(l, Decode(buf[..n.value]));
      if s.msg.Some? then Parsed(buf[n.value..], s.pending, s.msg) else ParseNext(buf[n.value..], s.pending)
  }

  datatype Drained = Drained(rest: seq<byte>, pending: List, msgs: seq<Message>)

  /** All the frames of a buffer, one after the other. */
  ghost function Drain(buf: seq<byte>, l: List): (r: Drained)
    ensures TryRead(r.rest) == None && |r.rest| <= |buf|
    decreases |buf|
  {
    var n := TryRead(buf);
    if n == None then Drained(buf, l, [])
    else
      FrontIsFrame(buf);
      var s := Step(l, Decode(buf[..n.value]));
      var r := Drain(buf[n.value..], s.pending);
      r.(msgs := Shown(s.msg) + r.msgs)
  }

  /** One recv() of server_start: the chunk is dropped if the ring has no room, then the ring is drained. */
  ghost function Receive(buf: seq<byte>, l: List, chunk: seq<byte>): Drained {
    Drain(if |buf| + |chunk| > 40960 then buf else buf + chunk, l)
  }

  ghost function Serve(buf: seq<byte>, l: List, chunks: seq<seq<byte>>): Drained {
    if chunks == [] then Drained(buf, l, [])
    else
      var before := Serve(buf, l, chunks[..|chunks| - 1]);
      var last := Receive(before.rest, before.pending, chunks[|chunks| - 1]);
      last.(msgs := before.msgs + last.msgs)
  }

  // ---- Laws of the specification ----

  /** Draining is calling parseSocketCmd until it returns no command. */
  lemma {:induction false} DrainByParse(buf: seq<byte>, l: List)
    ensures var r := ParseNext(buf, l);
      Drain(buf, l) == (if r.msg == None then Drained(r.rest, r.pending, [])
                        else var d := Drain(r.rest, r.pending); d.(msgs := [r.msg.value] + d.msgs))
    decreases |buf|
  {
    var n := TryRead(buf);
    if n.Some? {
      FrontIsFrame(buf);
      var s := Step(l, Decode(buf[..n.value]));
      if s.msg.None? {
        DrainByParse(buf[n.value..], s.pending);
        assert [] + Drain(buf[n.value..], s.pending).msgs == Drain(buf[n.value..], s.pending).msgs;
      }
    }
  }

  /** Segmentation does not matter: bytes may be drained as they come or all at once. */
  lemma {:induction false} DrainSplit(x: seq<byte>, y: seq<byte>, l: List)
    ensures var a := Drain(x, l);
      var b := Drain(a.rest + y, a.pending);
      Drain(x + y, l) == b.(msgs := a.msgs + b.msgs)
    decreases |x|
  {
    hide Drain, Step, Decode, IsFrame;
    var n := TryRead(x);
    if n.Some? {
      FrontIsFrame(x);
      var f, x' := x[..n.value], x[n.value..];
      assert x == f + x';
      assert x + y == f + (x' + y);
      DrainAfterFrame(f, x', l);
      DrainAfterFrame(f, x' + y, l);
      var s := Step(l, Decode(f));
      DrainSplit(x', y, s.pending);
      var a := Drain(x', s.pending);
      var b := Drain(a.rest + y, a.pending);
      assert Shown(s.msg) + (a.msgs + b.msgs) == (Shown(s.msg) + a.msgs) + b.msgs;
    } else {
      DrainIdle(x, l);
      var b := Drain(x + y, l);
      assert [] + b.msgs == b.msgs;
    }
  }

  lemma DrainIdle(x: seq<byte>, l: List)
    requires TryRead(x) == None
    ensures Drain(x, l) == Drained(x, l, [])
  {
  }

  /** A whole frame at the front is one step. */
  lemma DrainAfterFrame(f: seq<byte>, y: seq<byte>, l: List)
    requires IsFrame(f)
    ensures var s := Step(l, Decode(f));
      var r := Drain(y, s.pending);
      Drain(f + y, l) == r.(msgs := Shown(s.msg) + r.msgs)
  {
    FrameFirst(f, y);
  }

  /** Nothing comes of a list with a freed node: the next frame crashes, and then there is no way back. */
  lemma {:induction false} DrainCrashed(buf: seq<byte>)
    ensures Drain(buf, Crashed).msgs == [] && Drain(buf, Crashed).pending == Crashed
    ensures ParseNext(buf, Crashed).msg == None && ParseNext(buf, Crashed).pending == Crashed
    decreases |buf|
  {
    var n := TryRead(buf);
    if n.Some? {
      DrainCrashed(buf[n.value..]);
    }
  }

  lemma {:induction false} ServeCrashed(buf: seq<byte>, l: List, chunks: seq<seq<byte>>, k: nat)
    requires k <= |chunks| && Serve(buf, l, chunks[..k]).pending == Crashed
    ensures Serve(buf, l, chunks).pending == Crashed && Serve(buf, l, chunks).msgs == Serve(buf, l, chunks[..k]).msgs
    decreases |chunks|
  {
    hide Drain;
    if k == |chunks| {
      assert chunks[..k] == chunks;
    } else {
      var n := |chunks| - 1;
      assert chunks[..n][..k] == chunks[..k];
      ServeCrashed(buf, l, chunks[..n], k);
      var before := Serve(buf, l, chunks[..n]);
      DrainCrashed(if |before.rest| + |chunks[n]| > 40960 then before.rest else before.rest + chunks[n]);
    }
  }

  // ---- The connection object ----

  class SocketCmdClass {
    const fifo: Fifo
    const list: CmdList

    ghost predicate Valid()
      reads this, fifo, list, list.Repr
    {
      fifo.Valid() && list.Valid()
    }

    /** init_socket_cmd_class with init_cmd_fifo. */
    constructor ()
      ensures Valid() && fresh(fifo) && fresh(fifo.cmd) && fresh(list)
      ensures fifo.Contents() == [] && list.View() == Live([]) && list.Repr == {}
    {
      fifo := new Fifo();
      list := new CmdList();
    }

    /** recvSocketCmd: a refused chunk is only reported. */
    method RecvSocketCmd(data: seq<byte>)
      requires Valid()
      modifies fifo, fifo.cmd
      ensures Valid()
      ensures fifo.Contents() == if old(fifo.len) + |data| > 40960 then old(fifo.Contents())
                                 else old(fifo.Contents()) + data
    {
      var status := fifo.WriteCmdFifo(data);
    }

    /** One pass of the loop of parseSocketCmd; crashed stands for a freed node read on the way. */
    method TakeFrame(n: nat) returns (msg: Option<Message>, crashed: bool)
      requires Valid() && TryRead(fifo.Contents()) == Some(n) && IsFrame(fifo.Contents()[..n])
      modifies fifo, list, list.Repr
      ensures fresh(list.Repr - old(list.Repr))
      ensures crashed <==> Step(old(list.View()), Decode(old(fifo.Contents())[..n])).pending == Crashed
      ensures !crashed ==> Valid() && fifo.Contents() == old(fifo.Contents())[n..]
      ensures !crashed ==> Stepped(list.View(), msg) == Step(old(list.View()), Decode(old(fifo.Contents())[..n]))
    {
      hide Step, Decode, IsFrame, TryRead;
      hide Fifo.Contents, Fifo.Valid, CmdList.Valid, CmdList.View;
      var frame := fifo.ReadCmdFifo(n);
      msg, crashed := TakeInfo(Decode(frame));
    }

    /** The checksum test of parseSocketCmd. */
    method CheckCrc(info: Info) returns (sound: bool)
      ensures sound == CrcOk(info)
    {
      var register := Crc32Le(CRCPOLY_LE, info.valid);
      sound := info.crc == 0 || info.crc == register as int;
    }

    /** The part of it behind the decoding: the checksum, the list, and the delivery. */
    method TakeInfo(info: Info) returns (msg: Option<Message>, crashed: bool)
      requires list.Valid()
      modifies list, list.Repr
      ensures fresh(list.Repr - old(list.Repr))
      ensures crashed <==> Step(old(list.View()), info).pending == Crashed
      ensures !crashed ==> list.Valid() && Stepped(list.View(), msg) == Step(old(list.View()), info)
    {
      hide Matching, Payload, Complete, Removed, CmdList.Valid, CmdList.View, CmdList.Infos, CrcOk;
      var sound := CheckCrc(info);
      msg, crashed := None, false;
      if sound {
        crashed := list.AddRecvList(info);
        if crashed {
          return;
        }
      }
      var complete: bool;
      complete, crashed := list.CheckRecvList2(info.cmd);
      if complete {
        var data: seq<byte>;
        data, crashed := list.Collect(info.cmd);
        if crashed {
          return;
        }
        list.DestroyRecvList2(info.cmd);
        msg := Some(Message(info.cmd, info.ptype, info.ipnum, data));
      }
    }

    /** parseSocketCmd. */
    method ParseSocketCmd() returns (msg: Option<Message>, crashed: bool)
      requires Valid()
      modifies fifo, list, list.Repr
      ensures fresh(list.Repr - old(list.Repr))
      ensures crashed <==> ParseNext(old(fifo.Contents()), old(list.View())).pending == Crashed
      ensures !crashed ==> Valid()
      ensures !crashed ==>
        Parsed(fifo.Contents(), list.View(), msg) == ParseNext(old(fifo.Contents()), old(list.View()))
    {
      hide Step, Decode, IsFrame, TryRead;
      hide Fifo.Contents, Fifo.Valid, CmdList.Valid, CmdList.View;
      while true
        invariant Valid() && list.View() != Crashed
        invariant fresh(list.Repr - old(list.Repr))
        invariant ParseNext(fifo.Contents(), list.View()) == ParseNext(old(fifo.Contents()), old(list.View()))
        decreases fifo.len
      {
        var ready := fifo.ReadCmdTryRead();
        if ready == None {
          return None, false;
        }
        FrontIsFrame(fifo.Contents());
        DrainCrashed(fifo.Contents()[ready.value..]);
        msg, crashed := TakeFrame(ready.value);
        if crashed || msg != None {
          return;
        }
      }
    }

    /** The inner loop of server_start: parse until no command is left. */
    method DrainRing() returns (msgs: seq<Message>, crashed: bool)
      requires Valid()
      modifies fifo, list, list.Repr
      ensures fresh(list.Repr - old(list.Repr))
      ensures crashed <==> Drain(old(fifo.Contents()), old(list.View())).pending == Crashed
      ensures msgs == Drain(old(fifo.Contents()), old(list.View())).msgs
      ensures !crashed ==> Valid()
      ensures !crashed ==>
        Drained(fifo.Contents(), list.View(), msgs) == Drain(old(fifo.Contents()), old(list.View()))
    {
      hide Drain, ParseNext, TryRead;
      hide Fifo.Contents, Fifo.Valid, CmdList.Valid, CmdList.View;
      msgs, crashed := [], false;
      ghost var d := Drain(fifo.Contents(), list.View());
      assert [] + d.msgs == d.msgs;
      while true
        invariant Valid() && !crashed
        invariant fresh(list.Repr - old(list.Repr))
        invariant var e := Drain(fifo.Contents(), list.View());
          e.(msgs := msgs + e.msgs) == d
        decreases fifo.len
      {
        DrainByParse(fifo.Contents(), list.View());
        ghost var next := ParseNext(fifo.Contents(), list.View());
        DrainCrashed(next.rest);
        var msg: Option<Message>;
        msg, crashed := ParseSocketCmd();
        if crashed || msg == None {
          break;
        }
        ghost var e := Drain(fifo.Contents(), list.View());
        assert (msgs + [msg.value]) + e.msgs == msgs + ([msg.value] + e.msgs);
        msgs := msgs + [msg.value];
      }
      assert msgs + [] == msgs;
    }

    /** The receive loop of server_start for one client; msgProc is handed each command in turn. */
    method ServerStart(chunks: seq<seq<byte>>) returns (msgs: seq<Message>, crashed: bool)
      requires Valid()
      modifies fifo, fifo.cmd, list, list.Repr
      ensures fresh(list.Repr - old(list.Repr))
      ensures crashed <==> Serve(old(fifo.Contents()), old(list.View()), chunks).pending == Crashed
      ensures msgs == Serve(old(fifo.Contents()), old(list.View()), chunks).msgs
      ensures !crashed ==> Valid()
      ensures !crashed ==>
        Drained(fifo.Contents(), list.View(), msgs) == Serve(old(fifo.Contents()), old(list.View()), chunks)
    {
      hide Drain, ParseNext, TryRead;
      hide Fifo.Contents, Fifo.Valid, CmdList.Valid, CmdList.View;
      msgs, crashed := [], false;
      var k := 0;
      while k < |chunks|
        invariant 0 <= k <= |chunks| && Valid()
        invariant fresh(list.Repr - old(list.Repr))
        invariant Drained(fifo.Contents(), list.View(), msgs)
               == Serve(old(fifo.Contents()), old(list.View()), chunks[..k])
        invariant list.View() != Crashed
      {
        assert chunks[..k + 1][..k] == chunks[..k];
        RecvSocketCmd(chunks[k]);
        var got: seq<Message>;
        got, crashed := DrainRing();
        msgs := msgs + got;
        k := k + 1;
        if crashed {
          ServeCrashed(old(fifo.Contents()), old(list.View()), chunks, k);
          return;
        }
      }
      assert chunks[..k] == chunks;
    }
  }
}
