/** The pending-fragment list of packsocket.c, as linked nodes. */
module RecvList {
  import opened Bytes
  import opened Frame
  import opened Pending

  /** socket_cmd_list_t. */
  class CmdNode {
    const info: Info
    var next: CmdNode?
    var freed: bool      // the memory has been given back, and must not be read any more

    constructor (info: Info)
      ensures this.info == info && next == null && !freed
    {
      this.info := info;
      next, freed := null, false;
    }
  }

  /** Node i of a chain, or the null pointer behind its end. */
  ghost function At(nodes: seq<CmdNode>, i: nat): CmdNode? {
    if i < |nodes| then nodes[i] else null
  }

  ghost function InfosOf(nodes: seq<CmdNode>): (s: seq<Info>)
    ensures |s| == |nodes|
  {
    seq(|nodes|, i requires 0 <= i < |nodes| => nodes[i].info)
  }

  /** socket_cmd_list_set_t, with the chain of nodes kept as a ghost sequence. */
  class CmdList {
    var head: CmdNode?
    ghost var nodes: seq<CmdNode>
    ghost var Repr: set<CmdNode>

    ghost predicate Valid()
      reads this, Repr
    {
      && (forall i | 0 <= i < |nodes| :: nodes[i] in Repr)
      && (forall i, j | 0 <= i < j < |nodes| :: nodes[i] != nodes[j])
      && head == At(nodes, 0)
      && (forall i {:trigger nodes[i].next} | 0 <= i < |nodes| :: nodes[i].next == At(nodes, i + 1))
    }

    ghost function Infos(): (s: seq<Info>)
      reads this
      ensures |s| == |nodes|
    {
      InfosOf(nodes)
    }

    /** What the chain is worth: a single freed node in it spoils every walk. */
    ghost function View(): (l: List)
      reads this, Repr
      ensures l != Crashed && (l.Live? ==> l.p == Infos())
    {
      if exists i | 0 <= i < |nodes| :: nodes[i] in Repr && nodes[i].freed then Dangling else Live(Infos())
    }

    /** _initRecvCmdList. */
    constructor ()
      ensures Valid() && Repr == {} && View() == Live([])
    {
      head, nodes, Repr := null, [], {};
    }

    /** _addRecvList: walk to the tail and link the node there. */
    method AddRecvList(info: Info) returns (crashed: bool)
      requires Valid()
      modifies this, Repr
      ensures fresh(Repr - old(Repr))
      ensures crashed <==> old(View()) == Dangling
      ensures !crashed ==> Valid() && View() == Live(old(Infos()) + [info])
    {
      var node := new CmdNode(info);
      if head == null {
        head := node;
      } else {
        var prev: CmdNode, temp: CmdNode? := head, head;
        ghost var i := 0;
        while temp != null
          invariant 0 <= i <= |nodes| && temp == At(nodes, i)
          invariant prev == if i == 0 then nodes[0] else nodes[i - 1]
          invariant forall j | 0 <= j < i :: !nodes[j].freed
          decreases |nodes| - i
          modifies {}
        {
          if temp.freed {
            return true;
          }
          prev := temp;
          temp := temp.next;
          i := i + 1;
        }
        prev.next := node;
      }
      nodes, Repr := nodes + [node], Repr + {node};
      assert View() == Live(Infos());
      return false;
    }

    /** _checkRecvList2. It may find the command complete before it comes to a freed node. */
    method CheckRecvList2(cmd: u16) returns (complete: bool, crashed: bool)
      requires Valid()
      ensures View().Live? ==> !crashed && complete == Complete(Infos(), cmd)
      ensures View() == Dangling ==> crashed || complete
    {
      hide Matching;
      var node, totalnum, num := head, -1, 0;
      ghost var i := 0;
      assert Infos()[..0] == [];
      NoneMatch([], cmd);
      while node != null
        invariant 0 <= i <= |nodes| && node == At(nodes, i)
        invariant num == |Matching(Infos()[..i], cmd)|
        invariant totalnum == if num == 0 then -1 else Matching(Infos()[..i], cmd)[0].lastNo + 1
        invariant num == 0 || num < totalnum
        invariant forall j | 0 <= j < i :: !nodes[j].freed
        decreases |nodes| - i
      {
        if node.freed {
          return false, true;
        }
        MatchingStep(Infos(), cmd, i);
        if node.info.cmd == cmd {
          num := num + 1;
          if totalnum == -1 {
            totalnum := node.info.lastNo + 1;
          }
        }
        if num == totalnum {
          CompleteAppend(Infos()[..i + 1], Infos()[i + 1..], cmd);
          assert Infos() == Infos()[..i + 1] + Infos()[i + 1..];
          return true, false;
        }
        node := node.next;
        i := i + 1;
      }
      assert Infos()[..i] == Infos();
      return false, false;
    }

    /** The collecting loop of parseSocketCmd with _addcmd. */
    method Collect(cmd: u16) returns (data: seq<byte>, crashed: bool)
      requires Valid()
      ensures crashed <==> View() == Dangling
      ensures !crashed ==> data == Payload(Matching(Infos(), cmd))
    {
      hide Matching, Payload;
      MatchingNone(cmd);
      var node := head;
      data := [];
      ghost var i := 0;
      assert Infos()[..0] == [];
      while node != null
        invariant 0 <= i <= |nodes| && node == At(nodes, i)
        invariant data == Payload(Matching(Infos()[..i], cmd))
        invariant forall j | 0 <= j < i :: !nodes[j].freed
        decreases |nodes| - i
      {
        if node.freed {
          return [], true;
        }
        MatchingStep(Infos(), cmd, i);
        assert data + [] == data;
        if |node.info.valid| > 0 && node.info.cmd == cmd {
          data := data + node.info.valid;
        }
        node := node.next;
        i := i + 1;
      }
      assert Infos()[..i] == Infos();
      crashed := false;
    }

    /** The walk of _destoryRecvList2: what it does to the head and to the next pointers, and what it frees. */
    method CutChain(cmd: u16)
      requires Valid() && View().Live?
      modifies this`head, Repr
      ensures forall j | 0 <= j < |nodes| :: nodes[j].freed <==> nodes[j].info.cmd == cmd
      ensures head == At(nodes, Lead(Infos(), cmd))
      ensures forall j {:trigger nodes[j].next} | 0 <= j < |nodes| ::
        nodes[j].next == if j + 1 == Keep(Infos(), cmd) then null else At(nodes, j + 1)
    {
      hide Lead, Keep;
      var tmp, prv := head, null;
      ghost var i, lead, keep := 0, 0, 0;
      ghost var p := Infos();
      EmptyLeadKeep(cmd);
      while tmp != null
        invariant 0 <= i <= |nodes|
        invariant tmp == At(nodes, i)
        invariant lead == Lead(p[..i], cmd) && keep == Keep(p[..i], cmd)
        invariant prv == (if keep == 0 then null else nodes[keep - 1])
        invariant keep == 0 <==> lead == i
        invariant head == At(nodes, lead)
        invariant forall j | 0 <= j < |nodes| :: nodes[j].freed <==> j < i && nodes[j].info.cmd == cmd
        invariant forall j {:trigger nodes[j].next} | 0 <= j < |nodes| ::
          nodes[j].next == if i == |nodes| && j + 1 == keep then null else At(nodes, j + 1)
        decreases |nodes| - i
      {
        LeadKeepStep(p, cmd, i);
        assert tmp.info == p[i];
        if tmp.info.cmd == cmd {
          if prv == null {
            head := tmp.next;
            lead := lead + 1;
          }
          if tmp.next == null {
            if prv != null {
              prv.next := null;
            }
          }
        } else {
          prv := tmp;
          keep := i + 1;
        }
        var next := tmp.next;
        if tmp.info.cmd == cmd {
          tmp.freed := true;
        }
        tmp := next;
        i := i + 1;
      }
      assert p[..i] == p;
    }

    /** _destoryRecvList2. */
    method DestroyRecvList2(cmd: u16)
      requires Valid() && View().Live?
      modifies this, Repr
      ensures Valid() && Repr == old(Repr)
      ensures Infos() == Destroyed(old(Infos()), cmd)
      ensures View() == Removed(old(Infos()), cmd)
    {
      ghost var p := Infos();
      CutAndCount(cmd);
      DestroyedIsOthers(p, cmd);
      LeftOver(p, cmd);
      hide Lead, Keep, Sandwiched, Others, Matching, Destroyed;
      assert forall i | 0 <= i < |nodes| :: nodes[i].freed <==> Infos()[i].cmd == cmd;
    }

    /** The walk, and which nodes are still on the chain behind it. */
    method CutAndCount(cmd: u16)
      requires Valid() && View().Live?
      modifies this, Repr
      ensures Valid() && Repr == old(Repr)
      ensures Infos() == Destroyed(old(Infos()), cmd)
      ensures forall i | 0 <= i < |nodes| :: nodes[i].freed <==> nodes[i].info.cmd == cmd
    {
      hide Lead, Keep;
      ghost var p := Infos();
      CutChain(cmd);
      ghost var lead, keep := Lead(p, cmd), Keep(p, cmd);
      nodes := if keep <= lead then [] else nodes[lead..keep];
      assert Infos() == if keep <= lead then [] else p[lead..keep];
    }
  }
}
