/** The two node lists of MsOS_queue.c: singly ended by next, with the head's prev pointing at the tail. */
module MsgQueue {
  import opened Bytes

  /** MsOS_MsgNode. */
  class MsgNode {
    var prev: MsgNode?
    var next: MsgNode?
    var msg: seq<byte>

    constructor ()
      ensures msg == []
    {
      prev, next, msg := null, null, [];
    }
  }

  ghost function At(nodes: seq<MsgNode>, i: nat): MsgNode? {
    if i < |nodes| then nodes[i] else null
  }

  /** nodes is the chain that starts at head, closed backwards from the head to the tail. */
  ghost predicate IsList(head: MsgNode?, nodes: seq<MsgNode>)
    reads nodes
  {
    && (forall i, j | 0 <= i < j < |nodes| :: nodes[i] != nodes[j])
    && head == At(nodes, 0)
    && (forall i {:trigger nodes[i].next} | 0 <= i < |nodes| :: nodes[i].next == At(nodes, i + 1))
    && (forall i {:trigger nodes[i].prev} | 0 <= i < |nodes| ::
          nodes[i].prev == if i == 0 then nodes[|nodes| - 1] else nodes[i - 1])
  }

  /** The end of _AddToListTail: node goes behind the tail of the non-empty list that starts at cur. */
  method LinkBehind(cur: MsgNode, node: MsgNode, ghost nodes: seq<MsgNode>)
    requires IsList(cur, nodes) && node !in nodes
    modifies node`prev, node`next, (set m | m in nodes)`prev, (set m | m in nodes)`next
    ensures IsList(cur, nodes + [node])
  {
    var tail := cur.prev;
    node.prev := tail;
    node.next := null;
    tail.next := node;
    cur.prev := node;
  }

  /** MsOS_queue, without its semaphores. */
  class Queue {
    const maxSizeOfMsg: nat
    var pFreeHead: MsgNode?
    var pUsedHead: MsgNode?
    ghost var free: seq<MsgNode>
    ghost var used: seq<MsgNode>

    ghost predicate Valid()
      reads this, free, used
    {
      && IsList(pFreeHead, free) && IsList(pUsedHead, used)
      && (forall m | m in free :: m !in used)
    }

    /** MsOS_CreateQueue: all nodes start on the free list. */
    constructor (maxNumOfMsgs: nat, maxSizeOfMsg: nat)
      ensures Valid() && this.maxSizeOfMsg == maxSizeOfMsg
      ensures |free| == maxNumOfMsgs && used == []
      ensures forall m | m in free :: fresh(m)
    {
      this.maxSizeOfMsg := maxSizeOfMsg;
      pFreeHead, pUsedHead := null, null;
      free, used := [], [];
      new;
      var i := 0;
      while i < maxNumOfMsgs
        invariant 0 <= i <= maxNumOfMsgs && Valid() && |free| == i && used == []
        invariant forall m | m in free :: fresh(m)
      {
        var node := new MsgNode();
        AddToListTail(true, node);
        i := i + 1;
      }
    }

    /** _AddToListTail. */
    method AddToListTail(bFree: bool, node: MsgNode)
      requires Valid() && node !in free && node !in used
      modifies this`pFreeHead, this`pUsedHead, this`free, this`used
      modifies node`prev, node`next
      modifies (if bFree then set m | m in free else set m | m in used)`prev
      modifies (if bFree then set m | m in free else set m | m in used)`next
      ensures Valid()
      ensures free == (if bFree then old(free) + [node] else old(free))
      ensures used == (if bFree then old(used) else old(used) + [node])
    {
      var cur: MsgNode? := null;
      if bFree {
        if pFreeHead == null {
          pFreeHead := node;
          node.prev := node;
          node.next := null;
        } else {
          cur := pFreeHead;
        }
        free := free + [node];
      } else {
        if pUsedHead == null {
          pUsedHead := node;
          node.prev := node;
          node.next := null;
        } else {
          cur := pUsedHead;
        }
        used := used + [node];
      }
      if cur != null {
        LinkBehind(cur, node, if bFree then old(free) else old(used));
      }
    }

    /** _RemoveFromListHead. */
    method RemoveFromListHead(bFree: bool) returns (p: MsgNode?)
      requires Valid()
      modifies this`pFreeHead, this`pUsedHead, this`free, this`used
      modifies (if bFree then set m | m in free else set m | m in used)`prev
      ensures Valid()
      ensures p == At(if bFree then old(free) else old(used), 0)
      ensures free == (if bFree && old(free) != [] then old(free)[1..] else old(free))
      ensures used == (if !bFree && old(used) != [] then old(used)[1..] else old(used))
    {
      var cur := if bFree then pFreeHead else pUsedHead;
      p := cur;
      if cur != null {
        if cur.next != null {
          cur.next.prev := cur.prev;
        }
        cur := cur.next;
      }
      if bFree {
        pFreeHead := cur;
        free := if free == [] then [] else free[1..];
      } else {
        pUsedHead := cur;
        used := if used == [] then [] else used[1..];
      }
    }
  }
}
