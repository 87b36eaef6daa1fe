/** Whole histories of the deque of loop.c: no item is lost or doubled. */
module RingHistory {
  import opened Bytes
  import opened LoopList

  datatype Op = PushT(x: Item) | PushH(x: Item) | PopH | PopT | Drop(x: Item) | ClearAll

  /** The items, what del_func has got, and what came back to the caller by a pop or a removal. */
  datatype History = History(items: seq<Item>, deleted: seq<Item>, handedOut: seq<Item>, pushed: seq<Item>)

  /** One operation on a ring with a del_func. */
  function Perform(h: History, cap: nat, op: Op): History {
    match op
    case PushT(x) =>
      var (s, e) := PushTail(h.items, cap, x);
      h.(items := s, deleted := h.deleted + e, pushed := h.pushed + [x])
    case PushH(x) =>
      var (s, e) := PushHead(h.items, cap, x);
      h.(items := s, deleted := h.deleted + e, pushed := h.pushed + [x])
    case PopH => if h.items == [] then h else h.(items := h.items[1..], handedOut := h.handedOut + [h.items[0]])
    case PopT =>
      if h.items == [] then h
      else
        var n := |h.items| - 1;
        h.(items := h.items[..n], handedOut := h.handedOut + [h.items[n]])
    case Drop(x) =>
      h.(items := RemoveFirst(h.items, x), handedOut := if x in h.items then h.handedOut + [x] else h.handedOut)
    case ClearAll => h.(items := [], deleted := h.deleted + h.items)
  }

  function PerformAll(h: History, cap: nat, ops: seq<Op>): History
    decreases |ops|
  {
    if ops == [] then h else PerformAll(Perform(h, cap, ops[0]), cap, ops[1..])
  }

  /** Every pushed item is in exactly one place: the ring, del_func, or a caller. */
  ghost predicate Conserved(h: History) {
    multiset(h.pushed) == multiset(h.items) + multiset(h.deleted) + multiset(h.handedOut)
  }

  lemma PushConserves(h: History, cap: nat, op: Op)
    requires op.PushT? || op.PushH?
    requires Conserved(h) && |h.items| <= cap && 0 < cap
    ensures Conserved(Perform(h, cap, op)) && |Perform(h, cap, op).items| <= cap
  {
    var h' := Perform(h, cap, op);
    if |h.items| == cap {
      var n := |h.items| - 1;
      assert h.items == h.items[..1] + h.items[1..];
      assert h.items == h.items[..n] + h.items[n..];
    }
  }

  lemma OtherConserves(h: History, cap: nat, op: Op)
    requires !op.PushT? && !op.PushH? && !op.Drop?
    requires Conserved(h) && |h.items| <= cap
    ensures Conserved(Perform(h, cap, op)) && |Perform(h, cap, op).items| <= cap
  {
    match op
    case PopH =>
      if h.items != [] { assert h.items == [h.items[0]] + h.items[1..]; }
    case PopT =>
      if h.items != [] {
        var n := |h.items| - 1;
        assert h.items == h.items[..n] + [h.items[n]];
      }
    case ClearAll =>
  }

  lemma DropConserves(h: History, cap: nat, x: Item)
    requires Conserved(h) && |h.items| <= cap
    ensures Conserved(Perform(h, cap, Drop(x))) && |Perform(h, cap, Drop(x)).items| <= cap
  {
    RemoveFirstCounts(h.items, x);
    RemoveFirstShorter(h.items, x);
    if x in h.items {
      assert multiset(h.items) == multiset(RemoveFirst(h.items, x)) + multiset{x};
    } else {
      RemoveFirstAbsent(h.items, x);
    }
  }

  lemma {:induction false} RemoveFirstShorter(s: seq<Item>, x: Item)
    ensures |RemoveFirst(s, x)| <= |s|
  {
    if s != [] {
      RemoveFirstShorter(s[1..], x);
    }
  }

  /** After any sequence of operations, nothing has been lost or doubled, and the ring is within its bound. */
  lemma {:induction false} HistoryConserved(h: History, cap: nat, ops: seq<Op>)
    requires Conserved(h) && |h.items| <= cap && 0 < cap
    ensures var e := PerformAll(h, cap, ops); Conserved(e) && |e.items| <= cap
    decreases |ops|
  {
    hide Conserved, Perform;
    if ops != [] {
      if ops[0].PushT? || ops[0].PushH? {
        PushConserves(h, cap, ops[0]);
      } else if ops[0].Drop? {
        DropConserves(h, cap, ops[0].x);
      } else {
        OtherConserves(h, cap, ops[0]);
      }
      HistoryConserved(Perform(h, cap, ops[0]), cap, ops[1..]);
    }
  }

  /** Removal keeps the order of everything else: only the first occurrence is cut out. */
  lemma RemovalCutsFirst(s: seq<Item>, x: Item)
    requires x in s
    ensures exists i :: (0 <= i < |s| && s[i] == x && x !in s[..i] && RemoveFirst(s, x) == s[..i] + s[i + 1..])
  {
    hide RemoveFirst, FirstIndex;
    var i := FirstIndex(s, x);
    RemoveFirstAt(s, x, i);
  }

  function FirstIndex(s: seq<Item>, x: Item): (i: nat)
    requires x in s
    ensures i < |s| && s[i] == x && x !in s[..i]
  {
    if s[0] == x then 0 else 1 + FirstIndex(s[1..], x)
  }

  /** The ring object performs exactly the operations of the history. */
  method PerformOn(l: Loop, op: Op, ghost h: History) returns (out: Option<Item>, ghost h': History)
    requires l.Valid() && l.hasDelete && h.items == l.Contents() && h.deleted == l.deleted
    modifies l, l.items
    ensures l.Valid() && l.Capacity() == old(l.Capacity())
    ensures h' == Perform(h, l.Capacity(), op)
    ensures h'.items == l.Contents() && h'.deleted == l.deleted
    ensures op.PopH? || op.PopT? ==> h'.handedOut == h.handedOut + (if out.Some? then [out.value] else [])
  {
    out := None;
    h' := Perform(h, l.Capacity(), op);
    match op
    case PushT(x) => l.PushToTail(x);
    case PushH(x) => l.PushToHead(x);
    case PopH => out := l.PopFromHead();
    case PopT => out := l.PopFromTail();
    case Drop(x) => l.Remove(x);
    case ClearAll => l.Clear();
  }
}
