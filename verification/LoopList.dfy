/** The bounded deque of loop/loop.c: a ring of pointers with one slot left empty. */
module LoopList {
  import opened Bytes

  /** A `void*` payload, as a name. */
  type Item = int

  // ---- Ring positions ----

  /** (i + k) wrapped once around a ring of n slots. */
  function Slot(i: nat, k: nat, n: nat): (j: nat)
    requires i < n && k <= n
    ensures j < n
  {
    if i + k < n then i + k else i + k - n
  }

  lemma NextSlot(i: nat, n: nat)
    requires i < n
    ensures (i + 1) % n == Slot(i, 1, n)
  {
    if i + 1 == n {
      assert n % n == 0;
    } else {
      SmallMod(i + 1, n);
    }
  }

  lemma PreviousSlot(i: nat, n: nat)
    requires i < n
    ensures (n + i - 1) % n == if i == 0 then n - 1 else i - 1
  {
    if i == 0 {
      SmallMod(n - 1, n);
    } else {
      SmallMod(i - 1, n);
      assert (n + (i - 1)) % n == (i - 1) % n;
    }
  }

  lemma SmallMod(x: nat, n: nat)
    requires x < n
    ensures x % n == x
  {
  }

  /** `(i+1)%size` of the source. */
  function Next(i: nat, n: nat): (j: nat)
    requires i < n
    ensures j == Slot(i, 1, n)
  {
    NextSlot(i, n);
    (i + 1) % n
  }

  /** `(size+i-1)%size` of the source. */
  function Previous(i: nat, n: nat): (j: nat)
    requires i < n
    ensures j == if i == 0 then n - 1 else i - 1
  {
    PreviousSlot(i, n);
    (n + i - 1) % n
  }

  /** The k items of ring a that start at slot h. */
  ghost function View(a: seq<Item>, h: nat, k: nat): (s: seq<Item>)
    requires h < |a| && k <= |a|
    ensures |s| == k
  {
    seq(k, i requires 0 <= i < k => a[Slot(h, i, |a|)])
  }

  lemma ViewAppend(a: seq<Item>, h: nat, k: nat, x: Item)
    requires h < |a| && k < |a|
    ensures View(a[Slot(h, k, |a|) := x], h, k + 1) == View(a, h, k) + [x]
  {
  }

  lemma ViewPrepend(a: seq<Item>, h: nat, k: nat, x: Item)
    requires h < |a| && k < |a|
    ensures var h' := if h == 0 then |a| - 1 else h - 1;
      View(a[h' := x], h', k + 1) == [x] + View(a, h, k)
  {
    var h' := if h == 0 then |a| - 1 else h - 1;
    forall i | 0 <= i < k
      ensures Slot(h', i + 1, |a|) == Slot(h, i, |a|) && Slot(h, i, |a|) != h'
    {
    }
  }

  lemma ViewShorter(a: seq<Item>, h: nat, k: nat)
    requires h < |a| && 0 < k <= |a|
    ensures View(a, h, k - 1) == View(a, h, k)[..k - 1]
    ensures View(a, Slot(h, 1, |a|), k - 1) == View(a, h, k)[1..]
  {
  }

  lemma FirstOfView(a: seq<Item>, h: nat, k: nat)
    requires h < |a| && 0 < k <= |a|
    ensures View(a, h, k)[0] == a[h]
  {
  }

  lemma LastOfView(a: seq<Item>, h: nat, k: nat)
    requires h < |a| && 0 < k <= |a|
    ensures View(a, h, k)[k - 1] == a[Slot(h, k - 1, |a|)]
  {
  }

  lemma ViewAt(a: seq<Item>, h: nat, n: nat, j: nat)
    requires h < |a| && j < n <= |a|
    ensures View(a, h, n)[j] == a[Slot(h, j, |a|)]
  {
  }

  lemma ViewSet(a: seq<Item>, h: nat, n: nat, j: nat, x: Item)
    requires h < |a| && j < n <= |a|
    ensures View(a[Slot(h, j, |a|) := x], h, n) == View(a, h, n)[j := x]
  {
  }

  /** s after the items behind k have moved up as far as j. */
  ghost function Shifted(s: seq<Item>, k: nat, j: nat): (r: seq<Item>)
    requires k <= j < |s|
    ensures |r| == |s| && r[j..] == s[j..]
    ensures k == j ==> r == s
    ensures j + 1 == |s| ==> r[..j] == s[..k] + s[k + 1..]
  {
    s[..k] + s[k + 1..j + 1] + s[j..]
  }

  lemma ShiftStep(s: seq<Item>, k: nat, j: nat)
    requires k <= j < |s| - 1
    ensures Shifted(s, k, j)[j := s[j + 1]] == Shifted(s, k, j + 1)
    ensures Shifted(s, k, j)[j + 1] == s[j + 1]
  {
    assert Shifted(s, k, j)[j + 1] == Shifted(s, k, j)[j..][1];
  }

  // ---- What each operation does to the sequence of items ----

  function PushTail(s: seq<Item>, cap: nat, x: Item): (seq<Item>, seq<Item>) {
    if |s| == cap && s != [] then (s[1..] + [x], s[..1]) else (s + [x], [])
  }

  function PushHead(s: seq<Item>, cap: nat, x: Item): (seq<Item>, seq<Item>) {
    if |s| == cap && s != [] then ([x] + s[..|s| - 1], s[|s| - 1..]) else ([x] + s, [])
  }

  /** s without its first x. */
  function RemoveFirst(s: seq<Item>, x: Item): seq<Item> {
    if s == [] then [] else if s[0] == x then s[1..] else [s[0]] + RemoveFirst(s[1..], x)
  }

  lemma {:induction false} RemoveFirstAt(s: seq<Item>, x: Item, i: nat)
    requires i < |s| && s[i] == x && x !in s[..i]
    ensures RemoveFirst(s, x) == s[..i] + s[i + 1..]
  {
    if i > 0 {
      assert s[0] == s[..i][0];
      assert s[1..][..i - 1] == s[..i][1..];
      RemoveFirstAt(s[1..], x, i - 1);
      assert s[..i] == [s[0]] + s[1..][..i - 1];
    }
  }

  lemma {:induction false} RemoveFirstAbsent(s: seq<Item>, x: Item)
    requires x !in s
    ensures RemoveFirst(s, x) == s
  {
    if s != [] {
      RemoveFirstAbsent(s[1..], x);
    }
  }

  lemma {:induction false} RemoveFirstCounts(s: seq<Item>, x: Item)
    ensures multiset(RemoveFirst(s, x)) == multiset(s) - multiset{x}
  {
    if s != [] {
      assert s == [s[0]] + s[1..];
      RemoveFirstCounts(s[1..], x);
    }
  }

  // ---- The object ----

  class Loop {
    const items: array<Item>
    const hasDelete: bool        // del_func is set
    var head: nat
    var tail: nat
    var deleted: seq<Item>       // what has been handed to del_func so far

    ghost predicate Valid()
      reads this
    {
      2 <= items.Length && head < items.Length && tail < items.Length
    }

    ghost function Length(): (n: nat)
      requires Valid()
      reads this
      ensures n < items.Length && tail == Slot(head, n, items.Length)
    {
      if head <= tail then tail - head else items.Length - head + tail
    }

    /** The items from head to tail. */
    ghost function Contents(): (s: seq<Item>)
      requires Valid()
      reads this, items
      ensures |s| == Length()
    {
      View(items[..], head, Length())
    }

    ghost function Capacity(): nat
      requires Valid()
      reads this
    {
      items.Length - 1
    }

    /** loop_create, for a ring of at least two slots. */
    constructor (size: nat, hasDelete: bool)
      requires 2 <= size
      ensures Valid() && fresh(items) && this.hasDelete == hasDelete
      ensures Contents() == [] && Capacity() == size - 1 && deleted == []
    {
      items := new Item[size];
      this.hasDelete := hasDelete;
      head, tail, deleted := 0, 0, [];
    }

    /** loop_push_to_tail: when full, the item at the head gives way. */
    method PushToTail(data: Item)
      requires Valid()
      modifies this, items
      ensures Valid()
      ensures Contents() == if |old(Contents())| == Capacity() then old(Contents())[1..] + [data]
                            else old(Contents()) + [data]
      ensures Contents() == PushTail(old(Contents()), Capacity(), data).0
      ensures deleted == if hasDelete then old(deleted) + PushTail(old(Contents()), Capacity(), data).1
                        else old(deleted)
    {
      hide View, Next, Previous;
      if Next(tail, items.Length) == head {
        EvictHead();
      }
      ghost var k := Length();
      ViewAppend(items[..], head, k, data);
      items[tail] := data;
      tail := Next(tail, items.Length);
      assert Length() == k + 1;
    }

    /** The full case of loop_push_to_tail: the item at the head goes to del_func. */
    method EvictHead()
      requires Valid() && Contents() != []
      modifies this`head, this`deleted
      ensures Valid()
      ensures Contents() == old(Contents())[1..]
      ensures deleted == if hasDelete then old(deleted) + old(Contents())[..1] else old(deleted)
    {
      ViewShorter(items[..], head, Length());
      FirstOfView(items[..], head, Length());
      hide View, Next, Previous;
      if hasDelete {
        deleted := deleted + [items[head]];
      }
      head := Next(head, items.Length);
    }

    /** The full case of loop_push_to_head: the item at the tail goes to del_func. */
    method EvictTail()
      requires Valid() && Contents() != []
      modifies this`tail, this`deleted
      ensures Valid()
      ensures Contents() == old(Contents())[..|old(Contents())| - 1]
      ensures deleted == if hasDelete then old(deleted) + old(Contents())[|old(Contents())| - 1..] else old(deleted)
    {
      ViewShorter(items[..], head, Length());
      LastOfView(items[..], head, Length());
      hide View, Next, Previous;
      tail := Previous(tail, items.Length);
      if hasDelete {
        deleted := deleted + [items[tail]];
      }
    }

    /** loop_push_to_head: when full, the item at the tail gives way. */
    method PushToHead(data: Item)
      requires Valid()
      modifies this, items
      ensures Valid()
      ensures Contents() == if |old(Contents())| == Capacity() then [data] + old(Contents())[..Capacity() - 1]
                            else [data] + old(Contents())
      ensures Contents() == PushHead(old(Contents()), Capacity(), data).0
      ensures deleted == if hasDelete then old(deleted) + PushHead(old(Contents()), Capacity(), data).1
                        else old(deleted)
    {
      hide View, Next, Previous;
      if Previous(head, items.Length) == tail {
        EvictTail();
      }
      ViewPrepend(items[..], head, Length(), data);
      ghost var k := Length();
      head := Previous(head, items.Length);
      items[head] := data;
      assert Length() == k + 1;
    }

    /** loop_pop_from_head. */
    method PopFromHead() returns (p: Option<Item>)
      requires Valid()
      modifies this`head
      ensures Valid()
      ensures var s := old(Contents());
        if s == [] then p == None && Contents() == [] else p == Some(s[0]) && Contents() == s[1..]
    {
      p := None;
      if tail != head {
        p := Some(items[head]);
        head := Next(head, items.Length);
      }
    }

    /** loop_pop_from_tail. */
    method PopFromTail() returns (p: Option<Item>)
      requires Valid()
      modifies this`tail
      ensures Valid()
      ensures var s := old(Contents());
        if s == [] then p == None && Contents() == []
        else p == Some(s[|s| - 1]) && Contents() == s[..|s| - 1]
    {
      p := None;
      if tail != head {
        tail := Previous(tail, items.Length);
        p := Some(items[tail]);
      }
    }

    /** loop_search, for a search function given by its answers. */
    method Search(search: Item -> bool) returns (p: Option<Item>)
      requires Valid()
      ensures p.Some? ==> exists k :: (0 <= k < |Contents()| && p == Some(Contents()[k]) && search(p.value)
                                       && forall j | 0 <= j < k :: !search(Contents()[j]))
      ensures p.None? ==> forall k | 0 <= k < |Contents()| :: !search(Contents()[k])
    {
      var i := head;
      ghost var k := 0;
      while i != tail
        invariant 0 <= k <= Length() && i == Slot(head, k, items.Length)
        invariant forall j | 0 <= j < k :: !search(Contents()[j])
        decreases Length() - k
      {
        if search(items[i]) {
          assert Contents()[k] == items[i];
          return Some(items[i]);
        }
        i := Next(i, items.Length);
        k := k + 1;
      }
      return None;
    }

    /** loop_clear: everything goes to del_func. */
    method Clear()
      requires Valid()
      modifies this
      ensures Valid() && Contents() == []
      ensures deleted == if hasDelete then old(deleted) + old(Contents()) else old(deleted)
    {
      if hasDelete {
        var i := head;
        ghost var k := 0;
        while i != tail
          invariant head == old(head) && tail == old(tail)
          invariant 0 <= k <= Length() && i == Slot(head, k, items.Length)
          invariant deleted == old(deleted) + Contents()[..k]
          decreases Length() - k
        {
          deleted := deleted + [items[i]];
          i := Next(i, items.Length);
          k := k + 1;
        }
      }
      head, tail := 0, 0;
    }

    /** loop_remove: the first occurrence goes, and everything behind it moves up one slot. */
    method Remove(data: Item)
      requires Valid()
      modifies this`tail, items
      ensures Valid()
      ensures Contents() == RemoveFirst(old(Contents()), data)
    {
      var size := items.Length;
      ghost var was, n := Contents(), Length();
      var i := head;
      ghost var k := 0;
      while i != tail
        invariant 0 <= k <= n && i == Slot(head, k, size) && tail == old(tail)
        invariant data !in was[..k]
        invariant items[..] == old(items[..])
        decreases n - k
      {
        if items[i] == data {
          RemoveFirstAt(was, data, k);
          CloseGap(i, k);
          return;
        }
        i := Next(i, size);
        k := k + 1;
      }
      assert was[..k] == was;
      RemoveFirstAbsent(was, data);
    }

    /** The inner loop of loop_remove. */
    method CloseGap(start: nat, ghost k: nat)
      requires Valid() && k < Length() && start == Slot(head, k, items.Length)
      modifies this`tail, items
      ensures Valid()
      ensures Contents() == old(Contents())[..k] + old(Contents())[k + 1..]
    {
      hide Next, Previous, View, Shifted;
      var size := items.Length;
      ghost var was, n := Contents(), Length();
      tail := Previous(tail, size);
      var i := start;
      ghost var j := k;
      assert was == Shifted(was, k, k);
      while i != tail
        invariant k <= j <= n - 1 && i == Slot(head, j, size) && tail == Slot(head, n - 1, size)
        invariant View(items[..], head, n) == Shifted(was, k, j)
        decreases n - j
      {
        assert Next(i, size) == Slot(head, j + 1, size);
        ShiftStep(was, k, j);
        ViewAt(items[..], head, n, j + 1);
        ViewSet(items[..], head, n, j, was[j + 1]);
        items[i] := items[Next(i, size)];
        i := Next(i, size);
        j := j + 1;
      }
      assert Length() == n - 1;
      ViewShorter(items[..], head, n);
      assert Shifted(was, k, n - 1)[..n - 1] == was[..k] + was[k + 1..];
    }

    method IsEmpty() returns (r: bool)
      requires Valid()
      ensures r <==> Contents() == []
    {
      r := head == tail;
    }

    method IsFull() returns (r: bool)
      requires Valid()
      ensures r <==> |Contents()| == Capacity()
    {
      r := Previous(head, items.Length) == tail;
    }
  }
}
