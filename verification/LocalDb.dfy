/** The file table of pgDB/pgLocalDB.c and the ring of records kept in memory beside it. */
module LocalDb {
  import opened Bytes
  import opened LoopList

  type Name = seq<byte>

  datatype Row = Row(name: Name, time: int, size: int)

  const MAX_FILES_NUM: nat := 1000

  // ---- The SQL statements ----

  /** The first row of that name, or the number of rows. */
  function IndexOf(rows: seq<Row>, name: Name): (i: nat)
    ensures i <= |rows| && forall j | 0 <= j < i :: rows[j].name != name
    ensures i < |rows| ==> rows[i].name == name
  {
    if rows == [] || rows[0].name == name then 0 else 1 + IndexOf(rows[1..], name)
  }

  function Lookup(rows: seq<Row>, name: Name): (r: Option<Row>)
    ensures r.Some? ==> r.value in rows && r.value.name == name
    ensures r.None? ==> forall i | 0 <= i < |rows| :: rows[i].name != name
  {
    var i := IndexOf(rows, name);
    if i < |rows| then Some(rows[i]) else None
  }

  /** UPDATE FileInfoTable SET time, size WHERE name. */
  function SetAll(rows: seq<Row>, name: Name, time: int, size: int): (r: seq<Row>)
    ensures |r| == |rows|
    ensures forall i | 0 <= i < |r| :: r[i] == if rows[i].name == name then Row(name, time, size) else rows[i]
  {
    seq(|rows|, i requires 0 <= i < |rows| => if rows[i].name == name then Row(name, time, size) else rows[i])
  }

  /** The table after the row of that name was updated, or inserted when there was none. */
  function Recorded(rows: seq<Row>, name: Name, time: int, size: int): seq<Row> {
    if Lookup(rows, name).Some? then SetAll(rows, name, time, size) else rows + [Row(name, time, size)]
  }

  ghost predicate Distinct(rows: seq<Row>) {
    forall i, j | 0 <= i < j < |rows| :: rows[i].name != rows[j].name
  }

  /** The rows that fit the ring. */
  function Last(rows: seq<Row>): (r: seq<Row>)
    ensures |rows| < 1000 ==> r == rows
    ensures forall i | 0 <= i < |r| :: r[i] in rows
  {
    if |rows| < 1000 then rows else rows[|rows| - 999..]
  }

  lemma RecordedDistinct(rows: seq<Row>, name: Name, time: int, size: int)
    requires Distinct(rows)
    ensures Distinct(Recorded(rows, name, time, size))
  {
  }

  /** A recorded file is found with what was recorded; all others are found as before. */
  lemma RecordedLookup(rows: seq<Row>, name: Name, time: int, size: int, other: Name)
    requires Distinct(rows)
    ensures Lookup(Recorded(rows, name, time, size), other)
         == if other == name then Some(Row(name, time, size)) else Lookup(rows, other)
  {
    var r := Recorded(rows, name, time, size);
    RecordedDistinct(rows, name, time, size);
    var i := IndexOf(rows, other);
    if i < |rows| {
      LookupAt(r, i);
    } else if other == name {
      LookupAt(r, |rows|);
    } else {
      assert forall k | 0 <= k < |r| :: r[k].name != other;
    }
  }

  lemma LookupAt(rows: seq<Row>, i: nat)
    requires Distinct(rows) && i < |rows|
    ensures Lookup(rows, rows[i].name) == Some(rows[i])
  {
  }

  /** The ring has a record of that name only if it is the table's. */
  lemma LookupLast(rows: seq<Row>, name: Name)
    requires Distinct(rows)
    ensures Lookup(Last(rows), name).Some? ==> Lookup(Last(rows), name) == Lookup(rows, name)
    ensures Lookup(rows, name).None? ==> Lookup(Last(rows), name).None?
  {
    var k := |rows| - |Last(rows)|;
    var i := IndexOf(Last(rows), name);
    if i < |Last(rows)| {
      assert Last(rows)[i] == rows[k + i];
      LookupAt(rows, k + i);
    }
  }

  lemma LastDistinct(rows: seq<Row>)
    requires Distinct(rows)
    ensures Distinct(Last(rows))
  {
  }

  // ---- The ring follows the table ----

  /** A full ring gives up its oldest record. */
  function Pushed(s: seq<Row>, r: Row): seq<Row> {
    if |s| == 999 then s[1..] + [r] else s + [r]
  }

  /** A row behind all others: the ring pushes it, and the oldest record gives way when it is full. */
  lemma LastInsert(rows: seq<Row>, r: Row)
    ensures Last(rows + [r]) == Pushed(Last(rows), r)
  {
    if |rows| >= 999 {
      DropAppend(rows, r, |rows| - 999);
    }
  }

  lemma DropAppend(rows: seq<Row>, r: Row, k: nat)
    requires k < |rows|
    ensures (rows + [r])[k + 1..] == rows[k..][1..] + [r]
  {
  }

  lemma LastPrefix(rows: seq<Row>)
    ensures Last(rows[..0]) == [] && rows[..|rows|] == rows
  {
  }

  lemma LastUpdate(rows: seq<Row>, name: Name, time: int, size: int)
    ensures Last(SetAll(rows, name, time, size)) == SetAll(Last(rows), name, time, size)
  {
  }

  lemma SetNothing(rows: seq<Row>, name: Name, time: int, size: int)
    requires Lookup(rows, name).None?
    ensures SetAll(rows, name, time, size) == rows
  {
  }

  // ---- Records in memory ----

  /** The records that the pointers of the ring lead to. */
  ghost function At(recs: seq<Row>, ring: seq<Item>): (s: seq<Row>)
    requires forall i | 0 <= i < |ring| :: 0 <= ring[i] < |recs|
    ensures |s| == |ring| && forall i | 0 <= i < |s| :: s[i] == recs[ring[i]]
  {
    seq(|ring|, i requires 0 <= i < |ring| => recs[ring[i]])
  }

  ghost predicate Pointers(recs: seq<Row>, ring: seq<Item>) {
    && (forall i | 0 <= i < |ring| :: 0 <= ring[i] < |recs|)
    && (forall i, j | 0 <= i < j < |ring| :: ring[i] != ring[j])
  }

  lemma PushRecord(recs: seq<Row>, ring: seq<Item>, r: Row)
    requires Pointers(recs, ring)
    ensures var p := PushTail(ring, 999, |recs|).0;
      && Pointers(recs + [r], p)
      && At(recs + [r], p) == Pushed(At(recs, ring), r)
  {
    var p := PushTail(ring, 999, |recs|).0;
    assert forall i | 0 <= i < |ring| :: (recs + [r])[ring[i]] == recs[ring[i]];
  }

  lemma WriteRecord(recs: seq<Row>, ring: seq<Item>, k: nat, time: int, size: int)
    requires Pointers(recs, ring) && k < |ring| && Distinct(At(recs, ring))
    ensures var name := recs[ring[k]].name;
      var recs' := recs[ring[k] := Row(name, time, size)];
      Pointers(recs', ring) && At(recs', ring) == SetAll(At(recs, ring), name, time, size)
  {
  }

  class Database {
    const ring: Loop
    var table: seq<Row>
    var recs: seq<Row>           // every record allocated so far; a pointer is a position in here

    ghost predicate Shape()
      reads this, ring, ring.items
    {
      ring.Valid() && ring.Capacity() == 999 && ring.hasDelete && Pointers(recs, ring.Contents())
    }

    ghost function Cached(): seq<Row>
      requires Shape()
      reads this, ring, ring.items
    {
      At(recs, ring.Contents())
    }

    /** The ring holds the last 999 rows of the table, in the order of the table. */
    ghost predicate Valid()
      reads this, ring, ring.items
    {
      Shape() && Distinct(table) && Cached() == Last(table)
    }

    ghost function Repr(): set<object>
      reads this
    {
      {this, ring, ring.items}
    }

    /** localDBInit over the rows that earlier runs left. */
    constructor (rows: seq<Row>)
      requires Distinct(rows)
      ensures Valid() && table == rows && fresh(Repr())
    {
      ring := new Loop(MAX_FILES_NUM, true);
      table := rows;
      recs := [];
      new;
      LoadRows(rows);
    }

    /** The loop of localDBInit over the rows of the table. */
    method LoadRows(rows: seq<Row>)
      requires Shape() && Cached() == [] && table == rows
      modifies this`recs, ring, ring.items
      ensures Shape() && Cached() == Last(rows)
    {
      hide Loop.Valid, Loop.Contents, PushTail, Pointers, At, Last, Pushed, Shape, Cached;
      var i := 0;
      LastPrefix(rows);
      while i < |rows|
        invariant i <= |rows| && Shape()
        invariant Cached() == Last(rows[..i])
      {
        LastInsert(rows[..i], rows[i]);
        assert rows[..i + 1] == rows[..i] + [rows[i]];
        Push(rows[i]);
        i := i + 1;
      }
    }

    /** malloc a record, fill it in, and loop_push_to_tail. */
    method Push(r: Row)
      requires Shape()
      modifies this`recs, ring, ring.items
      ensures Shape()
      ensures Cached() == Pushed(old(Cached()), r)
    {
      hide Loop.Valid, Loop.Contents, PushTail, Pointers, At;
      PushRecord(recs, ring.Contents(), r);
      ring.PushToTail(|recs|);
      recs := recs + [r];
    }

    /** localDBGetRec: the record that loop_search finds first. */
    method GetRec(name: Name) returns (p: Option<Item>)
      requires Valid()
      ensures p.None? <==> Lookup(Cached(), name).None?
      ensures p.Some? ==> 0 <= p.value < |recs| && Some(recs[p.value]) == Lookup(Cached(), name)
      ensures p.Some? ==> exists k :: 0 <= k < |ring.Contents()| && ring.Contents()[k] == p.value
    {
      hide Loop.Valid, Loop.Contents, Last, Lookup;
      var rs := recs;
      var search := (x: Item) => 0 <= x < |rs| && rs[x].name == name;
      p := ring.Search(search);
      LastDistinct(table);
      ghost var c := ring.Contents();
      if p.Some? {
        ghost var k :| 0 <= k < |c| && p == Some(c[k]) && search(p.value);
        LookupAt(Cached(), k);
      } else {
        assert forall k | 0 <= k < |c| :: Cached()[k].name != name;
      }
    }

    /**
     * localDBUpdate writes to the table only. On its own it leaves ring and table in step exactly if the
     * ring has no record of that name, or has it with these very values.
     */
    method Update(name: Name, time: int, size: int)
      requires Shape() && Distinct(table)
      modifies this`table
      ensures Shape() && Distinct(table) && Cached() == old(Cached())
      ensures table == SetAll(old(table), name, time, size)
      ensures old(Valid()) ==>
        (Valid() <==> Lookup(old(Cached()), name) in {None, Some(Row(name, time, size))})
    {
      UpdateEffect(table, Cached(), name, time, size);
      hide Loop.Valid, Loop.Contents, Loop.Capacity, At, Pointers, Last, Lookup, SetAll, Distinct;
      table := SetAll(table, name, time, size);
    }

    /**
     * localDBAdd. It updates a row without touching the record in the ring, so ring and table stay in
     * step exactly if the ring has no record of that name, or has it with these very values.
     */
    method Add(name: Name, time: int, size: int)
      requires Valid()
      modifies this`table, this`recs, ring, ring.items
      ensures Shape() && table == Recorded(old(table), name, time, size)
      ensures Valid() <==> old(Lookup(Cached(), name)) in {None, Some(Row(name, time, size))}
    {
      hide Loop.Valid, Loop.Contents, Loop.Capacity, At, Pointers, Last, Pushed, SetAll, Lookup, Distinct, Recorded;
      AddEffect(table, name, time, size);
      if Lookup(table, name).Some? {
        Update(name, time, size);
      } else {
        table := table + [Row(name, time, size)];
        Push(Row(name, time, size));
      }
    }

    /** The bookkeeping of client_pg_syncFile: the record in place and the row, or both anew. */
    method Record(name: Name, time: int, size: int)
      requires Valid()
      modifies this`table, this`recs, ring, ring.items
      ensures Valid() && table == Recorded(old(table), name, time, size)
    {
      hide Loop.Valid, Loop.Contents, At, Last, SetAll, IndexOf;
      var p := GetRec(name);
      if p.Some? {
        ghost var k :| 0 <= k < |ring.Contents()| && ring.Contents()[k] == p.value;
        LastDistinct(table);
        WriteRecord(recs, ring.Contents(), k, time, size);
        RecordedDistinct(table, name, time, size);
        LastUpdate(table, name, time, size);
        LookupLast(table, name);
        recs := recs[p.value := Row(name, time, size)];
        Update(name, time, size);
      } else {
        Add(name, time, size);
      }
    }

    /** localDBDelAll empties table and ring alike. */
    method DelAll()
      requires Valid()
      modifies this`table, ring
      ensures Valid() && table == []
    {
      table := [];
      ring.Clear();
    }
  }

  lemma UpdateEffect(rows: seq<Row>, cached: seq<Row>, name: Name, time: int, size: int)
    requires Distinct(rows)
    ensures Distinct(SetAll(rows, name, time, size))
    ensures cached == Last(rows) ==>
      (cached == Last(SetAll(rows, name, time, size)) <==> Lookup(cached, name) in {None, Some(Row(name, time, size))})
  {
    StillLast(rows, name, time, size);
    LastUpdate(rows, name, time, size);
    hide Last, Lookup;
  }

  /** What localDBAdd does to the table, and when the ring of before the call still matches. */
  lemma AddEffect(rows: seq<Row>, name: Name, time: int, size: int)
    requires Distinct(rows)
    ensures var rows' := Recorded(rows, name, time, size); var r := Row(name, time, size);
      && Distinct(rows')
      && (Lookup(rows, name).Some? ==>
            && rows' == SetAll(rows, name, time, size)
            && (Last(rows') == Last(rows) <==> Lookup(Last(rows), name) in {None, Some(r)}))
      && (Lookup(rows, name).None? ==>
            && rows' == rows + [r] && Lookup(Last(rows), name) == None
            && Last(rows') == Pushed(Last(rows), r))
  {
    hide Lookup, SetAll, Last, Pushed;
    RecordedDistinct(rows, name, time, size);
    if Lookup(rows, name).Some? {
      StillLast(rows, name, time, size);
      LastUpdate(rows, name, time, size);
    } else {
      LastInsert(rows, Row(name, time, size));
      LookupLast(rows, name);
    }
  }

  /** Updating the rows of one name shows in the last rows exactly if they held something else. */
  lemma StillLast(rows: seq<Row>, name: Name, time: int, size: int)
    requires Distinct(rows)
    ensures SetAll(Last(rows), name, time, size) == Last(rows)
        <==> Lookup(Last(rows), name) in {None, Some(Row(name, time, size))}
  {
    var s := Last(rows);
    LastDistinct(rows);
    if Lookup(s, name).None? {
      SetNothing(s, name, time, size);
    } else {
      var i := IndexOf(s, name);
      assert SetAll(s, name, time, size)[i] == Row(name, time, size);
    }
  }
}
