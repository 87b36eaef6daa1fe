/**
 * File synchronisation of clirecvcmd5srv.c, client.c and clipg.c: a manifest of files, of which the
 * stale ones are requested one after the other, received in parts, stored and recorded.
 */
module SyncProtocol {
  import opened Bytes
  import opened LocalDb

  datatype Entry = Entry(name: Name, size: i32, time: i32)

  /** The content of a command, whose length parseSocketCmd adds up in an int. */
  type Part = s: seq<byte> | |s| < 0x8000_0000 witness []

  /** SERVER2CLI_MSG_SENDFILE with its three types; of the content of the first, whether cJSON_Parse takes it. */
  datatype Message = Begin(parses: bool) | Body(part: Part) | Over

  /** Broken: a null pointer was followed, or a buffer overrun. */
  datatype Status = Receiving | Finished | Broken

  /** data is pFileData up to actRecvSize; stored and asked record what went to disk and to the server. */
  datatype Sync = Sync(entries: seq<Entry>, curNo: nat, data: Option<seq<byte>>, rows: seq<Row>,
                       stored: map<Name, seq<byte>>, asked: seq<Name>, status: Status)

  function RowOf(e: Entry): Row {
    Row(e.name, e.time, e.size)
  }

  // ---- The steps ----

  /** find_file_from_local_db, which looks in the ring. */
  predicate IsFresh(rows: seq<Row>, e: Entry) {
    Lookup(Last(rows), e.name) == Some(RowOf(e))
  }

  /** Where the loop of client_getFileFromSet stops: the first stale file from i on. */
  function NextStale(entries: seq<Entry>, i: nat, rows: seq<Row>): (j: nat)
    requires i <= |entries|
    ensures i <= j <= |entries|
    ensures forall k | i <= k < j :: IsFresh(rows, entries[k])
    ensures j < |entries| ==> !IsFresh(rows, entries[j])
    decreases |entries| - i
  {
    if i < |entries| && IsFresh(rows, entries[i]) then NextStale(entries, i + 1, rows) else i
  }

  /** client_getFileFromSet, and what its callers do with the answer. */
  function GetFileFromSet(s: Sync): (r: Sync)
    requires s.curNo <= |s.entries|
  {
    var j := NextStale(s.entries, s.curNo, s.rows);
    if j < |s.entries| then s.(curNo := j, data := None, asked := s.asked + [s.entries[j].name])
    else s.(curNo := j, data := None, status := Finished)
  }

  /** SERVER2CLI_MSG_SYNCFILE. */
  function SyncFile(entries: seq<Entry>, rows: seq<Row>): Sync {
    GetFileFromSet(Sync(entries, 0, None, rows, map[], [], Receiving))
  }

  /** SERVER2CLI_MSG_COMPLETESYNC, which empties the database first. */
  function CompleteSync(entries: seq<Entry>): Sync {
    SyncFile(entries, [])
  }

  function Received(s: Sync): seq<byte> {
    if s.data.Some? then s.data.value else []
  }

  /** The state after the file has been written and recorded, before the next one is looked for. */
  function Recording(s: Sync): Sync
    requires s.curNo < |s.entries|
  {
    var e := s.entries[s.curNo];
    s.(stored := s.stored[e.name := Received(s)], rows := Recorded(s.rows, e.name, e.time, e.size),
       curNo := s.curNo + 1, data := None)
  }

  /** client_pg_syncFile: write the file, record it, advance. */
  function StoreFile(s: Sync): Sync
    requires s.curNo < |s.entries|
  {
    GetFileFromSet(Recording(s))
  }

  /**
   * The size test of a body, in which both sides are unsigned: a negative size in the manifest counts as
   * a huge one. A size of zero switches the test off.
   */
  predicate Accepts(size: i32, act: nat, len: nat) {
    (act + len) % 0x1_0000_0000 <= size % 0x1_0000_0000 || size == 0
  }

  /** There is a buffer, and it has room for the part. */
  predicate HasRoom(s: Sync, size: i32, len: nat) {
    s.data.Some? && |s.data.value| + len <= size
  }

  /** The SERVER2CLI_MSG_SENDFILE case of msgProc; malloc of a negative size gives a null pointer. */
  function Step(s: Sync, m: Message): Sync {
    if s.status != Receiving || s.curNo >= |s.entries| then s.(status := Broken)
    else
      var e := s.entries[s.curNo];
      var act := |Received(s)|;
      match m
      case Begin(parses) =>
        if parses then s.(data := if e.size >= 0 then Some([]) else None) else s.(status := Broken)
      case Body(part) =>
        if part == [] || !Accepts(e.size, act, |part|) then s
        else if HasRoom(s, e.size, |part|) then s.(data := Some(s.data.value + part))
        else s.(status := Broken)
      case Over => if e.size == act || e.size == 0 then StoreFile(s) else s
  }

  function Run(s: Sync, ms: seq<Message>): Sync
    decreases |ms|
  {
    if ms == [] then s else Run(Step(s, ms[0]), ms[1..])
  }

  ghost predicate DistinctNames(entries: seq<Entry>) {
    forall i, j | 0 <= i < j < |entries| :: entries[i].name != entries[j].name
  }

  // ---- The plan of a synchronisation ----

  /** The files requested, in order, and the table in the end: each file in turn, fresh or recorded. */
  function Plan(entries: seq<Entry>, rows: seq<Row>): (seq<Name>, seq<Row>) {
    if entries == [] then ([], rows)
    else
      var e := entries[0];
      if IsFresh(rows, e) then Plan(entries[1..], rows)
      else
        var rest := Plan(entries[1..], Recorded(rows, e.name, e.time, e.size));
        ([e.name] + rest.0, rest.1)
  }

  lemma {:induction false} PlanSkips(entries: seq<Entry>, i: nat, rows: seq<Row>)
    requires i <= |entries|
    ensures Plan(entries[i..], rows) == Plan(entries[NextStale(entries, i, rows)..], rows)
    decreases |entries| - i
  {
    hide IsFresh;
    if i < |entries| && IsFresh(rows, entries[i]) {
      assert entries[i..][1..] == entries[i + 1..];
      PlanSkips(entries, i + 1, rows);
    }
  }

  /** The requests that have been answered. */
  function Answered(s: Sync): seq<Name> {
    if s.status == Receiving && s.asked != [] then s.asked[..|s.asked| - 1] else s.asked
  }

  /** What has been asked and recorded, continued by the plan for the files not done yet. */
  function Planned(s: Sync): (seq<Name>, seq<Row>) {
    var rest := Plan(if s.curNo <= |s.entries| then s.entries[s.curNo..] else [], s.rows);
    (Answered(s) + rest.0, rest.1)
  }

  // ---- What holds whatever the server sends ----

  ghost predicate Inv(s: Sync) {
    && DistinctNames(s.entries) && Distinct(s.rows)
    && s.curNo <= |s.entries|
    && (s.status == Finished ==> s.curNo == |s.entries|)
    && (s.status == Receiving ==> Waits(s))
    && (forall n :: n in s.stored <==> n in Answered(s))
    && (forall k | s.curNo <= k < |s.entries| :: s.entries[k].name !in s.stored)
    && (forall k | 0 <= k < s.curNo :: Kept(s.rows, s.stored, s.entries[k]))
  }

  /** The file requested last is stale, and no more than its size has been received. */
  ghost predicate Waits(s: Sync) {
    && s.curNo < |s.entries| && s.asked != []
    && s.asked[|s.asked| - 1] == s.entries[s.curNo].name
    && !IsFresh(s.rows, s.entries[s.curNo])
    && (s.data.Some? ==> |s.data.value| <= s.entries[s.curNo].size)
  }

  /** A file passed is in the table as the manifest has it, and in full if it was requested. */
  ghost predicate Kept(rows: seq<Row>, stored: map<Name, seq<byte>>, e: Entry) {
    && Lookup(rows, e.name) == Some(RowOf(e))
    && (e.name in stored ==> |stored[e.name]| == e.size)
  }

  /** Between two files: the loop of client_getFileFromSet starts from here. */
  ghost predicate Between(s: Sync) {
    && DistinctNames(s.entries) && Distinct(s.rows)
    && s.curNo <= |s.entries| && s.status == Receiving
    && (forall n :: n in s.stored <==> n in s.asked)
    && (forall k | s.curNo <= k < |s.entries| :: s.entries[k].name !in s.stored)
    && (forall k | 0 <= k < s.curNo :: Kept(s.rows, s.stored, s.entries[k]))
  }

  lemma GetKeeps(s: Sync)
    requires Between(s)
    ensures var r := GetFileFromSet(s);
      Inv(r) && Planned(r) == (s.asked + Plan(s.entries[s.curNo..], s.rows).0, Plan(s.entries[s.curNo..], s.rows).1)
  {
    GetInv(s);
    PlanSkips(s.entries, s.curNo, s.rows);
    hide Inv, Between, Plan, NextStale;
    assert Answered(GetFileFromSet(s)) == s.asked;
  }

  lemma GetInv(s: Sync)
    requires Between(s)
    ensures Inv(GetFileFromSet(s))
  {
    var r := GetFileFromSet(s);
    GetKept(s);
    GetWaits(s);
    GetFields(s);
    hide IsFresh, Lookup, Distinct, DistinctNames, Kept, Waits, NextStale, GetFileFromSet, Answered;
  }

  lemma GetFields(s: Sync)
    requires s.curNo <= |s.entries| && s.status == Receiving
    ensures var r := GetFileFromSet(s);
      && r.entries == s.entries && r.rows == s.rows && r.stored == s.stored && s.curNo <= r.curNo <= |s.entries|
      && Answered(r) == s.asked && r.status != Broken
  {
    hide IsFresh, NextStale;
  }

  lemma GetWaits(s: Sync)
    requires Between(s)
    ensures var r := GetFileFromSet(s);
      if r.status == Receiving then Waits(r) else r.status == Finished && r.curNo == |r.entries|
  {
    hide IsFresh, Lookup, Distinct, DistinctNames, Kept;
  }

  lemma GetKept(s: Sync)
    requires Between(s)
    ensures forall k | 0 <= k < GetFileFromSet(s).curNo :: Kept(s.rows, s.stored, s.entries[k])
  {
    hide IsFresh, Lookup, Distinct, Kept, NextStale, DistinctNames;
    forall k | s.curNo <= k < GetFileFromSet(s).curNo
      ensures Kept(s.rows, s.stored, s.entries[k])
    {
      FreshKept(s.rows, s.stored, s.entries[k]);
    }
  }

  lemma FreshKept(rows: seq<Row>, stored: map<Name, seq<byte>>, e: Entry)
    requires Distinct(rows) && IsFresh(rows, e) && e.name !in stored
    ensures Kept(rows, stored, e)
  {
    LookupLast(rows, e.name);
  }

  lemma KeptAfter(rows: seq<Row>, stored: map<Name, seq<byte>>, cur: Entry, data: seq<byte>, f: Entry)
    requires Distinct(rows) && |data| == cur.size
    requires f == cur || (f.name != cur.name && Kept(rows, stored, f))
    ensures Kept(Recorded(rows, cur.name, cur.time, cur.size), stored[cur.name := data], f)
  {
    hide Recorded, Lookup, Distinct;
    RecordedLookup(rows, cur.name, cur.time, cur.size, f.name);
  }

  lemma RecordingBetween(s: Sync)
    requires Inv(s) && s.status == Receiving && |Received(s)| == s.entries[s.curNo].size
    ensures Between(Recording(s))
  {
    hide Recorded, Lookup, IsFresh, Distinct, Kept;
    var e := s.entries[s.curNo];
    forall k | 0 <= k <= s.curNo
      ensures Kept(Recording(s).rows, Recording(s).stored, s.entries[k])
    {
      KeptAfter(s.rows, s.stored, e, Received(s), s.entries[k]);
    }
    RecordedDistinct(s.rows, e.name, e.time, e.size);
    assert s.asked == Answered(s) + [e.name];
  }

  lemma StoreKeeps(s: Sync)
    requires Inv(s) && s.status == Receiving && |Received(s)| == s.entries[s.curNo].size
    ensures Inv(StoreFile(s)) && Planned(StoreFile(s)) == Planned(s)
  {
    hide *;
    InvWaits(s);
    RecordingBetween(s);
    GetKeeps(Recording(s));
    PlanOfStale(s);
    StoreUnfold(s);
  }

  lemma PlanOfStale(s: Sync)
    requires Waits(s) && s.status == Receiving
    ensures var rest := Plan(s.entries[s.curNo + 1..], Recording(s).rows);
      Planned(s) == (s.asked + rest.0, rest.1)
  {
    hide IsFresh, Recorded;
    var name := s.entries[s.curNo].name;
    var rest := Plan(s.entries[s.curNo + 1..], Recording(s).rows);
    assert s.entries[s.curNo..][1..] == s.entries[s.curNo + 1..];
    assert s.asked == Answered(s) + [name];
    Regroup(Answered(s), [name], rest.0);
  }

  lemma InvWaits(s: Sync)
    requires Inv(s) && s.status == Receiving
    ensures Waits(s) && s.curNo < |s.entries|
  {
  }

  lemma StoreUnfold(s: Sync)
    requires s.curNo < |s.entries|
    ensures var t := Recording(s);
      StoreFile(s) == GetFileFromSet(t) && t.curNo == s.curNo + 1 && t.entries == s.entries && t.asked == s.asked
  {
  }

  lemma Regroup(a: seq<Name>, b: seq<Name>, c: seq<Name>)
    ensures a + (b + c) == (a + b) + c
  {
  }

  lemma StepKeeps(s: Sync, m: Message)
    requires Inv(s) && Step(s, m).status != Broken
    ensures Inv(Step(s, m)) && Planned(Step(s, m)) == Planned(s)
  {
    hide IsFresh, Kept, Plan;
    if m == Over && (s.entries[s.curNo].size == |Received(s)| || s.entries[s.curNo].size == 0) {
      StoreKeeps(s);
    }
  }

  lemma {:induction false} RunKeeps(s: Sync, ms: seq<Message>)
    requires Inv(s) && Run(s, ms).status != Broken
    ensures Inv(Run(s, ms)) && Planned(Run(s, ms)) == Planned(s)
    decreases |ms|
  {
    hide Inv, Planned, Step;
    if ms != [] {
      var r := Step(s, ms[0]);
      if r.status == Broken {
        BrokenStays(r, ms[1..]);
      }
      StepKeeps(s, ms[0]);
      RunKeeps(r, ms[1..]);
    }
  }

  lemma {:induction false} BrokenStays(s: Sync, ms: seq<Message>)
    requires s.status == Broken
    ensures Run(s, ms).status == Broken
    decreases |ms|
  {
    if ms != [] {
      BrokenStays(Step(s, ms[0]), ms[1..]);
    }
  }

  /**
   * Whatever the server sends to a synchronisation, in whatever order: unless it breaks the client, the
   * requests are the plan's so far, each file is requested once, and every file passed is recorded.
   */
  lemma AnyRun(entries: seq<Entry>, rows: seq<Row>, ms: seq<Message>)
    requires DistinctNames(entries) && Distinct(rows)
    ensures var s := Run(SyncFile(entries, rows), ms);
      s.status != Broken ==>
        Inv(s) && s.asked <= Plan(entries, rows).0
        && (s.status == Finished ==> (s.asked, s.rows) == Plan(entries, rows))
  {
    hide *;
    SyncStarts(entries, rows);
    var s0 := SyncFile(entries, rows);
    var s := Run(s0, ms);
    if s.status != Broken {
      RunKeeps(s0, ms);
      RequestsSoFar(s);
    }
  }

  lemma SyncStarts(entries: seq<Entry>, rows: seq<Row>)
    requires DistinctNames(entries) && Distinct(rows)
    ensures var s := SyncFile(entries, rows);
      Inv(s) && s.status != Broken && s.entries == entries && s.stored == map[] && Planned(s) == Plan(entries, rows)
  {
    hide Inv, Planned, Plan, NextStale, Distinct, DistinctNames;
    var s0 := Sync(entries, 0, None, rows, map[], [], Receiving);
    assert entries[0..] == entries;
    GetKeeps(s0);
    var plan := Plan(entries, rows);
    assert [] + plan.0 == plan.0;
  }

  lemma RequestsSoFar(s: Sync)
    requires Inv(s) && s.status != Broken
    ensures s.asked <= Planned(s).0
    ensures s.status == Finished ==> (s.asked, s.rows) == Planned(s)
  {
    if s.status == Receiving {
      PlanOfStale(s);
    } else {
      assert s.entries[s.curNo..] == [];
      assert Answered(s) + [] == s.asked;
    }
  }

  /** A message advances the index exactly when it ends a file received in full, and never turns it back. */
  lemma StepAdvances(s: Sync, m: Message)
    requires Inv(s) && Step(s, m).status != Broken
    ensures Step(s, m).entries == s.entries
    ensures if m == Over && |Received(s)| == s.entries[s.curNo].size then s.curNo < Step(s, m).curNo
            else Step(s, m).curNo == s.curNo && Step(s, m).asked == s.asked && Step(s, m).rows == s.rows
  {
    hide IsFresh, Kept, Distinct;
  }

  /** A synchronisation under way has a current file, of which no more than its size has come. */
  predicate Ready(s: Sync) {
    && s.status != Broken
    && (s.status == Receiving ==>
          && s.curNo < |s.entries|
          && (s.data.Some? ==> |s.data.value| <= s.entries[s.curNo].size))
  }

  /** A message that follows a null pointer: sent too late, without a readable start, or without a buffer. */
  predicate Fatal(s: Sync, m: Message)
    requires Ready(s)
  {
    || s.status == Finished
    || m == Begin(false)
    || (m.Body? && m.part != [] && Unprepared(s, s.entries[s.curNo].size, |m.part|))
  }

  /**
   * The client breaks exactly on a message after the end, on a start whose content is no JSON text, on
   * content for an empty file, on a part before the buffer is there, and on any part of a file of negative
   * size. The synchronisation is in a regular state again after any other message, even if the database
   * has been changed by others in the meantime.
   */
  lemma BreaksIff(s: Sync, m: Message)
    requires Ready(s)
    ensures Step(s, m).status == Broken <==> Fatal(s, m)
    ensures !Fatal(s, m) ==> Ready(Step(s, m))
  {
    hide IsFresh;
    if s.status == Receiving && m.Body? {
      NoWrap(s.entries[s.curNo].size, |Received(s)|, |m.part|);
    }
  }

  /** What a start and a part do to a file of a size that is not negative: the buffer, and nothing else. */
  lemma PartsCollect(s: Sync, part: Part)
    requires Ready(s) && s.status == Receiving && s.entries[s.curNo].size > 0
    ensures Step(s, Begin(true)) == s.(data := Some([]))
    ensures s.data.Some? ==>
      Step(s, Body(part)) == if |s.data.value| + |part| <= s.entries[s.curNo].size
                             then s.(data := Some(s.data.value + part)) else s
  {
    NoWrap(s.entries[s.curNo].size, |Received(s)|, |part|);
    assert s.data.Some? && part == [] ==> s.data.value + part == s.data.value;
  }

  lemma InvReady(s: Sync)
    requires Inv(s) && s.status != Broken
    ensures Ready(s)
  {
  }

  predicate Unprepared(s: Sync, size: i32, len: nat) {
    || size == 0
    || (size > 0 && s.data.None? && len <= size)
    || size < 0
  }

  lemma NoWrap(size: i32, act: nat, len: nat)
    requires (size >= 0 ==> act <= size) && (size < 0 ==> act == 0) && len < 0x8000_0000
    ensures Accepts(size, act, len)
        <==> (size <= 0 || act + len <= size)
  {
  }

  /** A manifest entry of size -1: its first part is copied to a null pointer. */
  lemma NegativeSizeBreaks(name: Name, time: i32, part: Part)
    requires part != []
    ensures Run(SyncFile([Entry(name, -1, time)], []), [Begin(true), Body(part)]).status == Broken
  {
    var e := Entry(name, -1, time);
    assert !IsFresh([], e);
    var s := SyncFile([e], []);
    assert s.curNo == 0 && s.status == Receiving;
    assert [Begin(true), Body(part)][1..] == [Body(part)];
    RunOne(Step(s, Begin(true)), Body(part));
    NoWrap(-1, 0, |part|);
  }

  // ---- What the plan is ----

  lemma {:induction false} PlanRecords(entries: seq<Entry>, rows: seq<Row>, name: Name)
    requires DistinctNames(entries) && Distinct(rows)
    ensures Distinct(Plan(entries, rows).1)
    ensures (forall k | 0 <= k < |entries| :: entries[k].name != name) ==>
      Lookup(Plan(entries, rows).1, name) == Lookup(rows, name)
    ensures forall k | 0 <= k < |entries| && entries[k].name == name ::
      Lookup(Plan(entries, rows).1, name) == Some(RowOf(entries[k]))
  {
    hide Lookup, Recorded, IsFresh, Distinct;
    if entries != [] {
      var e, es := entries[0], entries[1..];
      var rows' := if IsFresh(rows, e) then rows else Recorded(rows, e.name, e.time, e.size);
      RecordedDistinct(rows, e.name, e.time, e.size);
      RecordedLookup(rows, e.name, e.time, e.size, name);
      FreshMeans(rows, e);
      PlanRecords(es, rows', name);
      assert forall k | 0 < k < |entries| :: entries[k] == es[k - 1];
      assert forall k | 0 <= k < |es| :: es[k] == entries[k + 1];
    }
  }

  lemma FreshMeans(rows: seq<Row>, e: Entry)
    requires Distinct(rows)
    ensures IsFresh(rows, e) ==> Lookup(rows, e.name) == Some(RowOf(e))
    ensures |rows| < 1000 ==> (IsFresh(rows, e) <==> Lookup(rows, e.name) == Some(RowOf(e)))
  {
    LookupLast(rows, e.name);
  }

  ghost predicate NoneTwice(asked: seq<Name>, names: set<Name>) {
    && (forall i, j | 0 <= i < j < |asked| :: asked[i] != asked[j])
    && (forall i | 0 <= i < |asked| :: asked[i] in names)
  }

  /** No file is requested twice, and none that the manifest does not name. */
  lemma {:induction false} PlanAsksOnce(entries: seq<Entry>, rows: seq<Row>)
    requires DistinctNames(entries)
    ensures NoneTwice(Plan(entries, rows).0, EntryNames(entries))
  {
    hide IsFresh, Recorded;
    if entries != [] {
      var e, es := entries[0], entries[1..];
      assert forall k | 0 <= k < |es| :: es[k] == entries[k + 1];
      assert e.name in EntryNames(entries) && e.name !in EntryNames(es);
      assert EntryNames(es) <= EntryNames(entries);
      if IsFresh(rows, e) {
        PlanAsksOnce(es, rows);
      } else {
        var rows' := Recorded(rows, e.name, e.time, e.size);
        PlanAsksOnce(es, rows');
        Prepended(e.name, Plan(es, rows').0, EntryNames(es));
      }
    }
  }

  lemma Prepended(n: Name, asked: seq<Name>, names: set<Name>)
    requires n !in names && NoneTwice(asked, names)
    ensures NoneTwice([n] + asked, names + {n})
  {
  }

  function RowNames(rows: seq<Row>): (r: set<Name>) {
    set i | 0 <= i < |rows| :: rows[i].name
  }

  function EntryNames(entries: seq<Entry>): set<Name> {
    set i | 0 <= i < |entries| :: entries[i].name
  }

  /** The files of the manifest that are missing from the table or different in it. */
  function Stale(entries: seq<Entry>, rows: seq<Row>): seq<Name> {
    if entries == [] then []
    else
      (if Lookup(rows, entries[0].name) == Some(RowOf(entries[0])) then [] else [entries[0].name])
      + Stale(entries[1..], rows)
  }

  lemma {:induction false} DistinctCount(rows: seq<Row>)
    requires Distinct(rows)
    ensures |RowNames(rows)| == |rows|
  {
    if rows != [] {
      var n := |rows| - 1;
      DistinctCount(rows[..n]);
      assert RowNames(rows) == RowNames(rows[..n]) + {rows[n].name};
    }
  }

  lemma {:induction false} StaleSame(entries: seq<Entry>, rows: seq<Row>, rows': seq<Row>)
    requires forall k | 0 <= k < |entries| :: Lookup(rows, entries[k].name) == Lookup(rows', entries[k].name)
    ensures Stale(entries, rows) == Stale(entries, rows')
  {
    hide Lookup;
    if entries != [] {
      assert forall k | 0 <= k < |entries[1..]| :: entries[1..][k] == entries[k + 1];
      StaleSame(entries[1..], rows, rows');
    }
  }

  /** As long as the ring can hold all records, exactly the stale files are requested. */
  lemma {:induction false} PlanIsStale(entries: seq<Entry>, rows: seq<Row>)
    requires DistinctNames(entries) && Distinct(rows)
    requires |RowNames(rows) + EntryNames(entries)| < 1000
    ensures Plan(entries, rows).0 == Stale(entries, rows)
    ensures |Plan(entries, rows).1| < 1000
  {
    hide Lookup, Recorded, IsFresh, Distinct;
    RoomForRows(entries, rows);
    if entries != [] {
      var e, es := entries[0], entries[1..];
      FreshMeans(rows, e);
      var rows' := if IsFresh(rows, e) then rows else Recorded(rows, e.name, e.time, e.size);
      RoomStays(entries, rows);
      forall k | 0 <= k < |es|
        ensures Lookup(rows, es[k].name) == Lookup(rows', es[k].name)
      {
        assert es[k] == entries[k + 1];
        RecordedLookup(rows, e.name, e.time, e.size, es[k].name);
      }
      StaleSame(es, rows, rows');
      PlanIsStale(es, rows');
    }
  }

  /** How many files the table does not know. */
  function Unknowns(entries: seq<Entry>, rows: seq<Row>): (n: nat)
    ensures n <= |entries|
  {
    if entries == [] then 0
    else Unknowns(entries[..|entries| - 1], rows) + (if Lookup(rows, entries[|entries| - 1].name).None? then 1 else 0)
  }

  predicate Unchanged(rows: seq<Row>, e: Entry) {
    Lookup(rows, e.name) == Some(RowOf(e))
  }

  /** The row of an unchanged file is still among the last 999 when the files before it have been added. */
  predicate StillCached(entries: seq<Entry>, rows: seq<Row>, k: nat)
    requires k < |entries|
  {
    Unchanged(rows, entries[k]) ==>
      |rows| + Unknowns(entries[..k], rows) < IndexOf(rows, entries[k].name) + 1000
  }

  /**
   * Exactly the stale files are requested if and only if no unchanged file is pushed out of the ring by
   * the new files in front of it; both sides can be computed before the synchronisation starts.
   */
  lemma {:induction false} PlanIsStaleIff(entries: seq<Entry>, rows: seq<Row>)
    requires DistinctNames(entries) && Distinct(rows)
    ensures |Plan(entries, rows).0| >= |Stale(entries, rows)|
    ensures Plan(entries, rows).0 == Stale(entries, rows)
        <==> forall k | 0 <= k < |entries| :: StillCached(entries, rows, k)
    decreases |entries|
  {
    hide *;
    if entries != [] {
      var e, es, rows' := entries[0], entries[1..], AfterFirst(entries, rows);
      FirstOfPlan(entries, rows);
      FirstOfStale(entries, rows);
      FirstCached(entries, rows);
      CachedSplit(entries, rows);
      PlanIsStaleIff(es, rows');
      SameRest([e.name], Plan(es, rows').0, Stale(es, rows'));
    } else {
      NothingPlanned(rows);
    }
  }

  /** The table as the first file of a manifest leaves it. */
  function AfterFirst(entries: seq<Entry>, rows: seq<Row>): seq<Row>
    requires entries != []
  {
    var e := entries[0];
    if IsFresh(rows, e) then rows else Recorded(rows, e.name, e.time, e.size)
  }

  lemma NothingPlanned(rows: seq<Row>)
    ensures Plan([], rows).0 == [] && Stale([], rows) == []
  {
  }

  lemma FirstOfPlan(entries: seq<Entry>, rows: seq<Row>)
    requires entries != [] && DistinctNames(entries) && Distinct(rows)
    ensures var rest := Plan(entries[1..], AfterFirst(entries, rows)).0;
      && Plan(entries, rows).0 == (if IsFresh(rows, entries[0]) then rest else [entries[0].name] + rest)
      && DistinctNames(entries[1..]) && Distinct(AfterFirst(entries, rows))
      && (IsFresh(rows, entries[0]) ==> Unchanged(rows, entries[0]))
  {
    var e := entries[0];
    RecordedDistinct(rows, e.name, e.time, e.size);
    FreshMeans(rows, e);
    hide IsFresh, Recorded, Distinct;
  }

  lemma FirstOfStale(entries: seq<Entry>, rows: seq<Row>)
    requires entries != [] && DistinctNames(entries) && Distinct(rows)
    ensures var rest := Stale(entries[1..], AfterFirst(entries, rows));
      Stale(entries, rows) == if Unchanged(rows, entries[0]) then rest else [entries[0].name] + rest
  {
    hide Lookup, IsFresh, Recorded, Distinct;
    var e, es, rows' := entries[0], entries[1..], AfterFirst(entries, rows);
    forall k | 0 <= k < |es|
      ensures Lookup(rows, es[k].name) == Lookup(rows', es[k].name)
    {
      assert es[k] == entries[k + 1];
      RecordedLookup(rows, e.name, e.time, e.size, es[k].name);
    }
    StaleSame(es, rows, rows');
    assert [] + Stale(es, rows) == Stale(es, rows);
  }

  lemma CachedSplit(entries: seq<Entry>, rows: seq<Row>)
    requires entries != [] && DistinctNames(entries) && Distinct(rows)
    ensures (forall k | 0 <= k < |entries| :: StillCached(entries, rows, k))
        <==> (StillCached(entries, rows, 0)
              && forall k | 0 <= k < |entries[1..]| :: StillCached(entries[1..], AfterFirst(entries, rows), k))
  {
    hide StillCached, Distinct, IsFresh, Recorded;
    var es, rows' := entries[1..], AfterFirst(entries, rows);
    forall k | 0 <= k < |es|
      ensures StillCached(entries, rows, k + 1) == StillCached(es, rows', k)
    {
      CachedAfterFirst(entries, rows, k);
    }
    assert forall k | 0 < k < |entries| :: StillCached(entries, rows, k) == StillCached(es, rows', k - 1);
  }

  lemma SameRest(a: seq<Name>, b: seq<Name>, c: seq<Name>)
    ensures a + b == a + c <==> b == c
    ensures [] + c == c
  {
    assert (a + b)[|a|..] == b && (a + c)[|a|..] == c;
  }

  lemma FirstCached(entries: seq<Entry>, rows: seq<Row>)
    requires entries != [] && Distinct(rows)
    ensures StillCached(entries, rows, 0) <==> (Unchanged(rows, entries[0]) ==> IsFresh(rows, entries[0]))
  {
    assert entries[..0] == [];
    InRing(rows, entries[0].name);
    hide IndexOf, Distinct;
  }

  /** The ring has the record of a name exactly if its row is among the last 999. */
  lemma InRing(rows: seq<Row>, name: Name)
    requires Distinct(rows)
    ensures var i := IndexOf(rows, name);
      Lookup(Last(rows), name) == if i < |rows| < i + 1000 then Some(rows[i]) else None
  {
    LastFrom(rows);
    LastDistinct(rows);
    hide Lookup, Last, Distinct;
    var i, k := IndexOf(rows, name), |rows| - |Last(rows)|;
    if i < |rows| && k <= i {
      assert Last(rows)[i - k] == rows[i];
      LookupAt(Last(rows), i - k);
    } else {
      NotFrom(rows, k, name);
    }
  }

  lemma LastFrom(rows: seq<Row>)
    ensures |Last(rows)| == (if |rows| < 1000 then |rows| else 999) && Last(rows) == rows[|rows| - |Last(rows)|..]
  {
  }

  lemma NotFrom(rows: seq<Row>, k: nat, name: Name)
    requires Distinct(rows) && k <= |rows| && (IndexOf(rows, name) < |rows| ==> IndexOf(rows, name) < k)
    ensures Lookup(rows[k..], name) == None
  {
    forall j | 0 <= j < |rows[k..]|
      ensures rows[k..][j].name != name
    {
      assert rows[k..][j] == rows[k + j];
    }
  }

  /** The same condition for the files behind the first, over the table as the first one leaves it. */
  lemma CachedAfterFirst(entries: seq<Entry>, rows: seq<Row>, k: nat)
    requires DistinctNames(entries) && Distinct(rows) && k < |entries| - 1
    ensures StillCached(entries, rows, k + 1) == StillCached(entries[1..], AfterFirst(entries, rows), k)
  {
    var e, f, rows' := entries[0], entries[k + 1], AfterFirst(entries, rows);
    assert entries[1..][k] == f;
    FreshMeans(rows, e);
    RecordedLookup(rows, e.name, e.time, e.size, f.name);
    RecordedIndex(rows, e, f.name);
    UnknownsAfterFirst(entries, rows, k);
    hide Lookup, IsFresh, Distinct, Unknowns, Last;
  }

  /** Recording a file moves no other row, and makes the table longer exactly when it was unknown. */
  lemma RecordedIndex(rows: seq<Row>, e: Entry, name: Name)
    requires name != e.name
    ensures var rows' := Recorded(rows, e.name, e.time, e.size);
      && |rows'| == |rows| + (if Lookup(rows, e.name).None? then 1 else 0)
      && (IndexOf(rows, name) < |rows| ==> IndexOf(rows', name) == IndexOf(rows, name))
  {
    var rows' := Recorded(rows, e.name, e.time, e.size);
    var i := IndexOf(rows, name);
    if i < |rows| {
      assert rows'[i].name == name && forall j | 0 <= j < i :: rows'[j].name != name;
    }
  }

  lemma {:induction false} UnknownsAfterFirst(entries: seq<Entry>, rows: seq<Row>, k: nat)
    requires DistinctNames(entries) && Distinct(rows) && k < |entries|
    ensures Unknowns(entries[..k + 1], rows)
      == (if Lookup(rows, entries[0].name).None? then 1 else 0)
         + Unknowns(entries[1..][..k], AfterFirst(entries, rows))
    decreases k
  {
    hide Lookup, Recorded, IsFresh, Distinct;
    var e := entries[0];
    if k == 0 {
      assert entries[..1][..0] == [] && entries[1..][..0] == [];
    } else {
      assert entries[..k + 1][..k] == entries[..k] && entries[1..][..k][..k - 1] == entries[1..][..k - 1];
      assert entries[1..][..k][k - 1] == entries[k];
      UnknownsAfterFirst(entries, rows, k - 1);
      RecordedLookup(rows, e.name, e.time, e.size, entries[k].name);
    }
  }

  lemma RoomForRows(entries: seq<Entry>, rows: seq<Row>)
    requires Distinct(rows) && |RowNames(rows) + EntryNames(entries)| < 1000
    ensures |rows| < 1000
  {
    hide Distinct;
    DistinctCount(rows);
    var all := RowNames(rows) + EntryNames(entries);
    Subset(RowNames(rows), all);
  }

  lemma {:induction false} Subset(a: set<Name>, b: set<Name>)
    requires a <= b
    ensures |a| <= |b|
  {
    if a != {} {
      var x :| x in a;
      Subset(a - {x}, b - {x});
    }
  }

  lemma RoomStays(entries: seq<Entry>, rows: seq<Row>)
    requires entries != [] && Distinct(rows) && DistinctNames(entries)
    requires |RowNames(rows) + EntryNames(entries)| < 1000
    ensures var e := entries[0];
      var rows' := if IsFresh(rows, e) then rows else Recorded(rows, e.name, e.time, e.size);
      && Distinct(rows') && DistinctNames(entries[1..])
      && |RowNames(rows') + EntryNames(entries[1..])| < 1000
  {
    var e := entries[0];
    RecordedDistinct(rows, e.name, e.time, e.size);
    var rows' := if IsFresh(rows, e) then rows else Recorded(rows, e.name, e.time, e.size);
    RecordedNames(rows, e);
    assert e.name in EntryNames(entries);
    assert EntryNames(entries[1..]) <= EntryNames(entries);
    Subset(RowNames(rows') + EntryNames(entries[1..]), RowNames(rows) + EntryNames(entries));
  }

  lemma RecordedNames(rows: seq<Row>, e: Entry)
    ensures RowNames(Recorded(rows, e.name, e.time, e.size)) <= RowNames(rows) + {e.name}
  {
  }

  // ---- From an empty table ----

  function RowsOf(entries: seq<Entry>): (r: seq<Row>)
    ensures |r| == |entries| && forall i | 0 <= i < |r| :: r[i] == RowOf(entries[i])
  {
    seq(|entries|, i requires 0 <= i < |entries| => RowOf(entries[i]))
  }

  function NamesOf(entries: seq<Entry>): seq<Name> {
    seq(|entries|, i requires 0 <= i < |entries| => entries[i].name)
  }

  lemma Unknown(rows: seq<Row>, e: Entry)
    requires forall i | 0 <= i < |rows| :: rows[i].name != e.name
    ensures !IsFresh(rows, e) && Recorded(rows, e.name, e.time, e.size) == rows + [RowOf(e)]
  {
    assert Lookup(rows, e.name).None?;
    assert Lookup(Last(rows), e.name).None?;
  }

  /** Files the table does not know are all requested, and added in the order of the manifest. */
  lemma {:induction false} PlanOfUnknown(entries: seq<Entry>, rows: seq<Row>)
    requires DistinctNames(entries)
    requires forall i, k | 0 <= i < |rows| && 0 <= k < |entries| :: rows[i].name != entries[k].name
    ensures Plan(entries, rows) == (NamesOf(entries), rows + RowsOf(entries))
  {
    if entries == [] {
      assert rows + RowsOf(entries) == rows;
      assert NamesOf(entries) == [];
    } else {
      var e, es := entries[0], entries[1..];
      Unknown(rows, e);
      hide *;
      PlanHead(entries, rows);
      Unrecorded(entries, rows);
      PlanOfUnknown(es, rows + [RowOf(e)]);
      ListsUnfold(entries);
      AssocRows(rows, [RowOf(e)], RowsOf(es));
    }
  }

  lemma PlanHead(entries: seq<Entry>, rows: seq<Row>)
    requires entries != [] && !IsFresh(rows, entries[0])
    ensures var e := entries[0];
      var rest := Plan(entries[1..], Recorded(rows, e.name, e.time, e.size));
      Plan(entries, rows) == ([e.name] + rest.0, rest.1)
  {
  }

  lemma Unrecorded(entries: seq<Entry>, rows: seq<Row>)
    requires entries != [] && DistinctNames(entries)
    requires forall i, k | 0 <= i < |rows| && 0 <= k < |entries| :: rows[i].name != entries[k].name
    ensures var es := entries[1..]; var rows' := rows + [RowOf(entries[0])];
      && DistinctNames(es)
      && forall i, k | 0 <= i < |rows'| && 0 <= k < |es| :: rows'[i].name != es[k].name
  {
  }

  lemma ListsUnfold(entries: seq<Entry>)
    requires entries != []
    ensures RowsOf(entries) == [RowOf(entries[0])] + RowsOf(entries[1..])
    ensures NamesOf(entries) == [entries[0].name] + NamesOf(entries[1..])
  {
  }

  lemma AssocRows(a: seq<Row>, b: seq<Row>, c: seq<Row>)
    ensures a + (b + c) == a + b + c
  {
  }

  /** A manifest all of whose files are fresh is passed over without a request. */
  lemma {:induction false} PlanOfFresh(entries: seq<Entry>, rows: seq<Row>)
    ensures (forall k | 0 <= k < |entries| :: IsFresh(rows, entries[k])) ==> Plan(entries, rows) == ([], rows)
    ensures Plan(entries, rows).0 == [] ==> forall k | 0 <= k < |entries| :: IsFresh(rows, entries[k])
  {
    hide IsFresh, Recorded;
    if entries != [] {
      assert forall k | 0 <= k < |entries[1..]| :: entries[1..][k] == entries[k + 1];
      PlanOfFresh(entries[1..], rows);
      assert forall k | 0 < k < |entries| :: entries[k] == entries[1..][k - 1];
    }
  }

  /**
   * A complete synchronisation followed by another with the same manifest: the second one requests
   * nothing exactly if the ring could hold the manifest, that is for at most 999 files.
   */
  lemma SecondSyncSilentIff(entries: seq<Entry>)
    requires DistinctNames(entries)
    ensures Plan(entries, []) == (NamesOf(entries), RowsOf(entries))
    ensures Plan(entries, RowsOf(entries)).0 == [] <==> |entries| < 1000
  {
    FromNothing(entries);
    hide Plan, IsFresh, NamesOf, RowsOf, DistinctNames;
    PlanOfFresh(entries, RowsOf(entries));
    if |entries| < 1000 {
      forall k | 0 <= k < |entries|
        ensures IsFresh(RowsOf(entries), entries[k])
      {
        RecordedIsFresh(entries, k);
      }
    } else {
      FirstIsStale(entries);
    }
  }

  lemma FromNothing(entries: seq<Entry>)
    requires DistinctNames(entries)
    ensures Plan(entries, []) == (NamesOf(entries), RowsOf(entries))
  {
    hide *;
    PlanOfUnknown(entries, []);
    assert [] + RowsOf(entries) == RowsOf(entries);
  }

  lemma RecordedIsFresh(entries: seq<Entry>, k: nat)
    requires DistinctNames(entries) && k < |entries| < 1000
    ensures IsFresh(RowsOf(entries), entries[k])
  {
    LookupAt(RowsOf(entries), k);
  }

  /** Behind 999 others, the record of the first file has been pushed out of the ring. */
  lemma FirstIsStale(entries: seq<Entry>)
    requires DistinctNames(entries) && |entries| >= 1000
    ensures !IsFresh(RowsOf(entries), entries[0])
  {
    var rows := RowsOf(entries);
    var n := |rows| - 999;
    forall i | 0 <= i < |Last(rows)|
      ensures Last(rows)[i].name != entries[0].name
    {
      assert Last(rows)[i] == RowOf(entries[n + i]);
    }
  }

  // ---- A server that answers every request ----

  function Bodies(parts: seq<Part>): (r: seq<Message>)
    ensures |r| == |parts| && forall i | 0 <= i < |r| :: r[i] == Body(parts[i])
  {
    seq(|parts|, i requires 0 <= i < |parts| => Body(parts[i]))
  }

  /** One file, in any number of parts of any length. */
  function Reply(parts: seq<Part>): seq<Message> {
    [Begin(true)] + Bodies(parts) + [Over]
  }

  lemma {:induction false} RunAppend(s: Sync, a: seq<Message>, b: seq<Message>)
    ensures Run(s, a + b) == Run(Run(s, a), b)
    decreases |a|
  {
    if a == [] {
      assert a + b == b;
    } else {
      assert (a + b)[1..] == a[1..] + b;
      RunAppend(Step(s, a[0]), a[1..], b);
    }
  }

  lemma {:induction false} BodiesCollect(s: Sync, parts: seq<Part>)
    requires s.status == Receiving && s.curNo < |s.entries| && s.data.Some?
    requires |s.data.value| + |Concat(parts)| <= s.entries[s.curNo].size
    ensures Run(s, Bodies(parts)) == s.(data := Some(s.data.value + Concat(parts)))
    decreases |parts|
  {
    if parts == [] {
      assert s.data.value + Concat(parts) == s.data.value;
    } else {
      var r := s.(data := Some(s.data.value + parts[0]));
      assert Step(s, Body(parts[0])) == r by {
        assert parts[0] == [] ==> s.data.value + parts[0] == s.data.value;
      }
      assert Bodies(parts)[1..] == Bodies(parts[1..]);
      BodiesCollect(r, parts[1..]);
      assert r.data.value + Concat(parts[1..]) == s.data.value + Concat(parts);
    }
  }

  /** The parts of a file of the announced size are put together, whatever came before. */
  lemma FileArrives(s: Sync, parts: seq<Part>)
    requires s.status == Receiving && s.curNo < |s.entries|
    requires |Concat(parts)| == s.entries[s.curNo].size
    ensures Run(s, Reply(parts)) == StoreFile(s.(data := Some(Concat(parts))))
  {
    hide StoreFile;
    var s1 := s.(data := Some([]));
    var s2 := s.(data := Some(Concat(parts)));
    RunAppend(s, [Begin(true)] + Bodies(parts), [Over]);
    RunAppend(s, [Begin(true)], Bodies(parts));
    RunOne(s, Begin(true));
    BodiesCollect(s1, parts);
    assert [] + Concat(parts) == Concat(parts);
    RunOne(s2, Over);
  }

  lemma RunOne(s: Sync, m: Message)
    ensures Run(s, [m]) == Step(s, m)
  {
    assert [m][1..] == [];
    assert Run(Step(s, m), []) == Step(s, m);
  }

  ghost predicate Answers(entries: seq<Entry>, files: Name -> seq<Part>) {
    forall k | 0 <= k < |entries| :: |Concat(files(entries[k].name))| == entries[k].size
  }

  /** The server answers the request that is open until none is. */
  ghost function Serve(s: Sync, files: Name -> seq<Part>): Sync
    requires Inv(s) && s.status != Broken && Answers(s.entries, files)
    decreases |s.entries| - s.curNo
  {
    if s.status != Receiving then s
    else
      var e := s.entries[s.curNo];
      var r := Run(s, Reply(files(e.name)));
      ReplyAdvances(s, files(e.name));
      Serve(r, files)
  }

  lemma ReplyAdvances(s: Sync, parts: seq<Part>)
    requires Inv(s) && s.status == Receiving
    requires |Concat(parts)| == s.entries[s.curNo].size
    ensures var r := Run(s, Reply(parts));
      && r.entries == s.entries && r.curNo > s.curNo && r.status != Broken && Inv(r)
      && Planned(r) == Planned(s)
      && r.stored == s.stored[s.entries[s.curNo].name := Concat(parts)]
  {
    FileArrives(s, parts);
    var s1 := s.(data := Some(Concat(parts)));
    StoreKeeps(s1);
    PlannedAnew(s, s1);
  }

  lemma PlannedAnew(s: Sync, s1: Sync)
    requires s1 == s.(data := s1.data)
    ensures Planned(s1) == Planned(s)
  {
  }

  /**
   * A server that answers every request brings the synchronisation to its end: it has requested and
   * recorded what was planned, and has stored each requested file as it was sent.
   */
  lemma {:induction false} ServeCompletes(s: Sync, files: Name -> seq<Part>)
    requires Inv(s) && s.status != Broken && Answers(s.entries, files)
    requires forall n | n in s.stored :: s.stored[n] == Concat(files(n))
    ensures var r := Serve(s, files);
      && r.status == Finished && r.entries == s.entries && Inv(r)
      && (r.asked, r.rows) == Planned(s)
      && (forall n | n in r.stored :: r.stored[n] == Concat(files(n)))
    decreases |s.entries| - s.curNo
  {
    hide Planned, Answered, Reply, Run;
    if s.status == Receiving {
      var name := s.entries[s.curNo].name;
      ReplyAdvances(s, files(name));
      ServeCompletes(Run(s, Reply(files(name))), files);
    } else {
      RequestsSoFar(s);
    }
  }

  /** The whole exchange: what is asked for, what is on disk, in the table, and in the ring. */
  lemma SyncCompletes(entries: seq<Entry>, rows: seq<Row>, files: Name -> seq<Part>)
    requires DistinctNames(entries) && Distinct(rows) && Answers(entries, files)
    ensures var s := SyncFile(entries, rows);
      Inv(s) && s.status != Broken && s.entries == entries
    ensures var r := Serve(SyncFile(entries, rows), files);
      && r.status == Finished && (r.asked, r.rows) == Plan(entries, rows)
      && (forall n :: n in r.stored <==> n in r.asked)
      && (forall n | n in r.stored :: r.stored[n] == Concat(files(n)))
      && (forall k | 0 <= k < |entries| :: Lookup(r.rows, entries[k].name) == Some(RowOf(entries[k])))
      && (|RowNames(rows) + EntryNames(entries)| < 1000 ==>
            r.asked == Stale(entries, rows) && Last(r.rows) == r.rows)
  {
    hide Inv, Planned, Plan, Lookup, SyncFile, Stale, RowNames, EntryNames;
    SyncStarts(entries, rows);
    var s := SyncFile(entries, rows);
    ServeCompletes(s, files);
    FinishedFacts(Serve(s, files));
    if |RowNames(rows) + EntryNames(entries)| < 1000 {
      PlanIsStale(entries, rows);
    }
  }

  lemma FinishedFacts(r: Sync)
    requires Inv(r) && r.status == Finished
    ensures forall n :: n in r.stored <==> n in r.asked
    ensures forall k | 0 <= k < |r.entries| :: Lookup(r.rows, r.entries[k].name) == Some(RowOf(r.entries[k]))
  {
    hide Lookup;
    assert forall k | 0 <= k < |r.entries| :: Kept(r.rows, r.stored, r.entries[k]);
  }
}
