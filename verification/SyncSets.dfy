/**
 * Several synchronisations over one database: the sets under way are kept in a ring of ten slots
 * (client.c), where every SENDFILE message of clirecvcmd5srv.c looks for the set it is meant for.
 */
module SyncSets {
  import opened Bytes
  import opened LoopList
  import opened LocalDb
  import opened SyncProtocol

  /**
   * The table; the sets in the ring, at most nine, oldest first; and every set there has been, its address being its
   * position. The table is shared, so the sets keep none.
   */
  datatype World = World(rows: seq<Row>, live: seq<Item>, sets: seq<Sync>)

  /** SYNCFILE and COMPLETESYNC with a manifest, UPDATEFILE with a file, and SENDFILE for some address. */
  datatype Event =
    | Manifest(entries: seq<Entry>, complete: bool)
    | Update(name: Name)
    | Send(id: Item, m: Message)

  function Start(rows: seq<Row>): World {
    World(rows, [], [])
  }

  function Bare(s: Sync): Sync {
    s.(rows := [])
  }

  /** The set at that address beside the table. */
  function SetAt(w: World, id: Item): Sync
    requires 0 <= id < |w.sets|
  {
    w.sets[id].(rows := w.rows)
  }

  /** recv_file_list_del, once there is nothing left to ask for. */
  function Remaining(live: seq<Item>, id: Item, s: Sync): seq<Item> {
    if s.status == Finished then RemoveFirst(live, id) else live
  }

  /** A new set goes into the ring before its files are looked at. */
  function Opened(w: World, rows: seq<Row>, entries: seq<Entry>): World {
    var s := SyncFile(entries, rows);
    World(rows, Remaining(PushTail(w.live, 9, |w.sets|).0, |w.sets|, s), w.sets + [Bare(s)])
  }

  /** The set of a file to be fetched by itself, its size unknown, which is requested at once. */
  function Fetching(name: Name): Sync {
    Sync([Entry(name, 0, 0)], 0, None, [], map[], [name], Receiving)
  }

  /** msgProc; nothing if the client crashes. The set of an UPDATEFILE never enters the ring. */
  function Handle(w: World, e: Event): Option<World> {
    match e
    case Manifest(entries, complete) => Some(Opened(w, if complete then [] else w.rows, entries))
    case Update(name) => Some(w.(sets := w.sets + [Fetching(name)]))
    case Send(id, m) =>
      if id !in w.live || !(0 <= id < |w.sets|) then None
      else
        var s := Step(SetAt(w, id), m);
        if s.status == Broken then None
        else Some(World(s.rows, Remaining(w.live, id, s), w.sets[id := Bare(s)]))
  }

  function HandleAll(w: World, es: seq<Event>): Option<World>
    decreases |es|
  {
    if es == [] then Some(w)
    else
      var r := Handle(w, es[0]);
      if r.None? then None else HandleAll(r.value, es[1..])
  }

  // ---- What holds all the time ----

  /** The ring: sets under way, none twice. */
  ghost predicate Ring(live: seq<Item>, sets: seq<Sync>) {
    && |live| < 10
    && (forall i | 0 <= i < |live| :: 0 <= live[i] < |sets| && sets[live[i]].status == Receiving)
    && (forall i, j | 0 <= i < j < |live| :: live[i] != live[j])
  }

  ghost predicate Inv(w: World) {
    Ring(w.live, w.sets) && forall i | 0 <= i < |w.sets| :: Ready(w.sets[i]) && w.sets[i].rows == []
  }

  lemma {:induction false} RemoveDistinct(s: seq<Item>, x: Item)
    requires forall i, j | 0 <= i < j < |s| :: s[i] != s[j]
    ensures var r := RemoveFirst(s, x);
      && |r| <= |s|
      && (forall i, j | 0 <= i < j < |r| :: r[i] != r[j])
      && (forall y :: y in r <==> y in s && y != x)
  {
    if s != [] {
      assert s[0] !in s[1..];
      RemoveDistinct(s[1..], x);
    }
  }

  lemma RingWithout(live: seq<Item>, id: nat, sets: seq<Sync>, s: Sync)
    requires Ring(live, sets) && id < |sets| && s.status != Broken
    ensures var r := Remaining(live, id, s);
      && Ring(r, sets[id := s])
      && (forall y :: y in r <==> y in live && (y == id ==> s.status == Receiving))
  {
    RemoveDistinct(live, id);
    hide RemoveFirst;
    var r := Remaining(live, id, s);
    assert r == if s.status == Finished then RemoveFirst(live, id) else live;
    forall i | 0 <= i < |r|
      ensures 0 <= r[i] < |sets| && sets[id := s][r[i]].status == Receiving
    {
      var y := r[i];
      assert y in r && y in live;
      var j :| 0 <= j < |live| && live[j] == y;
      assert sets[live[j]].status == Receiving;
    }
  }

  lemma RingPushed(live: seq<Item>, sets: seq<Sync>, s: Sync)
    requires Ring(live, sets) && s.status == Receiving
    ensures var r := PushTail(live, 9, |sets|).0;
      && Ring(r, sets + [s])
      && (forall y :: y in r <==> y == |sets| || (y in live && (|live| == 9 ==> y != live[0])))
  {
    var r := PushTail(live, 9, |sets|).0;
    var d := |live| + 1 - |r|;
    assert forall i | 0 <= i < |r| - 1 :: r[i] == live[i + d];
    assert forall i | d <= i < |live| :: live[i] == r[i - d];
    forall y | y in live && (|live| == 9 ==> y != live[0])
      ensures y in r
    {
      var i :| 0 <= i < |live| && live[i] == y;
      assert r[i - d] == y;
    }
  }

  /** What a manifest does to the ring: the new set comes in and, of nine others, the oldest goes. */
  lemma RingOpened(w: World, rows: seq<Row>, entries: seq<Entry>)
    requires Inv(w)
    ensures Inv(Opened(w, rows, entries))
    ensures var w' := Opened(w, rows, entries);
      forall y :: y in w'.live
        <==> (y == |w.sets| && w'.sets[y].status == Receiving)
             || (y in w.live && (|w.live| == 9 ==> y != w.live[0]))
  {
    var s := Bare(SyncFile(entries, rows));
    StartsReady(entries, rows);
    var t := s.(status := Receiving);
    RingPushed(w.live, w.sets, t);
    assert (w.sets + [t])[|w.sets| := s] == w.sets + [s];
    RingWithout(PushTail(w.live, 9, |w.sets|).0, |w.sets|, w.sets + [t], s);
  }

  lemma StartsReady(entries: seq<Entry>, rows: seq<Row>)
    ensures Ready(SyncFile(entries, rows))
  {
  }

  // ---- When the client crashes ----

  /**
   * In every regular state the client crashes exactly on a SENDFILE message for a set that is not in the
   * ring, or one that this set does not survive.
   */
  lemma HandleCrashes(w: World, e: Event)
    requires Inv(w)
    ensures Handle(w, e).None? <==> e.Send? && (e.id !in w.live || Fatal(SetAt(w, e.id), e.m))
    ensures Handle(w, e).Some? ==> Inv(Handle(w, e).value)
  {
    match e
    case Manifest(entries, complete) =>
      RingOpened(w, if complete then [] else w.rows, entries);
    case Update(_) =>
    case Send(id, m) =>
      if id in w.live {
        assert Ready(SetAt(w, id));
        BreaksIff(SetAt(w, id), m);
        var s := Step(SetAt(w, id), m);
        if s.status != Broken {
          RingWithout(w.live, id, w.sets, Bare(s));
        }
      }
  }

  /** A set under way that the ring has lost. */
  predicate Lost(w: World, id: int) {
    0 <= id < |w.sets| && w.sets[id].status == Receiving && id !in w.live
  }

  /** A set is lost exactly as the oldest of nine at the arrival of a manifest, or as one of an UPDATEFILE. */
  lemma LostWhen(w: World, e: Event, id: int)
    requires Inv(w) && Handle(w, e).Some?
    ensures Lost(Handle(w, e).value, id)
        <==> || Lost(w, id)
             || (e.Manifest? && |w.live| == 9 && id == w.live[0])
             || (e.Update? && id == |w.sets|)
  {
    match e
    case Manifest(entries, complete) =>
      RingOpened(w, if complete then [] else w.rows, entries);
    case Update(_) =>
    case Send(x, m) =>
      var s := Step(SetAt(w, x), m);
      RingWithout(w.live, x, w.sets, Bare(s));
  }

  /** Once lost, a set is never found again. */
  lemma {:induction false} LostStays(w: World, id: int, es: seq<Event>)
    requires Inv(w) && Lost(w, id) && HandleAll(w, es).Some?
    ensures Inv(HandleAll(w, es).value) && Lost(HandleAll(w, es).value, id)
    decreases |es|
  {
    hide Inv, Lost, Handle;
    if es != [] {
      HandleCrashes(w, es[0]);
      LostWhen(w, es[0], id);
      LostStays(Handle(w, es[0]).value, id, es[1..]);
    }
  }

  /** The events that make the ring lose a set. */
  predicate Loses(w: World, e: Event) {
    e.Update? || (e.Manifest? && |w.live| == 9)
  }

  /** Somewhere on the way, a manifest arrives while nine sets are under way, or an UPDATEFILE comes. */
  predicate LosesOne(w: World, es: seq<Event>)
    decreases |es|
  {
    es != []
    && (Loses(w, es[0]) || (Handle(w, es[0]).Some? && LosesOne(Handle(w, es[0]).value, es[1..])))
  }

  ghost predicate AnyLost(w: World) {
    exists id :: Lost(w, id)
  }

  lemma OneLost(w: World, e: Event)
    requires Inv(w) && Handle(w, e).Some?
    ensures AnyLost(Handle(w, e).value) <==> AnyLost(w) || Loses(w, e)
  {
    var w' := Handle(w, e).value;
    forall id
      ensures Lost(w', id) <==> || Lost(w, id)
                                || (e.Manifest? && |w.live| == 9 && id == w.live[0])
                                || (e.Update? && id == |w.sets|)
    {
      LostWhen(w, e, id);
    }
    hide Lost, Inv, Handle;
    if AnyLost(w) {
      var id :| Lost(w, id);
      assert Lost(w', id);
    }
    if Loses(w, e) {
      assert Lost(w', if e.Update? then |w.sets| else w.live[0]);
    }
  }

  lemma {:induction false} LostIff(w: World, es: seq<Event>)
    requires Inv(w) && HandleAll(w, es).Some?
    ensures Inv(HandleAll(w, es).value)
    ensures AnyLost(HandleAll(w, es).value) <==> AnyLost(w) || LosesOne(w, es)
    decreases |es|
  {
    hide Inv, AnyLost, Handle, Loses;
    if es != [] {
      HandleCrashes(w, es[0]);
      OneLost(w, es[0]);
      LostIff(Handle(w, es[0]).value, es[1..]);
    }
  }

  // ---- Answers ----

  function Sends(id: Item, ms: seq<Message>): (r: seq<Event>)
    ensures |r| == |ms| && forall i | 0 <= i < |r| :: r[i] == Send(id, ms[i])
  {
    seq(|ms|, i requires 0 <= i < |ms| => Send(id, ms[i]))
  }

  lemma SendOne(w: World, id: nat, m: Message)
    requires Inv(w) && id in w.live
    ensures id < |w.sets|
    ensures var s := Step(SetAt(w, id), m); var r := Handle(w, Send(id, m));
      && (r.Some? <==> s.status != Broken)
      && (r.Some? ==>
            && Inv(r.value) && r.value.rows == s.rows && r.value.live == Remaining(w.live, id, s)
            && r.value.sets == w.sets[id := Bare(s)] && SetAt(r.value, id) == s
            && (id in r.value.live <==> s.status == Receiving))
  {
    HandleCrashes(w, Send(id, m));
    var s := Step(SetAt(w, id), m);
    if s.status != Broken {
      RingWithout(w.live, id, w.sets, Bare(s));
    }
  }

  /**
   * Messages for one set act on it as they would if it were alone: on the table as it is now, until one
   * breaks the client or comes after the end.
   */
  lemma {:induction false} SendAll(w: World, id: nat, ms: seq<Message>)
    requires Inv(w) && id in w.live && id < |w.sets|
    ensures var s := Run(SetAt(w, id), ms); var r := HandleAll(w, Sends(id, ms));
      && (r.Some? <==> s.status != Broken)
      && (r.Some? ==> r.value == World(s.rows, Remaining(w.live, id, s), w.sets[id := Bare(s)]))
    decreases |ms|
  {
    hide Inv, Step, Handle;
    var s0 := SetAt(w, id);
    if ms == [] {
      Unmoved(w, id);
    } else {
      assert Sends(id, ms)[1..] == Sends(id, ms[1..]);
      SendOne(w, id, ms[0]);
      var s, r := Step(s0, ms[0]), Handle(w, Send(id, ms[0]));
      if r.None? {
        BrokenStays(s, ms[1..]);
      } else if s.status == Receiving {
        SendAll(r.value, id, ms[1..]);
        Overwritten(w.sets, id, Bare(s), Bare(Run(s, ms[1..])));
      } else {
        TooLate(r.value, id, s, ms[1..]);
      }
    }
  }

  lemma Unmoved(w: World, id: nat)
    requires Inv(w) && id in w.live && id < |w.sets|
    ensures SetAt(w, id).status == Receiving
    ensures w == World(SetAt(w, id).rows, Remaining(w.live, id, SetAt(w, id)), w.sets[id := Bare(SetAt(w, id))])
  {
  }

  lemma Overwritten(sets: seq<Sync>, id: nat, s: Sync, t: Sync)
    requires id < |sets|
    ensures sets[id := s][id := t] == sets[id := t]
  {
  }

  lemma TooLate(w: World, id: nat, s: Sync, ms: seq<Message>)
    requires id !in w.live && s.status == Finished && id < |w.sets| && w.sets[id := Bare(s)] == w.sets
    ensures ms == [] ==> HandleAll(w, Sends(id, ms)) == Some(w) && Run(s, ms) == s
    ensures ms != [] ==> HandleAll(w, Sends(id, ms)).None? && Run(s, ms).status == Broken
  {
    if ms != [] {
      BrokenStays(Step(s, ms[0]), ms[1..]);
    }
  }

  /** The messages of a manifest's own synchronisation, from its beginning: alone, it is the run of SyncProtocol. */
  lemma OneByItself(w: World, entries: seq<Entry>, complete: bool, ms: seq<Message>)
    requires Inv(w)
    ensures var id := |w.sets|;
      var s := Run(SyncFile(entries, if complete then [] else w.rows), ms);
      var r := HandleAll(w, [Manifest(entries, complete)] + Sends(id, ms));
      && (r.Some? <==> s.status != Broken)
      && (r.Some? ==> r.value.rows == s.rows && |r.value.sets| == id + 1 && SetAt(r.value, id) == s)
  {
    var id, rows := |w.sets|, if complete then [] else w.rows;
    var w1 := Opened(w, rows, entries);
    var s := SyncFile(entries, rows);
    RingOpened(w, rows, entries);
    assert ([Manifest(entries, complete)] + Sends(id, ms))[1..] == Sends(id, ms);
    assert SetAt(w1, id) == s;
    StartsReady(entries, rows);
    hide Inv, SyncFile, Run;
    if s.status == Receiving {
      SendAll(w1, id, ms);
    } else {
      TooLate(w1, id, s, ms);
    }
  }

  /**
   * The answer to the request that a set has open, in parts of the announced total: it is taken if and only
   * if the ring still has the set, and then it stores and records the file and moves on in this set alone.
   */
  lemma AnswerTakenIff(w: World, id: nat, parts: seq<Part>)
    requires Inv(w) && id < |w.sets| && w.sets[id].status == Receiving
    requires |Concat(parts)| == w.sets[id].entries[w.sets[id].curNo].size
    ensures var r := HandleAll(w, Sends(id, Reply(parts)));
      var s := StoreFile(SetAt(w, id).(data := Some(Concat(parts))));
      && (r.Some? <==> !Lost(w, id))
      && (r.Some? ==> r.value == World(s.rows, Remaining(w.live, id, s), w.sets[id := Bare(s)]))
  {
    if id in w.live {
      FileArrives(SetAt(w, id), parts);
      hide StoreFile, Step;
      SendAll(w, id, Reply(parts));
      StoreFileRegular(SetAt(w, id).(data := Some(Concat(parts))));
    } else {
      HandleCrashes(w, Send(id, Begin(true)));
    }
  }

  lemma StoreFileRegular(s: Sync)
    requires s.curNo < |s.entries| && s.status == Receiving
    ensures StoreFile(s).status != Broken
  {
  }

  /**
   * From any table, for all events: every open request can be answered at the end if and only if no manifest
   * has arrived while nine sets were under way, and no UPDATEFILE has come at all. Otherwise some set still waits
   * for a file, and any message to it, now or after any further events, crashes the client.
   */
  lemma AllAnswerableIff(rows: seq<Row>, es: seq<Event>)
    requires HandleAll(Start(rows), es).Some?
    ensures var w := HandleAll(Start(rows), es).value;
      && Inv(w)
      && ((forall id | 0 <= id < |w.sets| && w.sets[id].status == Receiving :: id in w.live)
          <==> !LosesOne(Start(rows), es))
  {
    var w := HandleAll(Start(rows), es).value;
    LostIff(Start(rows), es);
    hide Inv;
    assert (forall id | 0 <= id < |w.sets| && w.sets[id].status == Receiving :: id in w.live) <==> !AnyLost(w) by {
      assert forall id :: Lost(w, id) <==> 0 <= id < |w.sets| && w.sets[id].status == Receiving && id !in w.live;
    }
  }

  lemma LostIsFatal(w: World, id: int, es: seq<Event>, m: Message)
    requires Inv(w) && Lost(w, id)
    ensures HandleAll(w, es + [Send(id, m)]) == None
  {
    AllAppend(w, es, [Send(id, m)]);
    if HandleAll(w, es).Some? {
      LostStays(w, id, es);
      HandleCrashes(HandleAll(w, es).value, Send(id, m));
    }
  }

  lemma {:induction false} AllAppend(w: World, a: seq<Event>, b: seq<Event>)
    ensures HandleAll(w, a + b)
         == if HandleAll(w, a).None? then None else HandleAll(HandleAll(w, a).value, b)
    decreases |a|
  {
    hide Handle;
    if a == [] {
      assert a + b == b;
    } else {
      assert (a + b)[1..] == a[1..] + b;
      if Handle(w, a[0]).Some? {
        AllAppend(Handle(w, a[0]).value, a[1..], b);
      }
    }
  }

  /** The same manifest of one unknown file, over and over. */
  function Repeated(e: Entry, n: nat): (r: seq<Event>)
    ensures |r| == n
  {
    seq(n, i => Manifest([e], false))
  }

  /** Its set, waiting for the file. */
  function WaitingFor(e: Entry): Sync {
    Sync([e], 0, None, [], map[], [e.name], Receiving)
  }

  function Waiting(e: Entry, n: nat): (r: seq<Sync>)
    ensures |r| == n && forall i | 0 <= i < n :: r[i] == WaitingFor(e)
  {
    seq(n, i => WaitingFor(e))
  }

  lemma NoManifest()
    ensures HandleAll(Start([]), []) == Some(World([], [], []))
  {
  }

  lemma YoungestNext(n: nat)
    requires n > 0
    ensures PushTail(Youngest(n - 1), 9, n - 1).0 == Youngest(n)
  {
  }

  function Youngest(n: nat): (r: seq<Item>)
    ensures |r| == if n < 10 then n else 9
  {
    var k := if n < 10 then n else 9;
    seq(k, i => n - k + i)
  }

  /** Nine such sets can be under way; the tenth manifest makes the ring lose the first. */
  lemma {:induction false} TenManifests(e: Entry, n: nat)
    ensures HandleAll(Start([]), Repeated(e, n))
         == Some(World([], Youngest(n), Waiting(e, n)))
    ensures Lost(HandleAll(Start([]), Repeated(e, n)).value, 0) <==> n >= 10
  {
    hide Handle, HandleAll;
    if n > 0 {
      TenManifests(e, n - 1);
      assert Repeated(e, n) == Repeated(e, n - 1) + [Manifest([e], false)];
      AllAppend(Start([]), Repeated(e, n - 1), [Manifest([e], false)]);
      OneManifest(World([], Youngest(n - 1), Waiting(e, n - 1)), e);
      YoungestNext(n);
      assert Waiting(e, n) == Waiting(e, n - 1) + [WaitingFor(e)];
    } else {
      NoManifest();
      assert Youngest(0) == [] && Waiting(e, 0) == [];
    }
    assert 0 < n < 10 ==> Youngest(n)[0] == 0;
  }

  lemma OneManifest(w: World, e: Entry)
    requires w.rows == []
    ensures HandleAll(w, [Manifest([e], false)]) == Some(World([], PushTail(w.live, 9, |w.sets|).0,
      w.sets + [WaitingFor(e)]))
  {
    assert !IsFresh([], e);
    assert NextStale([e], 0, []) == 0;
    assert SyncFile([e], []) == WaitingFor(e);
    var es := [Manifest([e], false)];
    assert es[1..] == [];
    assert HandleAll(Opened(w, [], [e]), []) == Some(Opened(w, [], [e]));
  }

  // ---- Each set, whatever the others do to the database ----

  /** The files that a set has looked at. */
  function Reached(s: Sync): seq<Entry> {
    s.entries[..if s.curNo >= |s.entries| then |s.entries|
                else if s.status == Receiving then s.curNo + 1 else s.curNo]
  }

  /** Requests one after the other, each answered one stored with the size that the manifest gives it. */
  ghost predicate Orderly(s: Sync) {
    && (s.status == Receiving ==>
          s.curNo < |s.entries| && s.asked != [] && s.asked[|s.asked| - 1] == s.entries[s.curNo].name)
    && NoneTwice(s.asked, EntryNames(Reached(s)))
    && (forall n :: n in s.stored <==> n in Answered(s))
    && (forall k | 0 <= k < |s.entries| && s.entries[k].name in s.stored ::
          |s.stored[s.entries[k].name]| == s.entries[k].size)
  }

  lemma OrderlyGet(s: Sync)
    requires DistinctNames(s.entries) && s.curNo <= |s.entries| && s.status == Receiving
    requires NoneTwice(s.asked, EntryNames(s.entries[..s.curNo]))
    requires forall n :: n in s.stored <==> n in s.asked
    requires forall k | 0 <= k < |s.entries| && s.entries[k].name in s.stored ::
      |s.stored[s.entries[k].name]| == s.entries[k].size
    ensures Orderly(GetFileFromSet(s))
  {
    hide IsFresh;
    var r := GetFileFromSet(s);
    NamesGrow(s.entries, s.curNo, r.curNo);
    if r.status == Receiving {
      NamesAppend(s.entries, r.curNo);
      assert Reached(r) == s.entries[..r.curNo + 1];
      Appended(s.asked, s.entries[r.curNo].name, EntryNames(s.entries[..r.curNo]));
      assert Answered(r) == s.asked;
    }
  }

  lemma NamesGrow(entries: seq<Entry>, i: nat, j: nat)
    requires i <= j <= |entries|
    ensures EntryNames(entries[..i]) <= EntryNames(entries[..j])
  {
    assert entries[..i] == entries[..j][..i];
    assert forall k | 0 <= k < i :: entries[..i][k] == entries[..j][k];
  }

  lemma NamesAppend(entries: seq<Entry>, j: nat)
    requires DistinctNames(entries) && j < |entries|
    ensures EntryNames(entries[..j + 1]) == EntryNames(entries[..j]) + {entries[j].name}
    ensures entries[j].name !in EntryNames(entries[..j])
  {
    assert forall k | 0 <= k < j :: entries[..j + 1][k] == entries[..j][k] == entries[k];
    assert entries[..j + 1][j] == entries[j];
  }

  lemma Appended(asked: seq<Name>, n: Name, names: set<Name>)
    requires NoneTwice(asked, names) && n !in names
    ensures NoneTwice(asked + [n], names + {n})
  {
  }

  lemma OrderlyStep(s: Sync, m: Message)
    requires Ready(s) && DistinctNames(s.entries) && Orderly(s) && Step(s, m).status != Broken
    ensures Orderly(Step(s, m))
  {
    hide GetFileFromSet, NoneTwice, EntryNames;
    var e := s.entries[s.curNo];
    if m == Over && (e.size == |Received(s)| || e.size == 0) {
      assert s.entries[..s.curNo + 1] == Reached(s);
      OrderlyGet(Recording(s));
    } else {
      assert Reached(Step(s, m)) == Reached(s);
    }
  }

  /** Every manifest names each of its files once. */
  ghost predicate DistinctManifests(es: seq<Event>) {
    forall i | 0 <= i < |es| && es[i].Manifest? :: DistinctNames(es[i].entries)
  }

  ghost predicate AllOrderly(w: World) {
    forall i | 0 <= i < |w.sets| :: DistinctNames(w.sets[i].entries) && Orderly(w.sets[i])
  }

  lemma OrderlyOpened(entries: seq<Entry>, rows: seq<Row>)
    requires DistinctNames(entries)
    ensures Orderly(Bare(SyncFile(entries, rows))) && Bare(SyncFile(entries, rows)).entries == entries
  {
    OrderlyGet(Sync(entries, 0, None, rows, map[], [], Receiving));
  }

  lemma OrderlyFetching(name: Name)
    ensures DistinctNames(Fetching(name).entries) && Orderly(Fetching(name))
  {
    var s := Fetching(name);
    assert Reached(s) == s.entries;
    assert s.entries[0].name in EntryNames(s.entries);
  }

  lemma OrderlyHandle(w: World, e: Event)
    requires Inv(w) && AllOrderly(w) && Handle(w, e).Some?
    requires e.Manifest? ==> DistinctNames(e.entries)
    ensures AllOrderly(Handle(w, e).value)
  {
    hide Step, SyncFile, Orderly, DistinctNames;
    match e
    case Manifest(entries, complete) => OrderlyOpened(entries, if complete then [] else w.rows);
    case Update(name) => OrderlyFetching(name);
    case Send(id, m) =>
      var s := SetAt(w, id);
      OrderlyBare(w.sets[id], s);
      OrderlyStep(s, m);
      OrderlyBare(Step(s, m), Bare(Step(s, m)));
      SameEntries(s, m);
  }

  lemma OrderlyBare(s: Sync, t: Sync)
    requires t == s.(rows := t.rows)
    ensures Orderly(t) == Orderly(s)
  {
    assert Reached(t) == Reached(s);
  }

  lemma SameEntries(s: Sync, m: Message)
    ensures Step(s, m).entries == s.entries
  {
    hide IsFresh;
  }

  /**
   * Whatever arrives in whatever order, and whatever the synchronisations do to the table they share: each of
   * them requests no file twice and only files it has come to, and has stored exactly those answered, with
   * the announced size.
   */
  lemma {:induction false} EachOrderly(w: World, es: seq<Event>)
    requires Inv(w) && AllOrderly(w) && DistinctManifests(es) && HandleAll(w, es).Some?
    ensures AllOrderly(HandleAll(w, es).value)
    decreases |es|
  {
    hide Inv, AllOrderly, Handle, DistinctNames;
    if es != [] {
      OrderlyHandle(w, es[0]);
      HandleCrashes(w, es[0]);
      EachOrderly(Handle(w, es[0]).value, es[1..]);
    }
  }
}
