/** The synchronisation messages of msgProc, over the ring of sets and the database that they share. */
module SyncService {
  import opened Bytes
  import opened LoopList
  import opened LocalDb
  import opened SyncProtocol
  import opened SyncClient
  import opened SyncSets

  /** The slots of s_recv_file_list, one of which stays empty. */
  const SLOTS: nat := 10

  class Service {
    const db: Database
    const ring: Loop             // s_recv_file_list
    var sets: seq<Client>        // every set allocated so far; its address is its position

    ghost function Buffers(): set<object>
      reads this, sets
    {
      set c <- sets | c.pFileData != null :: c.pFileData
    }

    /** The objects do not overlap. */
    ghost predicate Apart()
      reads this, sets
    {
      && ring != db.ring && ring.items != db.ring.items
      && (forall i, j | 0 <= i < j < |sets| ::
            sets[i] != sets[j] && (sets[i].pFileData != null ==> sets[i].pFileData != sets[j].pFileData))
    }

    ghost predicate Regular()
      reads this, sets
    {
      forall i | 0 <= i < |sets| :: sets[i].db == db && sets[i].Regular()
    }

    ghost function Views(): (r: seq<Sync>)
      requires Regular()
      reads this, sets, Buffers()
      ensures |r| == |sets| && forall i | 0 <= i < |r| :: r[i] == sets[i].Beside([])
    {
      seq(|sets|, i requires 0 <= i < |sets| && sets[i].Regular() reads this, sets, Buffers() => sets[i].Beside([]))
    }

    ghost predicate Shape()
      reads this, sets, db, db.ring, db.ring.items, ring, ring.items
    {
      && Apart() && Regular() && db.Valid()
      && ring.Valid() && ring.Capacity() == 9
    }

    ghost function View(): World
      requires Shape()
      reads this, sets, Buffers(), db, db.ring, db.ring.items, ring, ring.items
    {
      World(db.table, ring.Contents(), Views())
    }

    ghost predicate Valid()
      reads this, sets, Buffers(), db, db.ring, db.ring.items, ring, ring.items
    {
      Shape() && SyncSets.Inv(View())
    }

    /** recv_file_list_init, beside a loaded database. */
    constructor (db: Database)
      requires db.Valid()
      ensures Valid() && this.db == db && View() == Start(db.table)
    {
      this.db := db;
      ring := new Loop(SLOTS, false);
      sets := [];
    }

    /** recv_file_list_del. */
    method Delete(id: Item)
      requires Shape()
      modifies ring, ring.items
      ensures Shape() && View() == old(View()).(live := RemoveFirst(old(View()).live, id))
    {
      hide Loop.Valid, Loop.Contents, Database.Valid, RemoveFirst;
      var p := ring.Search(x => x == id);
      if p.Some? {
        ring.Remove(p.value);
      } else {
        RemoveFirstAbsent(ring.Contents(), id);
      }
    }

    /** A set that has just been looked through is one more address. */
    method Allocate(c: Client)
      requires Shape() && c.db == db && c.Regular() && c.pFileData == null && c !in sets
      modifies this`sets
      ensures Shape() && sets == old(sets) + [c]
      ensures View() == old(View()).(sets := old(View()).sets + [c.Beside([])])
    {
      hide Loop.Valid, Loop.Contents, Database.Valid, Client.Regular;
      sets := sets + [c];
      assert Apart();
      assert Views() == old(Views()) + [c.Beside([])];
    }

    /** A set for the manifest, in the ring before its files are looked at. */
    method Enter(manifest: seq<Entry>) returns (c: Client)
      requires Shape()
      modifies ring, ring.items
      ensures Shape() && View() == old(View()).(live := PushTail(old(View()).live, 9, |sets|).0)
      ensures fresh(c) && c.db == db && c.Regular() && c.pFileData == null
      ensures c.Beside(db.table) == SyncProtocol.SyncFile(manifest, db.table)
    {
      hide Loop.Valid, Loop.Contents, Database.Valid, PushTail, Client.Regular, GetFileFromSet;
      ring.PushToTail(|sets|);
      c := new Client(db, manifest);
      c.GetFileFromSet();
    }

    /** What SYNCFILE and COMPLETESYNC share. */
    method OpenSet(manifest: seq<Entry>)
      requires Shape()
      modifies this`sets, ring, ring.items
      ensures Shape() && View() == Opened(old(View()), db.table, manifest)
      ensures |sets| == |old(sets)| + 1 && sets[..|old(sets)|] == old(sets) && fresh(sets[|old(sets)|])
    {
      hide Shape, PushTail, RemoveFirst, Client.Regular, SyncProtocol.SyncFile;
      var id := |sets|;
      var c := Enter(manifest);
      Allocate(c);
      if c.status == Finished {
        Delete(id);
      }
    }

    /** SERVER2CLI_MSG_SYNCFILE. */
    method OnSyncFile(manifest: seq<Entry>)
      requires Valid()
      modifies this`sets, ring, ring.items
      ensures Valid() && Some(View()) == Handle(old(View()), Manifest(manifest, false))
    {
      hide Shape, Opened;
      HandleCrashes(View(), Manifest(manifest, false));
      OpenSet(manifest);
    }

    /** SERVER2CLI_MSG_COMPLETESYNC. */
    method OnCompleteSync(manifest: seq<Entry>)
      requires Valid()
      modifies this`sets, ring, ring.items, db`table, db.ring
      ensures Valid() && Some(View()) == Handle(old(View()), Manifest(manifest, true))
    {
      HandleCrashes(View(), Manifest(manifest, true));
      Empty();
      hide Shape, Opened;
      OpenSet(manifest);
    }

    method Empty()
      requires Shape()
      modifies db`table, db.ring
      ensures Shape() && View() == old(View()).(rows := [])
    {
      hide Loop.Valid, Loop.Contents, Database.Valid;
      db.DelAll();
    }

    /** SERVER2CLI_MSG_UPDATEFILE: the set for the file is requested without entering the ring. */
    method OnUpdateFile(name: Name)
      requires Valid()
      modifies this`sets
      ensures Valid() && Some(View()) == Handle(old(View()), Update(name))
    {
      HandleCrashes(View(), Update(name));
      var c := Request(name);
      assert View() == old(View());
      Allocate(c);
      assert c.Beside([]) == Fetching(name);
    }

    method Request(name: Name) returns (c: Client)
      ensures fresh(c) && c.db == db && c.Regular() && c.pFileData == null
      ensures c.Beside([]) == Fetching(name)
    {
      c := new Client(db, [Entry(name, 0, 0)]);
      c.asked := [name];
    }

    /** SERVER2CLI_MSG_SENDFILE, which finds its set by the address it carries. */
    method OnSendFile(id: Item, m: Message) returns (crashed: bool)
      requires Valid()
      modifies this, ring, ring.items, sets, Buffers(), db`table, db`recs, db.ring, db.ring.items
      ensures crashed <==> Handle(old(View()), Send(id, m)).None?
      ensures !crashed ==> Valid() && Some(View()) == Handle(old(View()), Send(id, m))
    {
      HandleCrashes(View(), Send(id, m));
      var found := Find(id);
      if !found {
        return true;
      }
      hide Shape, Step, RemoveFirst, SyncSets.Inv;
      var finished;
      crashed, finished := Pass(id, m);
      if finished {
        Delete(id);
      }
    }

    /** recv_file_list_get. */
    method Find(id: Item) returns (found: bool)
      requires Shape()
      ensures found <==> id in View().live
    {
      hide Loop.Valid, Loop.Contents, Database.Valid;
      var p := ring.Search(x => x == id);
      found := p.Some?;
    }

    /** The message goes to a set that has been found. */
    method Pass(id: nat, m: Message) returns (crashed: bool, finished: bool)
      requires Shape() && id < |sets|
      modifies sets[id], sets[id].pFileData, db`table, db`recs, db.ring, db.ring.items
      ensures crashed <==> Step(old(SetAt(View(), id)), m).status == Broken
      ensures !crashed ==> Shape() && View() == old(View()).(
        rows := Step(old(SetAt(View(), id)), m).rows,
        sets := old(View()).sets[id := Bare(Step(old(SetAt(View(), id)), m))])
      ensures finished <==> Step(old(SetAt(View(), id)), m).status == Finished
    {
      hide Loop.Valid, Loop.Contents, Database.Valid, Step;
      var c := sets[id];
      crashed := c.OnSendFile(m);
      finished := !crashed && c.status == Finished;
    }
  }
}
