/** The client's side of a synchronisation, with its database and its receive buffer. */
module SyncClient {
  import opened Bytes
  import opened LocalDb
  import opened SyncProtocol

  /**
   * recv_file_info_set_t. Every manifest gets one of its own, and several can be under way over one
   * database.
   */
  class Client {
    const db: Database
    const entries: seq<Entry>
    var curNo: nat
    var pFileData: array?<byte>
    var actRecvSize: nat
    var status: Status
    var stored: map<Name, seq<byte>>   // the files written
    var asked: seq<Name>               // the names sent to the server by client_getFile

    /** The set by itself. */
    ghost predicate Regular()
      reads this
    {
      && status != Broken
      && (status == Receiving ==> curNo < |entries|)
      && (pFileData == null ==> actRecvSize == 0)
      && (pFileData != null ==>
            && status == Receiving && pFileData.Length == entries[curNo].size && actRecvSize <= pFileData.Length)
    }

    /** The set beside a table. */
    ghost function Beside(rows: seq<Row>): Sync
      requires Regular()
      reads this, pFileData
    {
      var data := if pFileData == null then None else Some(pFileData[..actRecvSize]);
      Sync(entries, curNo, data, rows, stored, asked, status)
    }

    ghost predicate Valid()
      reads this, db, db.ring, db.ring.items
    {
      db.Valid() && Regular()
    }

    ghost function View(): Sync
      requires Valid()
      reads this, db, db.ring, db.ring.items, pFileData
    {
      Beside(db.table)
    }

    /** The set of a manifest, before anything has been requested. */
    constructor (db: Database, manifest: seq<Entry>)
      ensures this.db == db && entries == manifest && curNo == 0 && pFileData == null && actRecvSize == 0
      ensures status == Receiving && stored == map[] && asked == []
    {
      this.db := db;
      entries, curNo, pFileData, actRecvSize := manifest, 0, null, 0;
      status, stored, asked := Receiving, map[], [];
    }

    /** get_cur_file_info. */
    method GetCurFileInfo() returns (e: Option<Entry>)
      ensures e == if curNo < |entries| then Some(entries[curNo]) else None
    {
      e := if curNo < |entries| then Some(entries[curNo]) else None;
    }

    /** find_file_from_local_db: the record in the ring, if any, has the time and the size. */
    method FindFileFromLocalDb(e: Entry) returns (found: bool)
      requires db.Valid()
      ensures found <==> IsFresh(db.table, e)
    {
      hide LoopList.Loop.Valid, LoopList.Loop.Contents, Last, Lookup, Pointers, At;
      var p := db.GetRec(e.name);
      FoundName(db.table, e.name);
      found := p.Some? && db.recs[p.value].time == e.time && db.recs[p.value].size == e.size;
    }

    /** client_getFileFromSet, and the end of the synchronisation if nothing is left to ask for. */
    method GetFileFromSet()
      requires db.Valid() && curNo <= |entries| && status == Receiving && pFileData == null && actRecvSize == 0
      modifies this`curNo, this`asked, this`status
      ensures Valid() && pFileData == null
      ensures View() == SyncProtocol.GetFileFromSet(
        old(Sync(entries, curNo, None, db.table, stored, asked, Receiving)))
    {
      hide IsFresh, Database.Valid;
      var e := GetCurFileInfo();
      while e.Some?
        invariant old(curNo) <= curNo <= |entries|
        invariant NextStale(entries, old(curNo), db.table) == NextStale(entries, curNo, db.table)
        invariant e == if curNo < |entries| then Some(entries[curNo]) else None
        decreases |entries| - curNo
        modifies this`curNo
      {
        var found := FindFileFromLocalDb(e.value);
        if !found {
          break;
        }
        curNo := curNo + 1;
        e := GetCurFileInfo();
      }
      if e.Some? {
        asked := asked + [e.value.name];
      } else {
        status := Finished;
      }
    }

    /** client_pg_syncFile. */
    method SyncFile()
      requires Valid() && status == Receiving
      requires actRecvSize == entries[curNo].size || entries[curNo].size == 0
      modifies this, db`table, db`recs, db.ring, db.ring.items
      ensures Valid() && View() == StoreFile(old(View()))
      ensures pFileData == null
    {
      hide Database.Valid, NextStale, IsFresh, Recorded;
      var e := entries[curNo];
      var content := if pFileData == null then [] else pFileData[..actRecvSize];
      stored := stored[e.name := content];
      db.Record(e.name, e.time, e.size);
      curNo := curNo + 1;
      pFileData, actRecvSize := null, 0;
      GetFileFromSet();
    }

    /**
     * SERVER2CLI_MSG_SENDFILE for a set that has been found; crashed stands for a null pointer followed
     * or a buffer overrun.
     */
    method OnSendFile(m: Message) returns (crashed: bool)
      requires Valid()
      modifies this, pFileData, db`table, db`recs, db.ring, db.ring.items
      ensures crashed <==> Step(old(View()), m).status == Broken
      ensures !crashed ==> Valid() && View() == Step(old(View()), m)
      ensures pFileData == null || pFileData == old(pFileData) || fresh(pFileData)
    {
      hide Database.Valid, StoreFile;
      if status != Receiving {
        return true;
      }
      StoreIsWhole(View());
      var e := entries[curNo];
      crashed := false;
      match m
      case Begin(parses) =>
        if !parses {
          return true;
        }
        pFileData, actRecvSize := null, 0;
        if e.size >= 0 {
          pFileData := new byte[e.size];
        }
      case Body(part) =>
        if Accepts(e.size, actRecvSize, |part|) && part != [] {
          if pFileData == null || actRecvSize + |part| > pFileData.Length {
            return true;
          }
          CopyPart(part);
        }
      case Over =>
        if e.size == actRecvSize || e.size == 0 {
          SyncFile();
        }
    }

    /** The memcpy behind the bytes received so far. */
    method CopyPart(part: seq<byte>)
      requires Valid() && pFileData != null && actRecvSize + |part| <= pFileData.Length
      modifies this`actRecvSize, pFileData
      ensures Valid() && View() == old(View().(data := Some(View().data.value + part)))
    {
      hide Database.Valid;
      forall i | 0 <= i < |part| {
        pFileData[actRecvSize + i] := part[i];
      }
      assert pFileData[..actRecvSize + |part|] == old(pFileData[..actRecvSize]) + part;
      actRecvSize := actRecvSize + |part|;
    }
  }

  lemma StoreIsWhole(s: Sync)
    requires s.curNo < |s.entries| && s.status != Broken
    ensures StoreFile(s).status != Broken
  {
  }

  lemma FoundName(rows: seq<Row>, name: Name)
    ensures Lookup(Last(rows), name).Some? ==> Lookup(Last(rows), name).value.name == name
  {
  }
}
