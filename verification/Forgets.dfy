/** A run of the engine that loses an acknowledged row: a crash leaves part of a record at
    the end of the log, the next open appends behind it, and replay stops there. */
module Forgets {
  import opened Bytes
  import opened Rows
  import opened Layouts
  import opened Index
  import opened Replay
  import opened History
  import opened Storage
  import opened Paging
  import opened Engine
  import opened Recovery
  import opened Stolen
  import opened Runs
  import opened Samples
  import W = Wal

  /** One insert has been logged since the log was found. */
  lemma OneRecord(db: Database, row: Row)
    requires db.Valid() && db.past.found == [] && Changes(db.events) == [Put(row)]
    ensures |db.wal.records| == 1 && W.Framed(db.wal.records[0]) && |W.Encode(db.wal.records[0])| == 21 + RowSize(row)
    ensures db.wal.file + db.wal.writeBuf == db.wal.base + W.Encode(db.wal.records[0])
  {
    hide Database.Valid, W.Encode, W.Framed, Indexed, LegalHistory, LiveFrom, Restores, Explained;
    TrailNow(db);
    TrailParts(TrailOf(db));
    db.ValidParts();
    LogParts(db.wal);
    assert [] + db.wal.records == db.wal.records && db.wal.records[1..] == [];
    assert Carries(db.wal.records[0], Put(row), db.schema);
  }

  /** A large row is inserted, as at the start of a batch, and written to the log. */
  method Begin() returns (db: Database)
    ensures db.Valid() && CleanLog(db) && db.schema == Names && db.pager.compression == None_ && db.pager.base == []
    ensures db.past.found == [] && Changes(db.events) == [Put(Big(2))]
    ensures db.wal.writeBuf == [] && db.wal.base == W.Header() && db.wal.synced == W.HEADER_SIZE
  {
    hide Database.Valid, Database.Map, CleanBytes, W.Header, Big, Pager.Pooled, LogLength;
    db := Create(Names, None_, 1);
    CreatedLog(db);
    db.pager.PooledLayout();
    Enqueue(db);
    db.WriteLog();
  }

  method Enqueue(db: Database)
    requires db.Valid() && db.trees == map[] && db.schema == Names && db.pager.compression == None_ && db.pager.layout == [] && db.Map() == map[]
    requires db.events == []
    modifies db, db.index, db.pager, db.pager.cache, db.wal
    ensures db.Valid() && db.past == old(db.past) && Changes(db.events) == [Put(Big(2))]
    ensures db.wal.base == old(db.wal.base) && db.wal.synced == old(db.wal.synced) && db.pager.base == old(db.pager.base)
  {
    hide Database.Valid, Database.Map, Storable, Filled, Place, Big, RowSize;
    Sizes(2);
    FieldCount(Big(2), Names);
    var s := db.InsertUnlocked(Big(2), false);
    NeverFaults(db, s);
  }

  lemma CreatedLog(db: Database)
    requires db.Valid() && Settled(db) && db.events == [] && db.past.found == []
    ensures db.wal.base == W.Header() && db.wal.synced == W.HEADER_SIZE
  {
    hide Database.Valid, W.Header, W.EncodeLog, W.AllFramed, Logged;
    SettledEnd(db);
    WholeLog(db);
    EmptyLog();
    assert AllRecords(db) == [];
  }

  /** The crash leaves eight bytes of the record. */
  method Tear(db: Database, capacity: nat) returns (again: Database, ghost torn: W.Record)
    requires db.Valid() && CleanLog(db) && db.schema == Names && db.pager.compression == None_ && db.pager.base == []
    requires db.past.found == [] && Changes(db.events) == [Put(Big(2))]
    requires db.wal.writeBuf == [] && db.wal.base == W.Header() && db.wal.synced == W.HEADER_SIZE
    ensures fresh(again) && fresh(again.index) && fresh(again.pager) && fresh(again.pager.cache) && fresh(again.wal)
    ensures again.Valid() && again.trees == map[] && again.schema == Names && again.pager.compression == None_ && again.pager.base == [] && again.pager.layout == []
    ensures again.past.found == [] && again.events == [] && again.Map() == map[]
    ensures TornBehind([], again.wal.base, torn, W.HEADER_SIZE + 5000)
    ensures |again.wal.base| == W.HEADER_SIZE + 8
  {
    hide Database.Valid, Database.Map, Database.Loose, Explained, Opened, Recovered, UniqueIds, FileOf, Lists, CleanBytes, LogLength, ReplayAll, TableOf, Indexed, W.Header, W.Encode, W.ReplayFile, Survives, Replays, Cut, TornBehind, Big, SomeOverruns;
    OneRecord(db, Big(2));
    Sizes(2);
    torn := db.wal.records[0];
    ghost var tr, bytes := TrailOf(db), db.wal.file[..W.HEADER_SIZE + 8];
    TrailNow(db);
    NoFile(db);
    var s, unique;
    ghost var n, m;
    s, again, unique, n, m := Reopen(db, W.HEADER_SIZE + 8, capacity);
    NoneLeft(db, n);
    Reopens(tr, [], 0, bytes, s, again, unique);
    assert UniqueIds([]) by { NothingUnique(); }
    assert Changes(db.events)[..0] == [];
    Front(db.wal.file, db.wal.writeBuf, torn);
    TornNow(again, m, bytes, torn);
  }

  lemma Front(file: seq<byte>, buf: seq<byte>, torn: W.Record)
    requires buf == [] && W.Framed(torn) && file + buf == W.Header() + W.Encode(torn)
    ensures file[..W.HEADER_SIZE + 8] == W.Header() + W.Encode(torn)[..8]
  {
    hide W.Encode, W.Header, W.Framed;
    assert file == file + buf;
  }

  lemma NothingUnique()
    ensures UniqueIds([])
  {}

  lemma NoFile(db: Database)
    requires db.Valid() && db.pager.base == []
    ensures FileOf(db) == []
  {
    hide Manager.Valid, Pager.Valid, W.Log.Valid, Explains, Indexed, TableOf;
  }

  lemma NoneLeft(db: Database, n: nat)
    requires db.Valid() && CleanLog(db) && db.past.found == [] && |db.events| == |db.wal.records| == 1 && db.wal.synced <= W.HEADER_SIZE + 8 <= |db.wal.file|
    requires W.Framed(db.wal.records[0]) && |W.Encode(db.wal.records[0])| > 8
    requires Survives(TrailOf(db), db.wal.durable, W.HEADER_SIZE + 8, n)
    ensures n == 0 && W.ReplayFile(db.wal.file[..W.HEADER_SIZE + 8]) == []
  {
    hide Database.Valid, CleanBytes, W.Header, W.Encode, W.ReplayFile;
    var all := [] + db.wal.records;
    assert all == [all[0]] && all[..1] == all && all[1..] == [];
    assert LogLength(all, 1) == W.HEADER_SIZE + |W.Encode(all[0])|;
    var k := CutNow(db, W.HEADER_SIZE + 8);
  }

  lemma TornNow(again: Database, m: map<nat, Loc>, bytes: seq<byte>, torn: W.Record)
    requires again.Valid() && Opened(again, [], m, [], bytes) && W.ReplayFile(bytes) == [] && again.Map() == ReplayAll(TableOf([], m), [])
    requires W.Framed(torn) && |W.Encode(torn)| > 5008 && bytes == W.Header() + W.Encode(torn)[..8]
    ensures again.past.found == [] && again.events == [] && again.Map() == map[] && again.pager.base == [] && again.pager.layout == []
    ensures again.wal.base == bytes && TornBehind([], again.wal.base, torn, W.HEADER_SIZE + 5000)
  {
    hide Database.Valid, Database.Map, W.ReplayFile, W.Encode, W.Header, W.Framed, Restores, Exact;
    assert W.EncodeLog([]) == [] && W.Header() + [] == W.Header();
    assert bytes[W.HEADER_SIZE..] == W.Encode(torn)[..8];
    again.pager.PooledLayout();
    assert |Changes(again.events)| == |again.events|;
  }

  /** The run: the row inserted after the reopen is acknowledged, and the next open does not
      find it. */
  method AcknowledgedLost(capacity: nat) returns (db: Database, again: Database, last: Database)
    ensures db.Valid() && CleanLog(db)
    ensures again.Valid() && again.Durable() && again.Map() == map[3 := Small(3)]
    ensures last.Valid() && last.Map() == map[]
  {
    hide Database.Valid, Database.Map, CleanBytes, TornBehind, Changes, Big, Small, W.Header;
    db := Begin();
    ghost var torn;
    again, torn := Tear(db, 1);
    Acknowledge(again);
    last := Forget(again, torn, capacity);
  }

  method Acknowledge(db: Database)
    requires db.Valid() && db.trees == map[] && db.schema == Names && db.pager.compression == None_ && db.pager.layout == [] && db.Map() == map[]
    requires db.past.found == [] && db.events == []
    modifies db, db.index, db.pager, db.pager.cache, db.wal
    ensures db.Valid() && db.Durable() && db.Map() == map[3 := Small(3)] && db.past == old(db.past) && Changes(db.events) == [Put(Small(3))]
    ensures db.wal.base == old(db.wal.base) && db.pager.base == old(db.pager.base)
  {
    hide Database.Valid, Database.Map, Storable, Filled, Place, Small, RowSize;
    Sizes(3);
    FieldCount(Small(3), Names);
    var s := db.Insert(Small(3));
    NeverFaults(db, s);
  }

  method Forget(db: Database, ghost torn: W.Record, capacity: nat) returns (last: Database)
    requires db.Valid() && db.Durable() && db.pager.compression == None_ && db.pager.base == []
    requires db.past.found == [] && Changes(db.events) == [Put(Small(3))]
    requires TornBehind([], db.wal.base, torn, W.HEADER_SIZE + 5000) && |db.wal.base| == W.HEADER_SIZE + 8
    ensures fresh(last) && fresh(last.index) && fresh(last.pager) && fresh(last.pager.cache) && fresh(last.wal)
    ensures last.Valid() && last.Map() == map[]
  {
    hide Database.Valid, Database.Map, Database.Loose, Explained, Opened, Recovered, UniqueIds, FileOf, Lists, CleanBytes, LogLength, ReplayAll, TableOf, Indexed, W.Header, W.Encode, W.ReplayFile, Replays, TornBehind, Small, SomeOverruns;
    OneRecord(db, Small(3));
    Sizes(3);
    TornShorter(db.wal.base, torn, W.HEADER_SIZE + 5000, |db.wal.file|);
    ghost var tr, bytes := TrailOf(db), db.wal.file[..|db.wal.file|];
    TrailNow(db);
    NoFile(db);
    var s, unique;
    ghost var n, m;
    s, last, unique, n, m := ReopenTorn(db, torn, |db.wal.file|, capacity);
    Reopens(tr, [], 0, bytes, s, last, unique);
    assert UniqueIds([]) by { NothingUnique(); }
    assert Changes(db.events)[..0] == [];
    NothingBack(last, m, bytes);
  }

  lemma TornShorter(base: seq<byte>, torn: W.Record, size: nat, less: nat)
    requires TornBehind([], base, torn, size) && less <= size
    ensures TornBehind([], base, torn, less)
  {
    hide W.Encode, W.Header, W.Framed;
  }

  lemma NothingBack(last: Database, m: map<nat, Loc>, bytes: seq<byte>)
    requires last.Valid() && Opened(last, [], m, [], bytes) && last.Map() == ReplayAll(TableOf([], m), [])
    ensures last.Map() == map[]
  {
    hide Database.Valid, Database.Map, W.ReplayFile, W.Header, Restores, Exact, PoolAfter;
  }
}
