/** Concrete databases: single steps of the engine whose whole effect is known, from which
    the runs that break a promise are put together. */
module Samples {
  import opened Bytes
  import opened Rows
  import opened Pages
  import opened Layouts
  import opened Index
  import opened Replay
  import opened History
  import opened Contract
  import opened Storage
  import opened Paging
  import opened Engine
  import opened Recovery
  import opened Stolen
  import opened Runs
  import W = Wal

  /** One string field. */
  const Names: Schema := [FieldDef("name", STRING)]

  /** A row of 5010 bytes: two do not share a page. */
  function Big(id: u32): Row { Row(id, [Str(seq(5000, _ => 65))]) }

  /** A row of 10 bytes. */
  function Small(id: u32): Row { Row(id, [Str([])]) }

  /** A row of 11 bytes. */
  function Other(id: u32): Row { Row(id, [Str([66])]) }

  lemma Sizes(id: u32)
    ensures RowSize(Big(id)) == 5010 && Storable(Big(id), Names) && Big(id).id == id
    ensures RowSize(Small(id)) == 10 && Storable(Small(id), Names) && Small(id).id == id
    ensures RowSize(Other(id)) == 11 && Storable(Other(id), Names) && Other(id).id == id && Other(id) != Small(id)
  {
    hide RowSize, Storable;
    SizeOf(id, seq(5000, _ => 65));
    SizeOf(id, []);
    SizeOf(id, [66]);
  }

  lemma SizeOf(id: u32, text: seq<byte>)
    requires |text| <= 5000
    ensures var row := Row(id, [Str(text)]); RowSize(row) == 10 + |text| && Storable(row, Names)
  {
    var row := Row(id, [Str(text)]);
    assert row.fields[1..] == [];
    assert EncodeFields(row.fields) == EncodeField(row.fields[0]);
  }

  lemma PageSizes(a: Row, b: Row)
    ensures ByteSize([a]) == RowSize(a) && ByteSize([a, b]) == RowSize(a) + RowSize(b)
  {
    assert [a][1..] == [] && [a, b][1..] == [b] && [b][1..] == [];
    assert ByteSize([b]) == RowSize(b);
  }

  /** The pages and the cache, what the file held at the last checkpoint, what happened
      since and how much of that is synced, and the map. */
  datatype Scene = Scene(pool: Pool, base: Layout, events: seq<Event>, synced: nat, table: Table)

  /** An uncompressed database in that state. */
  ghost predicate Stands(db: Database, sc: Scene, capacity: nat)
    reads db, db.index, db.pager, db.pager.cache, db.wal, db.trees.Values
  {
    && db.Valid() && CleanLog(db)
    && db.pager.Pooled() == sc.pool && |sc.pool.layout| < 100 && db.pager.base == sc.base && db.Map() == sc.table
    && db.schema == Names && db.pager.compression == None_ && db.pager.cache.capacity == capacity && db.trees == map[]
    && db.events == sc.events && sc.synced <= |sc.events| < 100
    && db.wal.synced == LogLength(AllRecords(db), sc.synced)
    && (sc.synced == |sc.events| ==> db.Durable())
  }

  /** insert */
  function Added(sc: Scene, row: Row, capacity: nat): Scene {
    Queued(sc, row, capacity).(synced := |sc.events| + 1)
  }

  /** insert_unlocked without a sync, as in a batch */
  function Queued(sc: Scene, row: Row, capacity: nat): Scene {
    Scene(Filled(sc.pool, row, capacity), sc.base, sc.events + [Event(Put(row), Some(Place(sc.pool.layout, row)))],
          sc.synced, sc.table[row.id := row])
  }

  /** erase_unlocked, as in a batch */
  function Taken(sc: Scene, id: nat, at: Loc, capacity: nat): Scene {
    Scene(Emptied(sc.pool, at, capacity), sc.base, sc.events + [Event(Del(id), Some(at))], sc.synced, sc.table - {id})
  }

  /** checkpoint */
  function Saved(sc: Scene, capacity: nat): Scene {
    Scene(Flushed(sc.pool, |sc.pool.layout|, capacity), sc.pool.layout, [], 0, sc.table)
  }

  const Nothing: Scene := Scene(Pool([], [], {}, map[]), [], [], 0, map[])

  /** A cache has room for a page at least. */
  function Room(capacity: nat): nat { if capacity == 0 then 1 else capacity }

  /** Without compression a small database never stops. */
  lemma NeverFaults(db: Database, s: Status)
    requires db.pager.compression == None_ && (s == Fault ==> |db.pager.layout| < 1000 && db.Faultable())
    ensures s != Fault
  {}

  method New(capacity: nat) returns (db: Database)
    ensures fresh(db) && fresh(db.index) && fresh(db.pager) && fresh(db.pager.cache) && fresh(db.wal)
    ensures Stands(db, Nothing, Room(capacity))
  {
    hide Database.Valid, Database.Map, CleanBytes, LogLength, Pager.Pooled;
    db := Create(Names, None_, capacity);
    SettledEnd(db);
  }

  /** The log only grows: what was synced takes as many bytes as before. */
  lemma SyncedStays(before: seq<W.Record>, after: seq<W.Record>, n: nat)
    requires before <= after && n <= |before| && W.AllFramed(before) && W.AllFramed(after)
    ensures LogLength(before, n) == LogLength(after, n)
  {
    hide W.AllFramed, W.EncodeLog;
    assert before[..n] == after[..n];
  }

  method Add(db: Database, row: Row, ghost sc: Scene, ghost capacity: nat)
    requires Stands(db, sc, capacity) && row.id !in sc.table && Storable(row, Names)
    requires |Filled(sc.pool, row, capacity).layout| < 100 && |sc.events| < 99
    modifies db, db.index, db.pager, db.pager.cache, db.wal
    ensures Stands(db, Added(sc, row, capacity), capacity)
  {
    hide Database.Valid, Database.Map, Filled, Storable, CleanBytes, LogLength, Place;
    FieldCount(row, Names);
    var s := db.Insert(row);
    NeverFaults(db, s);
    SettledEnd(db);
  }

  method Queue(db: Database, row: Row, ghost sc: Scene, ghost capacity: nat)
    requires Stands(db, sc, capacity) && row.id !in sc.table && Storable(row, Names)
    requires |Filled(sc.pool, row, capacity).layout| < 100 && |sc.events| < 99
    modifies db, db.index, db.pager, db.pager.cache, db.wal
    ensures Stands(db, Queued(sc, row, capacity), capacity) && db.wal.synced == old(db.wal.synced)
  {
    hide Database.Valid, Database.Map, Filled, Storable, CleanBytes, LogLength, Place, Logged, W.AllFramed, W.EncodeLog, W.Header;
    FieldCount(row, Names);
    ghost var before := AllRecords(db);
    WholeLog(db);
    var s := db.InsertUnlocked(row, false);
    NeverFaults(db, s);
    WholeLog(db);
    SyncedStays(before, AllRecords(db), sc.synced);
  }

  method Drop(db: Database, id: nat, ghost at: Loc, ghost sc: Scene, ghost capacity: nat)
    requires Stands(db, sc, capacity) && InLayout(sc.pool.layout, at) && RowIn(sc.pool.layout, at).id == id && |sc.events| < 99
    modifies db, db.index, db.pager, db.pager.cache, db.wal
    ensures Stands(db, Taken(sc, id, at, capacity), capacity) && db.wal.synced == old(db.wal.synced)
  {
    hide Database.Valid, Database.Map, Emptied, CleanBytes, LogLength, Logged, W.AllFramed, W.EncodeLog, W.Header;
    ghost var before := AllRecords(db);
    WholeLog(db);
    PlaceOf(db, id, at);
    var s := db.EraseUnlocked(id);
    NeverFaults(db, s);
    WholeLog(db);
    SyncedStays(before, AllRecords(db), sc.synced);
  }

  lemma PlaceOf(db: Database, id: nat, at: Loc)
    requires db.Valid() && InLayout(db.pager.layout, at) && RowIn(db.pager.layout, at).id == id
    ensures id in db.index.contents && db.index.contents[id] == at && id in db.Map()
  {
    hide Explains;
    CoreIndexed(db);
  }

  method Save(db: Database, ghost sc: Scene, ghost capacity: nat)
    requires Stands(db, sc, capacity)
    modifies db, db.index, db.pager, db.pager.cache, db.wal
    ensures Stands(db, Saved(sc, capacity), capacity)
  {
    hide Database.Valid, Database.Map, Flushed, CleanBytes, LogLength, W.Header;
    NewLogClean();
    var s := db.Checkpoint();
    NeverFaults(db, s);
    SettledEnd(db);
  }

  method Look(db: Database, id: nat, ghost at: Loc, ghost sc: Scene, ghost capacity: nat)
    requires Stands(db, sc, capacity) && InLayout(sc.pool.layout, at) && RowIn(sc.pool.layout, at).id == id
    modifies db, db.index, db.pager, db.pager.cache, db.wal
    ensures Stands(db, sc.(pool := Touched(sc.pool, at.page, capacity)), capacity)
  {
    hide Database.Valid, Indexed, TableOf, Touched, CleanBytes, LogLength;
    PlaceOf(db, id, at);
    TouchedKeeps(sc.pool, at.page, capacity);
    var s, row := db.Get(id);
    NeverFaults(db, s);
  }

  method Swap(db: Database, row: Row, ghost at: Loc, ghost sc: Scene, ghost capacity: nat)
    requires Stands(db, sc, capacity) && InLayout(sc.pool.layout, at) && RowIn(sc.pool.layout, at).id == row.id && Storable(row, Names)
    requires |Filled(Emptied(sc.pool, at, capacity), row, capacity).layout| < 100 && |sc.events| < 98
    modifies db, db.index, db.pager, db.pager.cache, db.wal
    ensures |db.events| == |sc.events| + 2
    ensures Stands(db, Scene(Filled(Emptied(sc.pool, at, capacity), row, capacity), sc.base, db.events, |db.events|, sc.table[row.id := row]), capacity)
  {
    hide Database.Valid, Database.Map, Filled, Emptied, Storable, CleanBytes, LogLength;
    PlaceOf(db, row.id, at);
    var s := db.Update(row);
    NeverFaults(db, s);
    SettledEnd(db);
  }

  /** What the file holds. */
  ghost function OnFile(sc: Scene): Layout {
    if forall p :: 0 <= p < |sc.base| ==> p in sc.pool.disk then Slots(|sc.base|, sc.pool.disk) else []
  }

  lemma FileStands(db: Database, sc: Scene, capacity: nat)
    requires Stands(db, sc, capacity)
    ensures FileOf(db) == OnFile(sc) && |OnFile(sc)| == |sc.base|
  {
    hide Manager.Valid, W.Log.Valid, Explains, Indexed, TableOf, Cached, Stored, PagesFit, SeenAs, CleanBytes, LogLength;
  }

  lemma StandsIs(db: Database, sc: Scene, capacity: nat)
    requires Stands(db, sc, capacity)
    ensures db.Valid() && FileOf(db) == OnFile(sc) && db.Map() == sc.table && db.events == sc.events && db.pager.base == sc.base
    ensures sc.synced == |sc.events| ==> Settled(db) && db.wal.synced == |db.wal.file|
  {
    hide Database.Valid, FileOf, OnFile, CleanBytes;
    FileStands(db, sc, capacity);
  }

  /** The file and the synced changes, replayed. */
  ghost predicate Resumed(now: Scene, m: map<nat, Loc>, sc: Scene, capacity: nat) {
    var file := OnFile(sc);
    && now.base == file && now.synced == |now.events|
    && Changes(now.events) == (if sc.synced <= |sc.events| then Changes(sc.events)[..sc.synced] else [])
    && Indexed(file, m) && LegalHistory(file, now.events, Names)
    && now.pool == PoolAfter(Pool(file, [], {}, DiskOf(file)), now.events, capacity)
    && now.table == ReplayAll(TableOf(file, m), Changes(now.events))
  }

  /** A crash that loses everything since the last sync. */
  method Restart(db: Database, cut: nat, capacity: nat, ghost sc: Scene, ghost was: nat)
    returns (again: Database, unique: bool, ghost now: Scene, ghost m: map<nat, Loc>)
    requires Stands(db, sc, was) && cut == db.wal.synced && |sc.base| + sc.synced < 100
    ensures fresh(again) && fresh(again.index) && fresh(again.pager) && fresh(again.pager.cache) && fresh(again.wal)
    ensures (unique <==> UniqueIds(OnFile(sc))) && again.Loose() && (again.Sound() <==> unique)
    ensures sc.synced == |sc.events| ==> (Lists(again.pager.layout, sc.table) <==> unique)
    ensures unique ==> Stands(again, now, Room(capacity)) && Resumed(now, m, sc, Room(capacity))
  {
    hide Database.Valid, Database.Map, Database.Loose, Explained, Opened, Recovered, UniqueIds, FileOf, OnFile, Lists, CleanBytes, LogLength, ReplayAll, TableOf, Indexed, Resumed, Survives, SomeOverruns;
    FileStands(db, sc, was);
    TrailNow(db);
    SyncedWithin(db);
    ghost var tr := TrailOf(db);
    var s;
    ghost var n;
    s, again, unique, n, m := Reopen(db, cut, capacity);
    Pinned(db, sc, was, n);
    Reopens(tr, OnFile(sc), n, db.wal.file[..cut], s, again, unique);
    now := Scene(again.pager.Pooled(), OnFile(sc), again.events, |again.events|, if unique then again.Map() else map[]);
    if unique {
      ResumedNow(sc, again, n, m, db.wal.file[..cut], Room(capacity));
    }
  }

  lemma SyncedWithin(db: Database)
    requires db.Valid()
    ensures db.wal.synced <= |db.wal.file|
  {
    hide Manager.Valid, Pager.Valid, Explains, Indexed, TableOf, W.EncodeLog;
  }

  /** A small database without compression is opened. */
  lemma Reopens(tr: Trail, disk: Layout, n: nat, walBytes: seq<byte>, s: Status, again: Database, unique: bool)
    requires Explained(tr) && n <= |tr.events| && Recovered(tr, disk, n, walBytes, s, again, unique)
    requires again.pager.compression == None_ && |again.pager.layout| < 1000
    ensures s == Ok && again.Loose() && again.schema == tr.schema && (unique <==> UniqueIds(disk)) && (again.Sound() <==> unique)
    ensures n == |tr.events| ==> (Lists(again.pager.layout, Last(tr)) <==> unique)
    ensures unique ==> again.Valid()
  {
    hide Database.Valid, Database.Map, Database.Loose, Explained, UniqueIds, Lists, NoneOlder, W.ReplayFile;
    NeverFaults(again, s);
  }

  lemma ResumedNow(sc: Scene, again: Database, n: nat, m: map<nat, Loc>, walBytes: seq<byte>, capacity: nat)
    requires n == sc.synced <= |sc.events| < 100 && again.Valid() && Opened(again, OnFile(sc), m, Changes(sc.events)[..n], walBytes)
    requires CleanLog(again) && again.schema == Names && again.pager.compression == None_ && again.pager.cache.capacity == capacity
    requires again.trees == map[] && |again.pager.layout| < 100
    requires again.Map() == ReplayAll(TableOf(OnFile(sc), m), Changes(sc.events)[..n])
    ensures var now := Scene(again.pager.Pooled(), OnFile(sc), again.events, |again.events|, again.Map());
            Stands(again, now, capacity) && Resumed(now, m, sc, capacity)
  {
    hide Database.Valid, Database.Map, OnFile, CleanBytes, LogLength, ReplayAll, TableOf, Indexed, W.ReplayFile, Restores, Exact, PoolAfter, DiskOf, LegalHistory;
    SettledEnd(again);
    TableNow(again);
  }

  /** Exactly the synced records survive. */
  lemma Pinned(db: Database, sc: Scene, capacity: nat, n: nat)
    requires Stands(db, sc, capacity) && Survives(TrailOf(db), db.wal.durable, db.wal.synced, n)
    ensures n == sc.synced
  {
    hide Database.Valid, CleanBytes, LogLength, Logged, W.AllFramed, W.EncodeLog, W.Header;
    WholeLog(db);
    var all, k := AllRecords(db), sc.synced;
    if n < k { LongerLog(all, n + 1, k); }
    if k < n { LongerLog(all, k, n); }
  }

  lemma LongerLog(all: seq<W.Record>, i: nat, j: nat)
    requires W.AllFramed(all) && i <= j <= |all|
    ensures LogLength(all, i) + (j - i) <= LogLength(all, j)
  {
    hide W.EncodeLog;
    if i < j {
      LongerLog(all, i, j - 1);
      W.LogGrows(all[..j - 1], all[j - 1]);
      assert all[..j - 1] + [all[j - 1]] == all[..j];
    }
  }
}
