/** A run of the engine after which the file holds one id twice: the condition of
    recovery after evictions is not always met. */
module Twice {
  import opened Rows
  import opened Pages
  import opened Layouts
  import opened Index
  import opened Cache
  import opened Replay
  import opened History
  import opened Paging
  import opened Engine
  import opened Stolen
  import opened Runs
  import opened Samples

  /** The first page holds rows 0 and 9, the others one large row each. */
  const Home: Layout := [[Big(0), Small(9)], [Big(1)], [Big(2)]]

  /** Row 0 has been updated and has moved to the last page. */
  const Moved: Layout := [[Small(9)], [Big(1)], [Big(2), Small(0)]]

  const HomeDisk: map<nat, seq<Row>> := map[0 := Home[0], 1 := Home[1], 2 := Home[2]]

  const HomeTable: Table := map[0 := Big(0), 9 := Small(9), 1 := Big(1), 2 := Big(2)]

  lemma RemovedTwo(x: nat, y: nat)
    requires x != y
    ensures Removed([x], x) == [] && Removed([x, y], x) == [y] && Removed([x, y], y) == [x]
  {
    assert [x][1..] == [] && [x, y][1..] == [y] && [y][1..] == [];
    assert Removed([y], x) == [y] && Removed([y], y) == [];
  }

  lemma UsedTwo(x: nat, y: nat, z: nat)
    requires x != y && y != z && x != z
    ensures Used([], x, 2) == [x] && Used([x], x, 2) == [x] && Used([x], z, 2) == [z, x]
    ensures Used([x, y], x, 2) == [x, y] && Used([x, y], y, 2) == [y, x] && Used([x, y], z, 2) == [z, x]
  {
    RemovedTwo(x, y);
    hide Removed;
    assert [x, y][..1] == [x];
  }

  lemma AllUsed()
    ensures Used([], 0, 2) == [0] && Used([0], 0, 2) == [0] && Used([0], 1, 2) == [1, 0]
    ensures Used([1, 0], 1, 2) == [1, 0] && Used([1, 0], 2, 2) == [2, 1]
    ensures Used([2, 1], 1, 2) == [1, 2] && Used([1, 2], 2, 2) == [2, 1]
    ensures Used([2, 1], 0, 2) == [0, 2] && Used([0, 2], 0, 2) == [0, 2] && Used([0, 2], 2, 2) == [2, 0]
    ensures Used([2, 0], 0, 2) == [0, 2] && Used([0, 2], 1, 2) == [1, 0]
    ensures Used([1, 0], 0, 2) == [0, 1] && Used([0, 1], 0, 2) == [0, 1] && Used([0, 1], 2, 2) == [2, 0] && Used([2, 0], 2, 2) == [2, 0]
  {
    hide Used;
    UsedTwo(0, 2, 1);
    UsedTwo(1, 0, 2);
    UsedTwo(2, 1, 0);
    UsedTwo(1, 2, 0);
    UsedTwo(2, 0, 1);
    UsedTwo(0, 1, 2);
  }

  lemma Rooms()
    ensures !HasRoom([], Big(0)) && HasRoom([[Big(0)]], Small(9))
    ensures !HasRoom([[Big(0), Small(9)]], Big(1)) && !HasRoom([[Big(0), Small(9)], [Big(1)]], Big(2))
    ensures HasRoom([[Small(9)], [Big(1)], [Big(2)]], Small(0))
  {
    hide RowSize, Storable, Big, Small, ByteSize;
    Sizes(0);
    Sizes(1);
    Sizes(2);
    Sizes(9);
    PageSizes(Big(0), Small(9));
    PageSizes(Big(1), Small(9));
    PageSizes(Big(2), Small(0));
  }

  lemma InsertFirst()
    ensures Filled(Pool([], [], {}, map[]), Big(0), 2) == Pool([[Big(0)]], [0], {0}, map[])
  {
    hide HasRoom, Used, Big, Small;
    Rooms();
    AllUsed();
    assert [] + [Big(0)] == [Big(0)];
  }

  lemma InsertSecond()
    ensures Filled(Pool([[Big(0)]], [0], {0}, map[]), Small(9), 2) == Pool([[Big(0), Small(9)]], [0], {0}, map[])
  {
    hide HasRoom, Used, Big, Small;
    Rooms();
    AllUsed();
    assert [Big(0)] + [Small(9)] == [Big(0), Small(9)];
  }

  lemma InsertThird()
    ensures Filled(Pool([[Big(0), Small(9)]], [0], {0}, map[]), Big(1), 2) == Pool([[Big(0), Small(9)], [Big(1)]], [1, 0], {0, 1}, map[])
  {
    hide HasRoom, Used, Big, Small;
    Rooms();
    AllUsed();
    assert [] + [Big(1)] == [Big(1)];
  }

  lemma InsertFourth()
    ensures Filled(Pool([[Big(0), Small(9)], [Big(1)]], [1, 0], {0, 1}, map[]), Big(2), 2)
         == Pool(Home, [2, 1], {1, 2}, map[0 := Home[0]])
  {
    hide HasRoom, Used, Big, Small;
    Rooms();
    AllUsed();
    assert [] + [Big(2)] == [Big(2)];
  }

  lemma Flush()
    ensures Flushed(Pool(Home, [2, 1], {1, 2}, map[0 := Home[0]]), 3, 2) == Pool(Home, [2, 1], {}, HomeDisk)
  {
    hide HasRoom, Used, Big, Small;
    AllUsed();
    var p := Pool(Home, [2, 1], {1, 2}, map[0 := Home[0]]);
    assert Flushed(p, 1, 2) == p;
    assert Flushed(p, 2, 2) == Pool(Home, [1, 2], {2}, map[0 := Home[0], 1 := Home[1]]);
  }

  lemma UpdateMoves()
    ensures Filled(Emptied(Pool(Home, [2, 1], {}, HomeDisk), Loc(0, 0), 2), Small(0), 2) == Pool(Moved, [2, 0], {0, 2}, HomeDisk)
  {
    hide HasRoom, Used, Big, Small;
    Rooms();
    AllUsed();
    var left: Layout := [[Small(9)], [Big(1)], [Big(2)]];
    assert Without([Big(0), Small(9)], 0) == [Small(9)];
    assert Emptied(Pool(Home, [2, 1], {}, HomeDisk), Loc(0, 0), 2) == Pool(left, [0, 2], {0}, HomeDisk);
    assert [Big(2)] + [Small(0)] == [Big(2), Small(0)];
  }

  /** Reading row 9 and then row 1 pushes the last page out, dirty, before the first. */
  lemma Reads()
    ensures Touched(Touched(Pool(Moved, [2, 0], {0, 2}, HomeDisk), 0, 2), 1, 2) == Pool(Moved, [1, 0], {0}, HomeDisk[2 := Moved[2]])
  {
    hide HasRoom, Used, Big, Small;
    AllUsed();
  }

  /** After four inserts and a checkpoint. */
  const Populated: Scene := Scene(Pool(Home, [2, 1], {}, HomeDisk), Home, [], 0, HomeTable)

  method Populate() returns (db: Database)
    ensures fresh(db) && fresh(db.index) && fresh(db.pager) && fresh(db.pager.cache) && fresh(db.wal)
    ensures Stands(db, Populated, 2)
  {
    hide Stands, Filled, Flushed, Storable, Big, Small, Other, RowSize;
    db := New(2);
    ghost var sc := Nothing;
    Sizes(0);
    Sizes(1);
    Sizes(2);
    Sizes(9);
    InsertFirst();
    Add(db, Big(0), sc, 2);
    sc := Added(sc, Big(0), 2);
    InsertSecond();
    Add(db, Small(9), sc, 2);
    sc := Added(sc, Small(9), 2);
    InsertThird();
    Add(db, Big(1), sc, 2);
    sc := Added(sc, Big(1), 2);
    InsertFourth();
    Add(db, Big(2), sc, 2);
    sc := Added(sc, Big(2), 2);
    Save(db, sc, 2);
    Flush();
    assert sc.table == HomeTable;
  }

  /** Row 0 has been updated and has moved, then rows 9 and 1 have been read. */
  function Later(events: seq<Event>): Scene {
    Scene(Pool(Moved, [1, 0], {0}, HomeDisk[2 := Moved[2]]), Home, events, |events|, HomeTable[0 := Small(0)])
  }

  /** The run: populate, update row 0 so that it moves to the last page, read rows 9 and 1.
      A crash now finds row 0 on the stale first page and on the last page. */
  method FileCanHoldTwice() returns (db: Database)
    ensures Stands(db, Later(db.events), 2) && |db.events| == 2 && Settled(db) && !UniqueIds(FileOf(db))
  {
    hide Stands, Database.Valid, Database.Map, Settled, OnFile, Filled, Emptied, Touched, Storable, Big, Small, Other, RowSize, UniqueIds, FileOf;
    db := Populate();
    Sizes(0);
    Sizes(1);
    Sizes(9);
    UpdateMoves();
    Swap(db, Small(0), Loc(0, 0), Populated, 2);
    ghost var es := db.events;
    ghost var sc := Later(es).(pool := Pool(Moved, [2, 0], {0, 2}, HomeDisk));
    Look(db, 9, Loc(0, 0), sc, 2);
    TouchedKeeps(sc.pool, 0, 2);
    sc := sc.(pool := Touched(sc.pool, 0, 2));
    Look(db, 1, Loc(1, 0), sc, 2);
    Reads();
    StandsIs(db, Later(es), 2);
    LaterTwice(es);
  }

  lemma LaterTwice(events: seq<Event>)
    ensures !UniqueIds(OnFile(Later(events)))
  {
    hide Big, Small;
    Sizes(0);
    var file := OnFile(Later(events));
    assert file[0] == Home[0] && file[2] == Moved[2];
    assert InLayout(file, Loc(0, 0)) && InLayout(file, Loc(2, 1)) && RowIn(file, Loc(0, 0)).id == RowIn(file, Loc(2, 1)).id;
  }

  /** So acknowledged rows can be scanned wrongly after a crash, whatever the new capacity:
      the database opens, unsound, and a full scan does not list them. */
  method CrashShowsTwice(capacity: nat) returns (db: Database, again: Database)
    ensures db.Valid() && Settled(db) && !UniqueIds(FileOf(db))
    ensures again.Loose() && !again.Sound() && !Lists(again.pager.layout, db.Map())
  {
    hide Stands, Database.Valid, Database.Map, Database.Loose, Database.Sound, UniqueIds, FileOf, OnFile, Lists, Settled, Big, Small;
    db := FileCanHoldTwice();
    ghost var sc := Later(db.events);
    LaterTwice(db.events);
    StandsIs(db, sc, 2);
    again := CrashSettled(db, capacity, sc);
  }

  method CrashSettled(db: Database, capacity: nat, ghost sc: Scene) returns (again: Database)
    requires Stands(db, sc, 2) && sc.synced == |sc.events| && |sc.base| < 4 && |sc.events| < 10
    ensures fresh(again) && fresh(again.index) && fresh(again.pager) && fresh(again.pager.cache) && fresh(again.wal)
    ensures again.Loose() && (again.Sound() <==> UniqueIds(OnFile(sc))) && (Lists(again.pager.layout, sc.table) <==> UniqueIds(OnFile(sc)))
  {
    hide Stands, Database.Valid, Database.Map, Database.Loose, Database.Sound, UniqueIds, FileOf, OnFile, Lists;
    StandsIs(db, sc, 2);
    var unique;
    ghost var now, m;
    again, unique, now, m := Restart(db, |db.wal.file|, capacity, sc, 2);
  }
}
