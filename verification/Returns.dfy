/** A run of the engine after which a row that was replaced and then deleted comes back in
    its first version: with records lost, a log that does not restore what the file holds
    can show a state older than every moment since. */
module Returns {
  import opened Bytes
  import opened Rows
  import opened Pages
  import opened Layouts
  import opened Index
  import opened Cache
  import opened Replay
  import opened History
  import opened Paging
  import opened Engine
  import opened Recovery
  import opened Stolen
  import opened Runs
  import opened Samples

  const Pair: Layout := [[Big(0)], [Big(1)]]

  /** With the first version of row 7, and with the second. */
  const First: Layout := [[Big(0)], [Big(1), Small(7)]]
  const Second: Layout := [[Big(0)], [Big(1), Other(7)]]

  const PairDisk: map<nat, seq<Row>> := map[0 := Pair[0], 1 := Pair[1]]
  const SecondDisk: map<nat, seq<Row>> := map[0 := Second[0], 1 := Second[1]]

  const PairTable: Table := map[0 := Big(0), 1 := Big(1)]

  lemma Rooms()
    ensures !HasRoom([], Big(0)) && !HasRoom([[Big(0)]], Big(1)) && HasRoom(Pair, Small(7)) && HasRoom(Pair, Other(7))
  {
    hide RowSize, Storable, Big, Small, Other, ByteSize;
    Sizes(0);
    Sizes(1);
    Sizes(7);
    PageSizes(Big(0), Big(0));
    PageSizes(Big(1), Big(1));
  }

  lemma UsedOne(x: nat, y: nat)
    requires x != y
    ensures Used([], x, 1) == [x] && Used([x], x, 1) == [x] && Used([x], y, 1) == [y]
  {
    assert [x][1..] == [] && [x][..0] == [];
    assert Removed([x], x) == [];
  }

  lemma InsertBigs()
    ensures Filled(Pool([], [], {}, map[]), Big(0), 1) == Pool([[Big(0)]], [0], {0}, map[])
    ensures Filled(Pool([[Big(0)]], [0], {0}, map[]), Big(1), 1) == Pool(Pair, [1], {1}, map[0 := Pair[0]])
    ensures Flushed(Pool(Pair, [1], {1}, map[0 := Pair[0]]), 2, 1) == Pool(Pair, [1], {}, PairDisk)
  {
    hide HasRoom, Used, Big, Small, Other;
    Rooms();
    UsedOne(0, 1);
    UsedOne(1, 0);
    assert [] + [Big(0)] == [Big(0)] && [] + [Big(1)] == [Big(1)];
    var p := Pool(Pair, [1], {1}, map[0 := Pair[0]]);
    assert Flushed(p, 1, 1) == p;
  }

  lemma InsertSmall()
    ensures Filled(Pool(Pair, [1], {}, PairDisk), Small(7), 1) == Pool(First, [1], {1}, PairDisk)
  {
    hide HasRoom, Used, Big, Small, Other;
    Rooms();
    UsedOne(1, 0);
    assert [Big(1)] + [Small(7)] == [Big(1), Small(7)];
  }

  lemma ReplaceSmall()
    ensures Emptied(Pool(First, [1], {1}, PairDisk), Loc(1, 1), 1) == Pool(Pair, [1], {1}, PairDisk)
    ensures Filled(Pool(Pair, [1], {1}, PairDisk), Other(7), 1) == Pool(Second, [1], {1}, PairDisk)
  {
    hide HasRoom, Used, Big, Small, Other;
    Rooms();
    UsedOne(1, 0);
    assert Without([Big(1), Small(7)], 1) == [Big(1)];
    assert [Big(1)] + [Other(7)] == [Big(1), Other(7)];
  }

  /** Going on to row 0 pushes the last page out. */
  lemma Evict(layout: Layout, disk: map<nat, seq<Row>>)
    requires |layout| == 2 && layout[0] == [Big(0)]
    ensures Emptied(Pool(layout, [1], {1}, disk), Loc(0, 0), 1) == Pool([[], layout[1]], [0], {0}, disk[1 := layout[1]])
  {
    hide Used, Big, Small, Other;
    UsedOne(1, 0);
    UsedOne(0, 1);
    assert Without([Big(0)], 0) == [];
  }

  lemma EraseAgain()
    ensures Emptied(Pool(Second, [], {}, SecondDisk), Loc(1, 1), 1) == Pool(Pair, [1], {1}, SecondDisk)
  {
    hide Used, Big, Small, Other;
    UsedOne(1, 0);
    assert Without([Big(1), Other(7)], 1) == [Big(1)];
  }

  /** Two pages checkpointed, then row 7 inserted and acknowledged. */
  const Begun: Scene := Scene(Pool(First, [1], {1}, PairDisk), Pair, [Event(Put(Small(7)), Some(Loc(1, 1)))], 1, PairTable[7 := Small(7)])

  method Begin() returns (db: Database)
    ensures fresh(db) && fresh(db.index) && fresh(db.pager) && fresh(db.pager.cache) && fresh(db.wal)
    ensures Stands(db, Begun, 1)
  {
    hide Stands, Filled, Flushed, Storable, Big, Small, Other, RowSize, HasRoom;
    Sizes(0);
    Sizes(1);
    Sizes(7);
    InsertBigs();
    db := New(1);
    Add(db, Big(0), Nothing, 1);
    ghost var sc := Added(Nothing, Big(0), 1);
    Add(db, Big(1), sc, 1);
    sc := Added(sc, Big(1), 1);
    Save(db, sc, 1);
    sc := Saved(sc, 1);
    assert sc == Scene(Pool(Pair, [1], {}, PairDisk), Pair, [], 0, PairTable);
    InsertSmall();
    Rooms();
    Add(db, Small(7), sc, 1);
    assert Added(sc, Small(7), 1) == Begun;
  }

  /** Row 7 replaced and row 0 erased, as in update_batch, with nothing synced. */
  const Replaced: Scene := Scene(Pool([[], [Big(1), Other(7)]], [0], {0}, PairDisk[1 := [Big(1), Other(7)]]), Pair,
                                 Begun.events + [Event(Del(7), Some(Loc(1, 1)))] + [Event(Put(Other(7)), Some(Loc(1, 1)))] + [Event(Del(0), Some(Loc(0, 0)))],
                                 1, map[1 := Big(1), 7 := Other(7)])

  method Replace(db: Database)
    requires Stands(db, Begun, 1)
    modifies db, db.index, db.pager, db.pager.cache, db.wal
    ensures Stands(db, Replaced, 1) && db.wal.synced == old(db.wal.synced)
  {
    hide Stands, Filled, Emptied, Storable, Big, Small, Other, RowSize, HasRoom;
    Sizes(0);
    Sizes(1);
    Sizes(7);
    Rooms();
    ReplaceSmall();
    Drop(db, 7, Loc(1, 1), Begun, 1);
    ghost var sc := Taken(Begun, 7, Loc(1, 1), 1);
    Queue(db, Other(7), sc, 1);
    sc := Queued(sc, Other(7), 1);
    Evict(Second, PairDisk);
    Drop(db, 0, Loc(0, 0), sc, 1);
    assert Taken(sc, 0, Loc(0, 0), 1) == Replaced;
  }

  /** The reopened database: the second version is on file, the first in the log. */
  const Reopened: Scene := Scene(Pool(Second, [], {}, SecondDisk), Second, [Event(Put(Small(7)), None)], 1, PairTable[7 := Other(7)])

  /** Row 7 and row 0 erased, as in erase_batch, with nothing synced. */
  const Deleted: Scene := Scene(Pool([[], [Big(1)]], [0], {0}, SecondDisk[1 := [Big(1)]]), Second,
                                [Event(Put(Small(7)), None)] + [Event(Del(7), Some(Loc(1, 1)))] + [Event(Del(0), Some(Loc(0, 0)))],
                                1, map[1 := Big(1)])

  method Delete(db: Database)
    requires Stands(db, Reopened, 1)
    modifies db, db.index, db.pager, db.pager.cache, db.wal
    ensures Stands(db, Deleted, 1) && db.wal.synced == old(db.wal.synced)
  {
    hide Stands, Emptied, Storable, Big, Small, Other, RowSize;
    Sizes(0);
    Sizes(1);
    Sizes(7);
    EraseAgain();
    Drop(db, 7, Loc(1, 1), Reopened, 1);
    ghost var sc := Taken(Reopened, 7, Loc(1, 1), 1);
    Evict(Pair, SecondDisk);
    Drop(db, 0, Loc(0, 0), sc, 1);
    assert Taken(sc, 0, Loc(0, 0), 1) == Deleted;
  }

  lemma PairOnFile(sc: Scene, file: Layout)
    requires |sc.base| == |file| == 2 && 0 in sc.pool.disk && 1 in sc.pool.disk && sc.pool.disk[0] == file[0] && sc.pool.disk[1] == file[1]
    ensures OnFile(sc) == file
  {
    var slots := Slots(2, sc.pool.disk);
    assert slots[0] == file[0] && slots[1] == file[1];
  }

  lemma PairUnique()
    ensures UniqueIds(Pair)
  {
    hide Big, Small, Other, RowSize, Storable;
    Sizes(0);
    Sizes(1);
  }

  lemma PairIs(m: map<nat, Loc>)
    requires Indexed(Pair, m)
    ensures TableOf(Pair, m) == PairTable
  {
    hide Big, Small, Other, RowSize, Storable;
    Sizes(0);
    Sizes(1);
    assert InLayout(Pair, Loc(0, 0)) && InLayout(Pair, Loc(1, 0));
    assert m[0] == Loc(0, 0) && m[1] == Loc(1, 0);
    assert forall id :: id in m ==> RowIn(Pair, m[id]).id == id;
  }

  lemma SecondUnique()
    ensures UniqueIds(Second) && !History.Absent(Second, 7)
  {
    hide Big, Small, Other, RowSize, Storable;
    Sizes(0);
    Sizes(1);
    Sizes(7);
    assert InLayout(Second, Loc(1, 1));
  }

  lemma SecondIs(m: map<nat, Loc>)
    requires Indexed(Second, m)
    ensures TableOf(Second, m) == Reopened.table
  {
    hide Big, Small, Other, RowSize, Storable;
    Sizes(0);
    Sizes(1);
    Sizes(7);
    assert InLayout(Second, Loc(0, 0)) && InLayout(Second, Loc(1, 0)) && InLayout(Second, Loc(1, 1));
    assert m[0] == Loc(0, 0) && m[1] == Loc(1, 0) && m[7] == Loc(1, 1);
    assert forall id :: id in m ==> RowIn(Second, m[id]).id == id;
  }

  /** The logged insert is skipped: row 7 is there. */
  lemma ReopenedIs(now: Scene, m: map<nat, Loc>)
    requires Resumed(now, m, Replaced, 1)
    ensures now == Reopened
  {
    hide OnFile, Big, Small, Other, Indexed, TableOf, Storable, RowSize, History.Absent, Place, UniqueIds, LegalHistory, PoolAfter, DiskOf, ReplayAll;
    PairOnFile(Replaced, Second);
    SecondUnique();
    SecondIs(m);
    Sizes(7);
    assert Changes(Replaced.events)[..1] == [Put(Small(7))];
    SkippedOnly(now.events);
    ReplayPut(TableOf(Second, m), Small(7));
    ReopenedPool();
  }

  lemma ReopenedPool()
    ensures PoolAfter(Pool(Second, [], {}, DiskOf(Second)), Reopened.events, 1) == Reopened.pool
  {
    hide Big, Small, Other, Filled, Emptied;
    assert DiskOf(Second) == SecondDisk;
    assert Reopened.events[..0] == [];
  }

  lemma SkippedOnly(es: seq<Event>)
    requires Changes(es) == [Put(Small(7))] && LegalHistory(Second, es, Names) && !History.Absent(Second, 7)
    ensures es == [Event(Put(Small(7)), None)]
  {
    hide Big, Small, Other, History.Absent, Storable, Place;
    Sizes(7);
    EventLegalAt(Second, es, Names, 0);
    assert es[0].change == Put(Small(7));
  }

  lemma ReplayPut(t: Table, row: Row)
    ensures ReplayAll(t, [Put(row)]) == if row.id in t then t else t[row.id := row]
  {
    assert [Put(row)][..0] == [];
  }

  /** The logged insert is carried out: row 7 is gone from the file. */
  lemma DeletedReturns(now: Scene, m: map<nat, Loc>, capacity: nat)
    requires Resumed(now, m, Deleted, capacity)
    ensures now.table == PairTable[7 := Small(7)]
  {
    hide OnFile, Big, Small, Other, Indexed, TableOf, Storable, RowSize, LegalHistory, PoolAfter, DiskOf, ReplayAll;
    PairOnFile(Deleted, Pair);
    PairIs(m);
    Sizes(7);
    assert Changes(Deleted.events)[..1] == [Put(Small(7))];
    ReplayPut(PairTable, Small(7));
  }

  /** From the first reopen on, row 7 was in its second version or absent. */
  lemma NeverAgain()
    ensures !Dated(PairTable[7 := Small(7)], PairTable[7 := Other(7)], [Put(Small(7)), Del(7), Del(0)], 1, 7)
  {
    hide Big, Small, Other, RowSize, Storable, ReplayAll;
    Sizes(7);
    var cs, start := [Put(Small(7)), Del(7), Del(0)], PairTable[7 := Other(7)];
    assert cs[..1] == [Put(Small(7))] && cs[..1 + 1] == cs[..1] + [Del(7)] && cs[..3] == cs[..2] + [Del(0)];
    ReplayPut(start, Small(7));
    ReplayMore(start, cs, 1);
    ReplayMore(start, cs, 2);
    forall k | 1 <= k <= 3 ensures Lookup(ReplayAll(start, cs[..k]), 7) != Some(Small(7)) {
      assert k == 1 || k == 2 || k == 3;
    }
  }

  lemma DeletedChanges()
    ensures Changes(Deleted.events) == [Put(Small(7)), Del(7), Del(0)]
  {
    hide Big, Small, Other;
  }

  /** The run: row 7 is inserted and acknowledged. A crash inside update_batch, after its
      page went out, brings the second version back, with the insert of the first still in
      the log. A crash inside erase_batch, after its page went out, brings back the first,
      which the engine has not held since before the first crash. */
  method FirstReturns(capacity: nat) returns (db: Database, again: Database, last: Database)
    ensures db.Valid() && Changes(db.events) == [Put(Small(7)), Del(7), Put(Other(7)), Del(0)]
    ensures again.Valid() && Explained(TrailOf(again)) && Start(TrailOf(again)) == PairTable[7 := Other(7)] && Changes(again.events) == [Put(Small(7)), Del(7), Del(0)]
    ensures last.Valid() && last.Map() == PairTable[7 := Small(7)]
    ensures !Dated(last.Map(), Start(TrailOf(again)), Changes(again.events), 1, 7)
  {
    hide Stands, Database.Valid, Database.Map, Explained, Start, Dated, Big, Small, Other, Changes;
    var cut;
    db, cut := UntilReplaced();
    again := ReopenReplaced(db, cut);
    last := UntilDeleted(again, capacity);
    NeverAgain();
  }

  method UntilReplaced() returns (db: Database, cut: nat)
    ensures Stands(db, Replaced, 1) && cut == db.wal.synced
    ensures db.Valid() && Changes(db.events) == [Put(Small(7)), Del(7), Put(Other(7)), Del(0)]
  {
    hide Stands, Database.Valid, Database.Map, Settled, OnFile, FileOf, Big, Small, Other;
    db := Begin();
    StandsIs(db, Begun, 1);
    cut := |db.wal.file|;
    Replace(db);
    StandsIs(db, Replaced, 1);
  }

  method ReopenReplaced(db: Database, cut: nat) returns (again: Database)
    requires Stands(db, Replaced, 1) && cut == db.wal.synced
    ensures fresh(again) && fresh(again.index) && fresh(again.pager) && fresh(again.pager.cache) && fresh(again.wal)
    ensures Stands(again, Reopened, 1)
  {
    hide Stands, Database.Valid, Database.Map, Database.Loose, Database.Sound, OnFile, UniqueIds, Resumed, Big, Small, Other, Lists;
    PairOnFile(Replaced, Second);
    SecondUnique();
    var unique;
    ghost var now, m;
    again, unique, now, m := Restart(db, cut, 1, Replaced, 1);
    ReopenedIs(now, m);
  }

  method UntilDeleted(db: Database, capacity: nat) returns (last: Database)
    requires Stands(db, Reopened, 1)
    modifies db, db.index, db.pager, db.pager.cache, db.wal
    ensures db.Valid() && Explained(TrailOf(db)) && Start(TrailOf(db)) == PairTable[7 := Other(7)] && Changes(db.events) == [Put(Small(7)), Del(7), Del(0)]
    ensures last.Valid() && last.Map() == PairTable[7 := Small(7)]
  {
    hide Stands, Database.Valid, Database.Map, Settled, OnFile, FileOf, Explained, Start, Big, Small, Other;
    StandsIs(db, Reopened, 1);
    var cut := |db.wal.file|;
    Delete(db);
    StandsIs(db, Deleted, 1);
    StartIs(db);
    DeletedChanges();
    last := ReopenDeleted(db, cut, capacity);
  }

  lemma StartIs(db: Database)
    requires db.Valid() && db.pager.base == Second
    ensures Explained(TrailOf(db)) && Start(TrailOf(db)) == PairTable[7 := Other(7)]
  {
    hide Database.Valid, Explained, Indexed, TableOf, ReplayAll, Big, Small, Other;
    TrailNow(db);
    BaseIndexed(db);
    SecondIs(db.past.rooted);
  }

  method ReopenDeleted(db: Database, cut: nat, capacity: nat) returns (last: Database)
    requires Stands(db, Deleted, 1) && cut == db.wal.synced
    ensures fresh(last) && fresh(last.index) && fresh(last.pager) && fresh(last.pager.cache) && fresh(last.wal)
    ensures last.Valid() && last.Map() == PairTable[7 := Small(7)]
  {
    hide Stands, Database.Valid, Database.Map, Database.Loose, Database.Sound, OnFile, FileOf, UniqueIds, Resumed, Big, Small, Other, Lists;
    PairOnFile(Deleted, Pair);
    PairUnique();
    var unique;
    ghost var now, m;
    last, unique, now, m := Restart(db, cut, capacity, Deleted, 1);
    DeletedReturns(now, m, Room(capacity));
    StandsIs(last, now, Room(capacity));
  }
}
