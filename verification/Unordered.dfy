/** A crash inside a batch: the pages evicted so far need not be those the first rows of the
    batch changed, so what comes back can be the state after no part of the batch. */
module Unordered {
  import opened Bytes
  import opened Rows
  import opened Pages
  import opened Layouts
  import opened Index
  import opened Cache
  import opened Replay
  import opened History
  import opened Contract
  import opened Paging
  import opened Engine
  import opened Stolen
  import opened Samples
  import opened Twice

  /** The ids erased, in order, on the database of Twice. */
  const Batch: seq<nat> := [9, 1, 0, 2]

  lemma EraseFirst()
    ensures Emptied(Populated.pool, Loc(0, 1), 2) == Pool([[Big(0)], [Big(1)], [Big(2)]], [0, 2], {0}, HomeDisk)
  {
    hide Used, Big, Small;
    AllUsed();
    assert Without([Big(0), Small(9)], 1) == [Big(0)];
  }

  lemma EraseSecond()
    ensures Emptied(Pool([[Big(0)], [Big(1)], [Big(2)]], [0, 2], {0}, HomeDisk), Loc(1, 0), 2)
         == Pool([[Big(0)], [], [Big(2)]], [1, 0], {0, 1}, HomeDisk)
  {
    hide Used, Big, Small;
    AllUsed();
    assert Without([Big(1)], 0) == [];
  }

  lemma EraseThird()
    ensures Emptied(Pool([[Big(0)], [], [Big(2)]], [1, 0], {0, 1}, HomeDisk), Loc(0, 0), 2)
         == Pool([[], [], [Big(2)]], [0, 1], {0, 1}, HomeDisk)
  {
    hide Used, Big, Small;
    AllUsed();
    assert Without([Big(0)], 0) == [];
  }

  /** The second page goes out, dirty, while the first is still as it was on file. */
  lemma EraseFourth()
    ensures Emptied(Pool([[], [], [Big(2)]], [0, 1], {0, 1}, HomeDisk), Loc(2, 0), 2)
         == Pool([[], [], []], [2, 0], {0, 2}, HomeDisk[1 := []])
  {
    hide Used, Big, Small;
    AllUsed();
    assert Without([Big(2)], 0) == [];
  }

  /** The file afterwards. */
  const Left: Layout := [[Big(0), Small(9)], [], [Big(2)]]

  /** After the four erases of the batch, before its sync. */
  ghost predicate Erasing(sc: Scene) {
    && sc.synced == 0 && sc.base == Home && sc.table == map[] && OnFile(sc) == Left
    && Changes(sc.events) == [Del(9), Del(1), Del(0), Del(2)]
  }

  /** After two of them. */
  const Half: Scene := Scene(Pool([[Big(0)], [], [Big(2)]], [1, 0], {0, 1}, HomeDisk), Home,
                             [Event(Del(9), Some(Loc(0, 1))), Event(Del(1), Some(Loc(1, 0)))], 0, map[0 := Big(0), 2 := Big(2)])

  method EraseHalf(db: Database)
    requires Stands(db, Populated, 2)
    modifies db, db.index, db.pager, db.pager.cache, db.wal
    ensures Stands(db, Half, 2) && db.wal.synced == old(db.wal.synced)
  {
    hide Stands, Emptied, Big, Small, Other, RowSize, Storable;
    Sizes(1);
    Sizes(9);
    ghost var sc := Populated;
    EraseFirst();
    Drop(db, 9, Loc(0, 1), sc, 2);
    sc := Taken(sc, 9, Loc(0, 1), 2);
    EraseSecond();
    Drop(db, 1, Loc(1, 0), sc, 2);
    sc := Taken(sc, 1, Loc(1, 0), 2);
    assert sc == Half;
  }

  method EraseAll(db: Database) returns (ghost sc: Scene)
    requires Stands(db, Populated, 2)
    modifies db, db.index, db.pager, db.pager.cache, db.wal
    ensures Stands(db, sc, 2) && Erasing(sc) && db.wal.synced == old(db.wal.synced)
  {
    hide Stands, Emptied, Big, Small, Other, RowSize, Storable, Erasing, OnFile, UniqueIds;
    Sizes(0);
    Sizes(2);
    EraseHalf(db);
    EraseThird();
    Drop(db, 0, Loc(0, 0), Half, 2);
    sc := Taken(Half, 0, Loc(0, 0), 2);
    EraseFourth();
    Drop(db, 2, Loc(2, 0), sc, 2);
    sc := Taken(sc, 2, Loc(2, 0), 2);
    Erased4(sc);
  }

  lemma Erased4(sc: Scene)
    requires sc.synced == 0 && sc.base == Home && sc.pool.disk == HomeDisk[1 := []] && |sc.events| == 4
    requires sc.table == map[] && forall i :: 0 <= i < 4 ==> sc.events[i].change == Del(Batch[i])
    ensures Erasing(sc)
  {
    hide Big, Small, Changes, OnFile;
    LeftFile(sc);
    ErasedChanges(sc.events);
  }

  lemma LeftFile(sc: Scene)
    requires sc.base == Home && sc.pool.disk == HomeDisk[1 := []]
    ensures OnFile(sc) == Left
  {
    hide Big, Small;
    var file := Slots(3, sc.pool.disk);
    assert file[0] == Left[0] && file[1] == Left[1] && file[2] == Left[2];
  }

  lemma ErasedChanges(es: seq<Event>)
    requires |es| == 4 && forall i :: 0 <= i < 4 ==> es[i].change == Del(Batch[i])
    ensures Changes(es) == [Del(9), Del(1), Del(0), Del(2)]
  {
    assert forall i :: 0 <= i < 4 ==> Changes(es)[i] == Del(Batch[i]);
  }

  /** erase_batch with two cached pages, a crash before its sync, and a reopen with any
      capacity: row 1 is gone and row 9 is not, though it was erased first. The map is that
      after no prefix of the batch. */
  method BatchTorn(capacity: nat) returns (db: Database, again: Database)
    ensures db.Valid() && Changes(db.events) == [Del(9), Del(1), Del(0), Del(2)] && db.pager.base == Home
    ensures again.Valid() && again.Map() == LeftTable
    ensures forall i :: 0 <= i <= |Batch| ==> again.Map() != HomeTable - IdSet(Batch[..i])
  {
    hide Stands, Database.Valid, Database.Map, Erasing, OnFile, UniqueIds, Big, Small, IdSet, FileOf;
    db := Populate();
    StandsIs(db, Populated, 2);
    var cut := |db.wal.file|;
    ghost var sc := EraseAll(db);
    StandsIs(db, sc, 2);
    ErasingIs(sc);
    again := Lose(db, cut, capacity, sc);
    NoPrefix();
  }

  /** The crash before the sync. */
  method Lose(db: Database, cut: nat, capacity: nat, ghost sc: Scene) returns (again: Database)
    requires Stands(db, sc, 2) && Erasing(sc) && cut == db.wal.synced
    ensures fresh(again) && fresh(again.index) && fresh(again.pager) && fresh(again.pager.cache) && fresh(again.wal)
    ensures again.Valid() && again.Map() == LeftTable
  {
    hide Stands, Database.Valid, Database.Map, Database.Loose, Database.Sound, Erasing, Resumed, OnFile, Lists, UniqueIds, Big, Small, FileOf;
    ErasingIs(sc);
    var unique;
    ghost var now, m;
    again, unique, now, m := Restart(db, cut, capacity, sc, 2);
    LeftNow(now, m, sc, Room(capacity));
    StandsIs(again, now, Room(capacity));
  }

  const LeftTable: Table := map[0 := Big(0), 9 := Small(9), 2 := Big(2)]

  lemma ErasingIs(sc: Scene)
    requires Erasing(sc)
    ensures UniqueIds(OnFile(sc)) && sc.base == Home && |sc.base| == 3 && sc.synced == 0 && Changes(sc.events) == [Del(9), Del(1), Del(0), Del(2)]
  {
    hide OnFile, Big, Small, Other, RowSize, Storable;
    Sizes(0);
    Sizes(2);
    Sizes(9);
  }

  lemma LeftNow(now: Scene, m: map<nat, Loc>, sc: Scene, capacity: nat)
    requires Resumed(now, m, sc, capacity) && Erasing(sc)
    ensures now.table == LeftTable
  {
    hide OnFile, Big, Small, LegalHistory, PoolAfter, Indexed, TableOf;
    assert Changes(now.events) == [];
    LeftIs(m);
  }

  lemma LeftIs(m: map<nat, Loc>)
    requires Indexed(Left, m)
    ensures TableOf(Left, m) == LeftTable
  {
    hide Big, Small, Other, RowSize, Storable;
    Sizes(0);
    Sizes(2);
    Sizes(9);
    assert InLayout(Left, Loc(0, 0)) && InLayout(Left, Loc(0, 1)) && InLayout(Left, Loc(2, 0));
    assert m[0] == Loc(0, 0) && m[9] == Loc(0, 1) && m[2] == Loc(2, 0);
    assert forall id :: id in m ==> RowIn(Left, m[id]).id == id;
  }

  lemma NoPrefix()
    ensures forall i :: 0 <= i <= |Batch| ==> LeftTable != HomeTable - IdSet(Batch[..i])
  {
    hide Big, Small;
    forall i | 0 <= i <= |Batch| ensures LeftTable != HomeTable - IdSet(Batch[..i]) {
      if i == 0 {
        assert 1 in HomeTable - IdSet(Batch[..i]);
      } else {
        assert Batch[..i][0] == 9;
        assert 9 !in HomeTable - IdSet(Batch[..i]) && 9 in LeftTable;
      }
    }
  }
}
