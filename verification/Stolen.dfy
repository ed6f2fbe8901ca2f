/** Reopening a file to which dirty pages were evicted since the last checkpoint: a
    patchwork of pages from different moments. */
module Stolen {
  import opened Bytes
  import opened Rows
  import opened Storage
  import opened Layouts
  import opened Index
  import opened Replay
  import opened History
  import opened Contract
  import opened Secondary
  import opened Paging
  import opened Engine
  import opened Recovery
  import W = Wal

  /** Page `p` held these rows at some moment of the history. */
  ghost predicate VersionOf(rows: seq<Row>, base: Layout, es: seq<Event>, p: nat) {
    exists k :: 0 <= k <= |es| && p < |LayoutAfter(base, es, k)| && LayoutAfter(base, es, k)[p] == rows
  }

  /** Every page of the checkpoint, each as of its own moment. */
  ghost predicate Patchwork(disk: Layout, base: Layout, es: seq<Event>) {
    |disk| == |base| && forall p :: 0 <= p < |disk| ==> VersionOf(disk[p], base, es, p)
  }

  ghost predicate OnPage(layout: Layout, p: nat, id: nat) {
    exists slot :: InLayout(layout, Loc(p, slot)) && RowIn(layout, Loc(p, slot)).id == id
  }

  lemma EventKeeps(layout: Layout, e: Event, schema: Schema, p: nat, id: nat)
    requires LegalEvent(layout, e, schema) && e.change != Del(id) && OnPage(layout, p, id)
    ensures OnPage(Effect(layout, e), p, id)
  {
    hide HasRoom, Storable, History.Absent;
    var slot :| InLayout(layout, Loc(p, slot)) && RowIn(layout, Loc(p, slot)).id == id;
    var at := Loc(p, slot);
    if e.at.Some? {
      match e.change
      case Put(row) =>
        assert InLayout(Effect(layout, e), at) && RowIn(Effect(layout, e), at).id == id;
      case Del(_) =>
        ErasedRows(layout, e.at.value, at);
        var moved := Shifted(at, e.at.value);
        assert moved == Loc(p, moved.slot);
    }
  }

  /** A row that is not deleted never leaves its page. */
  lemma {:induction false} StaysOnPage(base: Layout, es: seq<Event>, schema: Schema, n: nat, p: nat, id: nat)
    requires LegalHistory(base, es, schema) && n <= |es| && !Deletes(Changes(es), id) && OnPage(base, p, id)
    ensures OnPage(LayoutAfter(base, es, n), p, id)
  {
    hide LegalHistory, LegalEvent, Effect, OnPage, Deletes;
    if n > 0 {
      StaysOnPage(base, es, schema, n - 1, p, id);
      EventLegalAt(base, es, schema, n - 1);
      NotDeleted(Changes(es), id, n - 1);
      EventKeeps(LayoutAfter(base, es, n - 1), es[n - 1], schema, p, id);
    }
  }

  /** A row found in the patchwork was in the map at its page's moment. */
  lemma FoundThen(base: Layout, m: map<nat, Loc>, es: seq<Event>, schema: Schema, disk: Layout, at: Loc) returns (k: nat)
    requires Indexed(base, m) && LegalHistory(base, es, schema) && Patchwork(disk, base, es) && InLayout(disk, at)
    ensures k <= |es|
    ensures Lookup(ReplayAll(TableOf(base, m), Changes(es)[..k]), RowIn(disk, at).id) == Some(RowIn(disk, at))
  {
    hide LegalHistory, LayoutAfter, ReplayAll;
    assert VersionOf(disk[at.page], base, es, at.page);
    k :| 0 <= k <= |es| && at.page < |LayoutAfter(base, es, k)| && LayoutAfter(base, es, k)[at.page] == disk[at.page];
    var n := HistoryOnTable(base, m, es, schema, k);
    assert InLayout(LayoutAfter(base, es, k), at);
  }

  /** A row of the start that is never deleted is in every patchwork. */
  lemma StillFound(base: Layout, m: map<nat, Loc>, es: seq<Event>, schema: Schema, disk: Layout, id: nat)
    requires Indexed(base, m) && LegalHistory(base, es, schema) && Patchwork(disk, base, es)
    requires id in m && !Deletes(Changes(es), id)
    ensures OnPage(disk, m[id].page, id)
  {
    hide LegalHistory, LayoutAfter, Deletes;
    var p := m[id].page;
    assert m[id] == Loc(p, m[id].slot) && InLayout(base, Loc(p, m[id].slot));
    assert OnPage(base, p, id);
    assert VersionOf(disk[p], base, es, p);
    var k :| 0 <= k <= |es| && p < |LayoutAfter(base, es, k)| && LayoutAfter(base, es, k)[p] == disk[p];
    StaysOnPage(base, es, schema, k, p, id);
    var slot :| InLayout(LayoutAfter(base, es, k), Loc(p, slot)) && RowIn(LayoutAfter(base, es, k), Loc(p, slot)).id == id;
    assert InLayout(disk, Loc(p, slot));
  }

  /** An id somewhere on file has an entry in the recovered index. */
  lemma OnPageEntered(disk: Layout, n: map<nat, Loc>, p: nat, id: nat)
    requires FirstPlaces(disk, n) && OnPage(disk, p, id)
    ensures id in n
  {
    var slot :| InLayout(disk, Loc(p, slot)) && RowIn(disk, Loc(p, slot)).id == id;
    assert Earlier(Loc(p, slot), |disk|, 0);
  }

  /** What the recovered index leads to is a mixture of the states of the history, whether
      or not an id is on file twice. */
  lemma PatchworkIsMixed(base: Layout, m: map<nat, Loc>, es: seq<Event>, schema: Schema, disk: Layout, n: map<nat, Loc>)
    requires Indexed(base, m) && LegalHistory(base, es, schema) && Patchwork(disk, base, es)
    requires FirstPlaces(disk, n) && Points(disk, n)
    ensures Mixed(Entries(disk, n), TableOf(base, m), Changes(es))
  {
    hide Indexed, LegalHistory, LayoutAfter, Deletes, Patchwork, BuiltUpTo, Points, ReplayAll, OnPage;
    var t, start, cs := Entries(disk, n), TableOf(base, m), Changes(es);
    forall id | id in t ensures exists i :: Agrees(t, start, cs, id, i) {
      PointsAll(disk, n);
      var k := FoundThen(base, m, es, schema, disk, n[id]);
      assert Agrees(t, start, cs, id, k);
    }
    forall id | id in start && id !in t ensures Deletes(cs, id) {
      if !Deletes(cs, id) {
        StillFound(base, m, es, schema, disk, id);
        OnPageEntered(disk, n, m[id].page, id);
      }
    }
  }

  /** Replaying the whole log on any patchwork gives the last map. */
  lemma PatchworkRecovers(base: Layout, m: map<nat, Loc>, es: seq<Event>, schema: Schema, disk: Layout, n: map<nat, Loc>)
    requires Indexed(base, m) && LegalHistory(base, es, schema) && Patchwork(disk, base, es)
    requires FirstPlaces(disk, n) && Points(disk, n)
    ensures ReplayAll(Entries(disk, n), Changes(es)) == ReplayAll(TableOf(base, m), Changes(es))
  {
    hide Indexed, LegalHistory, Patchwork, Mixed, TableOf, Entries, Points, BuiltUpTo;
    PatchworkIsMixed(base, m, es, schema, disk, n);
    ReplayConverges(Entries(disk, n), TableOf(base, m), Changes(es));
  }

  /** The checkpointed pages as the file holds them now. */
  ghost function FileLayout(pager: Pager): Layout
    reads pager, pager.cache
    requires pager.Valid()
  {
    Slots(|pager.base|, pager.disk)
  }

  /** The first `n` slots of the file. */
  ghost function Slots(n: nat, disk: map<nat, seq<Row>>): Layout
    requires forall p :: 0 <= p < n ==> p in disk
  {
    seq(n, p requires 0 <= p < n => disk[p])
  }

  lemma SlotsPatchwork(base: Layout, seen: seq<Layout>, layout: Layout, disk: map<nat, seq<Row>>, es: seq<Event>)
    requires Traced(base, seen, layout, disk) && Remembers(seen, base, es)
    ensures Patchwork(Slots(|base|, disk), base, es)
  {
    hide LayoutAfter;
    forall p | 0 <= p < |base| ensures VersionOf(disk[p], base, es, p) {
      assert SeenAs(seen, p, disk[p]);
      var k :| 0 <= k < |seen| && p < |seen[k]| && seen[k][p] == disk[p];
      assert Moment(seen[k], base, es);
    }
  }

  lemma SlotsHeld(file: seq<byte>, offsets: map<nat, nat>, disk: map<nat, seq<Row>>, schema: Schema, n: nat)
    requires Stored(file, offsets, disk, schema) && n < 0x1_0000_0000 && forall p :: 0 <= p < n ==> p in disk
    ensures FileHolds(file, Slots(n, disk), schema)
  {
    hide OnDisk, PageFits;
  }

  ghost function FileOf(db: Database): Layout
    reads db, db.index, db.pager, db.pager.cache, db.wal, db.trees.Values
    requires db.Valid()
  {
    FileLayout(db.pager)
  }

  lemma FileIsPatchwork(db: Database)
    requires db.Valid()
    ensures var disk := FileLayout(db.pager);
            && Patchwork(disk, db.pager.base, db.events) && db.pager.pageCount == |disk|
            && FileHolds(db.pager.file, disk, db.schema)
  {
    hide Manager.Valid, W.Log.Valid, Indexed, TreesOk, TableOf, Cached, Stored, PagesFit, FileHolds, Patchwork, Slots, Logged, Remembers, LayoutAfter, Restores, Exact, LiveFrom;
    var pager := db.pager;
    SlotsPatchwork(pager.base, pager.seen, pager.layout, pager.disk, db.events);
    SlotsHeld(pager.file, pager.pageOffsets, pager.disk, pager.schema, |pager.base|);
    SlotCount(|pager.base|, pager.disk);
  }

  lemma SlotCount(n: nat, disk: map<nat, seq<Row>>)
    requires forall p :: 0 <= p < n ==> p in disk
    ensures |Slots(n, disk)| == n
  {}

  /** A full scan of these pages lists the map, each row once. */
  ghost predicate Lists(layout: Layout, t: Table) {
    multiset(Flat(layout, |layout|)) == multiset(t.Values)
  }

  /** An engine whose index has the ids of a map is sound exactly when a full scan lists
      a map with those ids, and then that is the engine's own. */
  lemma SoundScan(db: Database, t: Table)
    requires db.Loose() && Keyed(t) && db.index.contents.Keys == t.Keys && (db.Sound() ==> db.Table() == t)
    ensures db.Sound() <==> Lists(db.pager.layout, t)
  {
    hide Manager.Valid, Pager.Valid, W.Log.Valid, Points, Indexed, TableOf, Keyed, Flat;
    if Lists(db.pager.layout, t) {
      ListedIsSound(db.pager.layout, db.index.contents, t);
    }
    if db.Sound() {
      SoundIsListed(db.pager.layout, db.index.contents);
    }
  }

  /** Each id is as it was at some moment at or after the last surviving record. */
  ghost predicate NoneOlder(now: Table, start: Table, cs: seq<Change>, n: nat) {
    forall id :: Dated(now, start, cs, n, id)
  }

  /** What a database leaves behind in a crash: where its log and its pages come from. */
  datatype Trail = Trail(schema: Schema, past: Past, records: seq<W.Record>, events: seq<Event>, base: Layout, layout: Layout, seen: seq<Layout>)

  ghost predicate Explained(tr: Trail) {
    Explains(tr.past, tr.records, tr.events, tr.base, tr.layout, tr.seen, tr.schema)
  }

  ghost function TrailOf(db: Database): Trail
    reads db, db.pager, db.wal
  {
    Trail(db.schema, db.past, db.wal.records, db.events, db.pager.base, db.pager.layout, db.pager.seen)
  }

  /** The map the file stood for when it was last read or checkpointed. */
  ghost function Start(tr: Trail): Table
    requires Explained(tr)
  {
    TableOf(tr.base, tr.past.rooted)
  }

  /** The map at the crash. */
  ghost function Last(tr: Trail): Table
    requires Explained(tr)
  {
    ReplayAll(Start(tr), Changes(tr.events))
  }

  lemma TrailNow(db: Database)
    requires db.Valid()
    ensures Explained(TrailOf(db)) && Last(TrailOf(db)) == db.Map() && Keyed(db.Map())
  {
    hide Explains, ReplayAll, Indexed, TableOf, Manager.Valid, Pager.Valid, W.Log.Valid, TreesOk, Keyed;
    TableNow(db);
    CoreIndexed(db);
    TableKeyed(db.pager.layout, db.index.contents);
  }

  lemma TrailParts(tr: Trail)
    requires Explained(tr)
    ensures Indexed(tr.base, tr.past.rooted) && LegalHistory(tr.base, tr.events, tr.schema) && LiveFrom(tr.events, |tr.past.found|)
    ensures Logged(tr.past.found + tr.records, tr.events, tr.base, tr.schema)
    ensures |tr.past.found| + |tr.records| == |tr.events|
    ensures tr.past.steady <==> Restores(Start(tr), Changes(tr.events)[..|tr.past.found|])
  {
    hide Indexed, LegalHistory, LayoutAfter, Remembers, Restores, Exact, TableOf, LiveFrom, Carries;
  }

  /** Each row on file was in the map at some moment, and only deleted ids are missing. */
  ghost predicate Blend(disk: Layout, tr: Trail)
    requires Explained(tr)
  {
    forall m :: FirstPlaces(disk, m) && Points(disk, m) ==> Mixed(Entries(disk, m), Start(tr), Changes(tr.events))
  }

  lemma PatchworkBlends(disk: Layout, tr: Trail)
    requires Explained(tr) && Patchwork(disk, tr.base, tr.events)
    ensures Blend(disk, tr)
  {
    hide Explained, Indexed, LegalHistory, Patchwork, TableOf, Entries, Points, BuiltUpTo, Mixed, Logged, LiveFrom, Restores;
    TrailParts(tr);
    forall m | FirstPlaces(disk, m) && Points(disk, m) ensures Mixed(Entries(disk, m), Start(tr), Changes(tr.events)) {
      PatchworkIsMixed(tr.base, tr.past.rooted, tr.events, tr.schema, disk, m);
    }
  }

  /** What a reopen gives back, from a file that holds each counted page as of some moment
      and a log of which the first `n` records survived. The engine is sound exactly when
      the file holds no id twice. If no record was lost a full scan then lists the map from
      before the crash, and does not otherwise; if some were, and the log restores what the
      file held, every id is as it was at some moment at or after the last surviving
      record. A sound engine can go on. */
  ghost predicate Recovered(tr: Trail, disk: Layout, n: nat, walBytes: seq<byte>, s: Status, again: Database, unique: bool)
    requires Explained(tr) && n <= |tr.events|
    reads again, again.index, again.pager, again.pager.cache, again.wal, again.trees.Values
  {
    && (s == Ok || s == Fault)
    && (s == Fault ==> again.Faultable())
    && (unique <==> UniqueIds(disk))
    && (s == Ok ==> again.Loose() && again.schema == tr.schema && (again.Sound() <==> unique))
    && (s == Ok && n == |tr.events| ==> (Lists(again.pager.layout, Last(tr)) <==> unique))
    && (s == Ok && unique ==> again.Valid() && again.past.found == W.ReplayFile(walBytes) && again.wal.base == LogFound(walBytes) && again.Durable())
    && (s == Ok && unique && n == |tr.events| ==> again.Map() == Last(tr) && (tr.past.steady ==> again.past.steady))
    && (s == Ok && unique && tr.past.steady ==> NoneOlder(again.Map(), Start(tr), Changes(tr.events), n))
  }

  /** The reopen, from any such file and log. */
  method ReopenFrom(ghost tr: Trail, ghost durable: nat, ghost cut: nat, schema: Schema, compression: Compression, capacity: nat, file: seq<byte>, walBytes: seq<byte>, pageCount: nat,
                    ghost disk: Layout, ghost n: nat)
    returns (s: Status, again: Database, unique: bool, ghost m: map<nat, Loc>)
    requires Explained(tr) && tr.schema == schema && Replays(tr, walBytes, n)
    requires Blend(disk, tr) && FileHolds(file, disk, schema) && pageCount == |disk|
    ensures fresh(again) && fresh(again.index) && fresh(again.pager) && fresh(again.pager.cache) && fresh(again.wal) && again.trees == map[]
    ensures again.pager.compression == compression && again.pager.cache.capacity == (if capacity == 0 then 1 else capacity)
    ensures |again.pager.layout| <= |disk| + n
    ensures Recovered(tr, disk, n, walBytes, s, again, unique)
    ensures s == Ok && unique ==> Opened(again, disk, m, Changes(tr.events)[..n], walBytes)
    ensures s == Ok && unique ==> again.Map() == ReplayAll(TableOf(disk, m), Changes(tr.events)[..n])
    ensures s == Ok && unique && Cut(tr, durable, cut, walBytes, n) ==> (CleanLog(again) <==> cut == LogLength(tr.past.found + tr.records, n))
  {
    hide Cut, Recovered, Database.Valid, Database.Map, CleanBytes, LogLength, Explained, Database.Loose, Indexed, Points, UniqueIds, FileHolds, AllCarry, Logged, LegalHistory, W.ReplayFile, ReplayAll, TableOf, Entries, Blend, BuiltUpTo, Opened, Restores, SomeOverruns, LiveFrom;
    TrailParts(tr);
    LoggedPrefix(tr, n);
    s, again, unique, m := OpenWhole(schema, compression, capacity, file, walBytes, pageCount, disk, Changes(tr.events)[..n]);
    if s == Ok {
      RecoveredOk(tr, durable, cut, again, disk, m, n, walBytes, unique);
    } else {
      RecoveredNot(tr, again, disk, n, walBytes, unique);
    }
  }

  lemma RecoveredNot(tr: Trail, again: Database, disk: Layout, n: nat, walBytes: seq<byte>, unique: bool)
    requires Explained(tr) && n <= |tr.events| && again.Faultable() && (unique <==> UniqueIds(disk))
    ensures Recovered(tr, disk, n, walBytes, Fault, again, unique)
  {
    hide Explained, UniqueIds, SomeOverruns;
  }

  lemma RecoveredOk(tr: Trail, durable: nat, cut: nat, again: Database, disk: Layout, m: map<nat, Loc>, n: nat, walBytes: seq<byte>, unique: bool)
    requires Explained(tr) && |tr.past.found| <= n <= |tr.events| && Blend(disk, tr) && FirstPlaces(disk, m) && Points(disk, m)
    requires again.Loose() && again.schema == tr.schema && (unique <==> UniqueIds(disk)) && (again.Sound() <==> unique) && (unique ==> Indexed(disk, m))
    requires again.index.contents.Keys == ReplayAll(Entries(disk, m), Changes(tr.events)[..n]).Keys
    requires unique ==> again.Table() == ReplayAll(Entries(disk, m), Changes(tr.events)[..n])
    requires unique ==> Opened(again, disk, m, Changes(tr.events)[..n], walBytes)
    ensures Recovered(tr, disk, n, walBytes, Ok, again, unique)
    ensures unique ==> again.Map() == ReplayAll(TableOf(disk, m), Changes(tr.events)[..n])
    ensures unique && Cut(tr, durable, cut, walBytes, n) ==> (CleanLog(again) <==> cut == LogLength(tr.past.found + tr.records, n))
  {
    hide Cut, CleanBytes, LogLength, Explained, Database.Valid, Database.Loose, Indexed, Points, UniqueIds, W.ReplayFile, ReplayAll, TableOf, Entries, Blend, BuiltUpTo, Opened, Lists, NoneOlder, Restores, SomeOverruns;
    ReopenedMap(tr, again, disk, m, n);
    if unique {
      EntriesAreTable(disk, m);
      ReopenedState(tr, again, disk, m, n, walBytes);
      if Cut(tr, durable, cut, walBytes, n) {
        CleanAgain(tr, durable, cut, walBytes, n, again);
      }
    }
  }

  /** Replay finds the first `n` records, at least those found at the last open. */
  ghost predicate Replays(tr: Trail, walBytes: seq<byte>, n: nat) {
    |tr.past.found| <= n <= |tr.events| && W.ReplayFile(walBytes) == (if n <= |tr.past.found + tr.records| then (tr.past.found + tr.records)[..n] else [])
  }

  /** What a cut leaves of the log: `n` records, the durable ones among them. */
  ghost predicate Cut(tr: Trail, durable: nat, cut: nat, walBytes: seq<byte>, n: nat) {
    var all := tr.past.found + tr.records;
    && Survives(tr, durable, cut, n) && walBytes != [] && W.ReplayFile(walBytes) == all[..n] && W.AllFramed(all[..n])
    && (walBytes == W.Header() + W.EncodeLog(all[..n]) <==> cut == LogLength(all, n))
  }

  lemma CutNow(db: Database, cut: nat) returns (n: nat)
    requires db.Valid() && CleanLog(db) && db.wal.synced <= cut <= |db.wal.file|
    ensures Cut(TrailOf(db), db.wal.durable, cut, db.wal.file[..cut], n) && Replays(TrailOf(db), db.wal.file[..cut], n)
  {
    hide Database.Valid, W.ReplayFile, W.EncodeLog, W.Header, W.AllFramed, LogLength, Logged, CleanBytes;
    n := SurvivingRecords(db, cut);
  }

  lemma LoggedPrefix(tr: Trail, n: nat)
    requires Logged(tr.past.found + tr.records, tr.events, tr.base, tr.schema) && n <= |tr.events|
    ensures |(tr.past.found + tr.records)| == |tr.events|
    ensures AllCarry((tr.past.found + tr.records)[..n], Changes(tr.events)[..n], tr.schema)
  {
    hide LegalHistory, Carries;
    ChangesPrefix(tr.events, n);
  }

  /** What the reopened index and, if sound, the reopened map hold. */
  lemma ReopenedMap(tr: Trail, again: Database, disk: Layout, m: map<nat, Loc>, n: nat)
    requires Explained(tr) && again.Loose() && n <= |tr.events| && Blend(disk, tr)
    requires FirstPlaces(disk, m) && Points(disk, m)
    requires again.index.contents.Keys == ReplayAll(Entries(disk, m), Changes(tr.events)[..n]).Keys
    requires again.Sound() ==> again.Table() == ReplayAll(Entries(disk, m), Changes(tr.events)[..n])
    ensures n == |tr.events| ==> (Lists(again.pager.layout, Last(tr)) <==> again.Sound())
    ensures n == |tr.events| && again.Sound() ==> again.Table() == Last(tr)
    ensures again.Sound() && tr.past.steady && |tr.past.found| <= n ==> NoneOlder(again.Table(), Start(tr), Changes(tr.events), n)
  {
    hide Explained, Database.Loose, Indexed, Points, Logged, LegalHistory, ReplayAll, TableOf, Entries, BuiltUpTo, Lists, NoneOlder, Restores, LiveFrom, Keyed, Mixed;
    TrailParts(tr);
    if n == |tr.events| {
      assert Changes(tr.events)[..n] == Changes(tr.events);
      ReplayConverges(Entries(disk, m), Start(tr), Changes(tr.events));
      LastKeyed(tr);
      SoundScan(again, Last(tr));
    }
    if tr.past.steady && |tr.past.found| <= n {
      BlendCut(tr, disk, m, n);
    }
  }

  lemma BlendCut(tr: Trail, disk: Layout, m: map<nat, Loc>, n: nat)
    requires Explained(tr) && Blend(disk, tr) && FirstPlaces(disk, m) && Points(disk, m)
    requires |tr.past.found| <= n <= |tr.events| && tr.past.steady
    ensures NoneOlder(ReplayAll(Entries(disk, m), Changes(tr.events)[..n]), Start(tr), Changes(tr.events), n)
  {
    hide Explained, Indexed, LegalHistory, Logged, Mixed, TableOf, Entries, Points, BuiltUpTo, Restores, LiveFrom, ReplayAll, Dated;
    TrailParts(tr);
    RestoresSince(tr.base, tr.past.rooted, tr.events, tr.schema, |tr.past.found|, n);
    forall id ensures Dated(ReplayAll(Entries(disk, m), Changes(tr.events)[..n]), Start(tr), Changes(tr.events), n, id) {
      CutConverges(Entries(disk, m), Start(tr), Changes(tr.events), n, id);
    }
  }

  lemma LastKeyed(tr: Trail)
    requires Explained(tr)
    ensures Keyed(Last(tr))
  {
    hide Explained, Indexed, LegalHistory, ReplayAll, TableOf, Keyed, Logged, LiveFrom, Restores;
    TrailParts(tr);
    var m := HistoryOnTable(tr.base, tr.past.rooted, tr.events, tr.schema, |tr.events|);
    assert Changes(tr.events)[..|tr.events|] == Changes(tr.events);
    TableKeyed(LayoutAfter(tr.base, tr.events, |tr.events|), m);
  }

  /** A sound reopened engine: its log, and whether that still restores what the file holds. */
  lemma ReopenedState(tr: Trail, again: Database, disk: Layout, m: map<nat, Loc>, n: nat, walBytes: seq<byte>)
    requires Explained(tr) && |tr.past.found| <= n <= |tr.events| && Blend(disk, tr)
    requires FirstPlaces(disk, m) && Indexed(disk, m) && Opened(again, disk, m, Changes(tr.events)[..n], walBytes)
    ensures again.Valid() && again.past.found == W.ReplayFile(walBytes) && again.wal.base == LogFound(walBytes) && again.Durable()
    ensures n == |tr.events| && tr.past.steady ==> again.past.steady
  {
    hide Explained, Explains, Database.Core, Indexed, Logged, LegalHistory, ReplayAll, TableOf, BuiltUpTo, LiveFrom, Mixed, Exact, Restores, W.ReplayFile, W.Header, PoolAfter, Pager.Pooled;
    if n == |tr.events| && tr.past.steady {
      TrailParts(tr);
      EntriesAreTable(disk, m);
      RestoresSince(tr.base, tr.past.rooted, tr.events, tr.schema, |tr.past.found|, n);
      assert Changes(tr.events)[..n] == Changes(tr.events);
      RestoresReplayed(TableOf(disk, m), Start(tr), Changes(tr.events));
    }
  }

  /** A crash after any evictions that cuts the log at any byte at or past the last sync,
      and a reopen with any cache capacity. Page writes that were not forced to disk may be
      lost: the file may hold each counted page as of any moment since it was last read or
      checkpointed. */
  method ReopenEarlier(db: Database, file: seq<byte>, ghost disk: Layout, cut: nat, capacity: nat)
    returns (s: Status, again: Database, unique: bool, ghost n: nat, ghost m: map<nat, Loc>)
    requires db.Valid() && CleanLog(db) && db.wal.synced <= cut <= |db.wal.file|
    requires Patchwork(disk, db.pager.base, db.events) && FileHolds(file, disk, db.schema)
    ensures fresh(again) && fresh(again.index) && fresh(again.pager) && fresh(again.pager.cache) && fresh(again.wal) && again.trees == map[]
    ensures again.pager.compression == db.pager.compression && again.pager.cache.capacity == (if capacity == 0 then 1 else capacity)
    ensures |again.pager.layout| <= |disk| + n
    ensures Survives(old(TrailOf(db)), old(db.wal.durable), cut, n) && (old(db.Durable()) ==> n == old(|db.events|))
    ensures old(Explained(TrailOf(db))) && Recovered(old(TrailOf(db)), disk, n, old(db.wal.file)[..cut], s, again, unique)
    ensures s == Ok && unique ==> Opened(again, disk, m, Changes(old(db.events))[..n], old(db.wal.file)[..cut])
    ensures s == Ok && unique ==> again.Map() == ReplayAll(TableOf(disk, m), Changes(old(db.events))[..n])
    ensures s == Ok && unique ==> (CleanLog(again) <==> cut == LogLength(old(AllRecords(db)), n))
  {
    hide Database.Valid, Explained, Indexed, UniqueIds, FileHolds, W.ReplayFile, W.EncodeLog, W.Header, W.AllFramed, ReplayAll, TableOf, Patchwork, Blend, Opened, Recovered, LogLength, Logged, CleanBytes;
    n := CutNow(db, cut);
    TrailNow(db);
    BaseCounted(db);
    PatchworkSize(disk, db.pager.base, db.events);
    PatchworkBlends(disk, TrailOf(db));
    s, again, unique, m := ReopenFrom(TrailOf(db), db.wal.durable, cut, db.schema, db.pager.compression, capacity, file, db.wal.file[..cut], db.pager.pageCount, disk, n);
  }

  /** After a torn tail: open appends behind it, and as long as the log stays shorter than the
      torn record claims to be, replay stops there. Everything logged since, synced or not,
      is lost; what is left is the file and the records found before. */
  method ReopenTorn(db: Database, ghost torn: W.Record, cut: nat, capacity: nat)
    returns (s: Status, again: Database, unique: bool, ghost n: nat, ghost m: map<nat, Loc>)
    requires db.Valid() && TornBehind(db.past.found, db.wal.base, torn, |db.wal.file| + |db.wal.writeBuf|)
    requires |db.wal.base| <= cut <= |db.wal.file|
    ensures fresh(again) && fresh(again.index) && fresh(again.pager) && fresh(again.pager.cache) && fresh(again.wal) && again.trees == map[]
    ensures again.pager.compression == db.pager.compression && again.pager.cache.capacity == (if capacity == 0 then 1 else capacity)
    ensures |again.pager.layout| <= |old(FileOf(db))| + n
    ensures n == |old(db.past.found)| && Replays(old(TrailOf(db)), old(db.wal.file)[..cut], n)
    ensures old(Explained(TrailOf(db))) && Recovered(old(TrailOf(db)), old(FileOf(db)), n, old(db.wal.file)[..cut], s, again, unique)
    ensures s == Ok && unique ==> Opened(again, old(FileOf(db)), m, Changes(old(db.events))[..n], old(db.wal.file)[..cut])
    ensures s == Ok && unique ==> again.Map() == ReplayAll(TableOf(old(FileOf(db)), m), Changes(old(db.events))[..n])
  {
    hide Database.Valid, Explained, Indexed, UniqueIds, FileHolds, W.ReplayFile, TornBehind, Replays, ReplayAll, TableOf, Patchwork, Blend, Opened, Recovered, LogLength, Logged, CleanBytes, Cut, FileLayout;
    n := |db.past.found|;
    TornReplays(db, torn, cut);
    TrailNow(db);
    FileIsPatchwork(db);
    PatchworkBlends(FileOf(db), TrailOf(db));
    s, again, unique, m := ReopenFrom(TrailOf(db), 0, 0, db.schema, db.pager.compression, capacity, db.pager.file, db.wal.file[..cut], db.pager.pageCount,
                                      FileOf(db), n);
  }

  /** The log found ends in part of the record `torn`, and `size` bytes do not complete it. */
  ghost predicate TornBehind(found: seq<W.Record>, base: seq<byte>, torn: W.Record, size: nat) {
    && W.AllFramed(found) && W.Framed(torn)
    && var front := W.Header() + W.EncodeLog(found);
    && front <= base && size < |front| + |W.Encode(torn)|
    && 8 <= |base| - |front| <= |W.Encode(torn)| && base[|front|..] == W.Encode(torn)[..|base| - |front|]
  }

  lemma TornReplays(db: Database, torn: W.Record, cut: nat)
    requires db.Valid() && TornBehind(db.past.found, db.wal.base, torn, |db.wal.file| + |db.wal.writeBuf|)
    requires |db.wal.base| <= cut <= |db.wal.file|
    ensures Replays(TrailOf(db), db.wal.file[..cut], |db.past.found|)
  {
    hide Database.Valid, Database.Map, W.Log.Valid, Manager.Valid, Pager.Valid, TreesOk, Explained, Explains, ReplayAll, TableOf, W.ReplayFile, W.EncodeLog, W.AllFramed, TornBehind, Logged, Indexed, LegalHistory, LiveFrom, Restores;
    TrailNow(db);
    TrailParts(TrailOf(db));
    db.ValidParts();
    LogParts(db.wal);
    TornBytes(db.past.found, db.wal.base, torn, db.wal.file, db.wal.writeBuf, W.EncodeLog(db.wal.records), cut);
    assert (db.past.found + db.wal.records)[..|db.past.found|] == db.past.found;
  }

  lemma TornBytes(found: seq<W.Record>, base: seq<byte>, torn: W.Record, file: seq<byte>, buf: seq<byte>, log: seq<byte>, cut: nat)
    requires file + buf == base + log && |base| <= cut <= |file| && TornBehind(found, base, torn, |file| + |buf|)
    ensures W.ReplayFile(file[..cut]) == found
  {
    hide W.ReplayFile, W.EncodeLog, W.Encode, W.Header, W.AllFramed, W.Framed;
    var front, more := W.Header() + W.EncodeLog(found), log[..cut - |base|];
    var kept := |base| - |front|;
    assert file[..cut] == (file + buf)[..cut] == base + more;
    assert base + more == front + (W.Encode(torn)[..kept] + more);
    W.TornTailHides(found, torn, kept, more);
  }

  /** The first `n` records of the log lie within the cut, the durable ones among them. */
  ghost predicate Survives(tr: Trail, durable: nat, cut: nat, n: nat) {
    var all := tr.past.found + tr.records;
    && |tr.past.found| + durable <= n <= |tr.events| == |all|
    && LogLength(all, n) <= cut && (n < |all| ==> cut < LogLength(all, n + 1))
  }

  lemma BaseCounted(db: Database)
    requires db.Valid()
    ensures db.pager.pageCount == |db.pager.base| < 0x1_0000_0000 && db.pager.nextPageId == |db.pager.layout|
    ensures |db.pager.base| <= |db.pager.layout|
  {
    hide Manager.Valid, W.Log.Valid, Indexed, TreesOk, TableOf, Cached, Stored, PagesFit, Explains, SomeOverruns, SeenAs;
  }

  lemma PatchworkSize(disk: Layout, base: Layout, es: seq<Event>)
    requires Patchwork(disk, base, es)
    ensures |disk| == |base|
  {}

  lemma CleanAgain(tr: Trail, durable: nat, cut: nat, walBytes: seq<byte>, n: nat, again: Database)
    requires Cut(tr, durable, cut, walBytes, n) && again.past.found == W.ReplayFile(walBytes) && again.wal.base == LogFound(walBytes)
    ensures CleanLog(again) <==> cut == LogLength(tr.past.found + tr.records, n)
  {
    hide W.ReplayFile, W.Header, W.EncodeLog, W.AllFramed, LogLength;
  }

  /** The same with every page write kept. */
  method Reopen(db: Database, cut: nat, capacity: nat)
    returns (s: Status, again: Database, unique: bool, ghost n: nat, ghost m: map<nat, Loc>)
    requires db.Valid() && CleanLog(db) && db.wal.synced <= cut <= |db.wal.file|
    ensures fresh(again) && fresh(again.index) && fresh(again.pager) && fresh(again.pager.cache) && fresh(again.wal) && again.trees == map[]
    ensures again.pager.compression == db.pager.compression && again.pager.cache.capacity == (if capacity == 0 then 1 else capacity)
    ensures |again.pager.layout| <= |old(FileOf(db))| + n
    ensures Survives(old(TrailOf(db)), old(db.wal.durable), cut, n) && (old(db.Durable()) ==> n == old(|db.events|))
    ensures old(Explained(TrailOf(db))) && Recovered(old(TrailOf(db)), old(FileOf(db)), n, old(db.wal.file)[..cut], s, again, unique)
    ensures s == Ok && unique ==> Opened(again, old(FileOf(db)), m, Changes(old(db.events))[..n], old(db.wal.file)[..cut])
    ensures s == Ok && unique ==> again.Map() == ReplayAll(TableOf(old(FileOf(db)), m), Changes(old(db.events))[..n])
    ensures s == Ok && unique ==> (CleanLog(again) <==> cut == LogLength(old(AllRecords(db)), n))
  {
    hide Database.Valid, Explained, Indexed, FileHolds, ReplayAll, TableOf, Patchwork, Opened, Recovered, LogLength, CleanBytes, Survives, FileLayout;
    FileIsPatchwork(db);
    s, again, unique, n, m := ReopenEarlier(db, db.pager.file, FileOf(db), cut, capacity);
  }

  /** When a crash strikes: outside a checkpoint, or after some steps of one, before the log
      is cleared. */
  datatype CrashPoint = Between | Checkpointing(steps: nat)

  /** The file a crash leaves. */
  ghost predicate Leaves(pager: Pager, disk: Layout)
    reads pager
  {
    FileHolds(pager.file, disk, pager.schema) && pager.pageCount == |disk|
  }

  /** What has been written when the crash strikes. With room for every page in the cache,
      no id is on file twice, wherever that is. */
  method WriteOut(db: Database, at: CrashPoint) returns (ok: bool, ghost disk: Layout)
    requires db.Valid()
    modifies db`past, db`events, db.wal, db.pager, db.pager.cache
    ensures unchanged(db) && unchanged(db.wal) && db.pager.layout == old(db.pager.layout)
    ensures !ok ==> db.Faultable()
    ensures ok ==> Leaves(db.pager, disk) && old(Explained(TrailOf(db))) && Blend(disk, old(TrailOf(db)))
    ensures at.Between? ==> ok && disk == old(FileOf(db)) && unchanged(db.pager, db.pager.cache)
    ensures Finished(at, |db.pager.layout|) ==> disk == old(db.pager.layout)
    ensures ok && (Finished(at, |db.pager.layout|) || old(|db.pager.layout|) <= db.pager.cache.capacity) ==> UniqueIds(disk)
  {
    hide Database.Valid, Pager.Valid, Explained, UniqueIds, Blend, Leaves, FileOf, SomeOverruns;
    TrailNow(db);
    BaseCounted(db);
    match at {
      case Between =>
        ok, disk := true, FileOf(db);
        FileLeft(db);
      case Checkpointing(steps) =>
        if steps <= db.pager.nextPageId {
          ok, disk := WritePages(db, steps);
        } else {
          ok, disk := WriteAll(db);
        }
    }
  }

  /** Every page has been written. */
  predicate Finished(at: CrashPoint, pages: nat) { at.Checkpointing? && at.steps > pages }

  /** A crash at any point, inside a checkpoint or not, that cuts the log at any byte at or
      past the last sync, and a reopen with any cache capacity. */
  method CrashAt(db: Database, at: CrashPoint, cut: nat, capacity: nat)
    returns (s: Status, again: Database, unique: bool, ghost n: nat, ghost disk: Layout)
    requires db.Valid() && CleanLog(db) && db.wal.synced <= cut <= |db.wal.file|
    modifies db`past, db`events, db.wal, db.pager, db.pager.cache
    ensures s == Ok || s == Fault
    ensures s == Fault ==> again.Faultable()
    ensures s == Ok ==> fresh(again) && fresh(again.index) && fresh(again.pager) && fresh(again.pager.cache) && fresh(again.wal) && again.trees == map[]
    ensures s == Ok ==> Leaves(db.pager, disk) && Survives(old(TrailOf(db)), old(db.wal.durable), cut, n)
    ensures s == Ok ==> old(Explained(TrailOf(db))) && Recovered(old(TrailOf(db)), disk, n, old(db.wal.file)[..cut], s, again, unique)
    ensures s == Ok && unique ==> (CleanLog(again) <==> cut == LogLength(old(AllRecords(db)), n))
    ensures s == Ok && (Finished(at, |db.pager.layout|) || |db.pager.layout| <= db.pager.cache.capacity) ==> unique
    ensures unchanged(db) && unchanged(db.wal) && (at.Between? ==> disk == old(FileOf(db)) && unchanged(db.pager, db.pager.cache))
  {
    hide Database.Valid, Database.Loose, Pager.Valid, Explained, UniqueIds, Blend, FileOf, SomeOverruns, Cut, CleanBytes, LogLength, Opened, ReplayAll, TableOf, FileHolds, Lists, NoneOlder;
    n := CutNow(db, cut);
    db.ValidParts();
    ghost var tr, durable := TrailOf(db), db.wal.durable;
    again, unique := db, false;
    var ok;
    ok, disk := WriteOut(db, at);
    if !ok {
      s := Fault;
      return;
    }
    ghost var m;
    s, again, unique, m := ReopenFrom(tr, durable, cut, db.schema, db.pager.compression, capacity, db.pager.file, db.wal.file[..cut], db.pager.pageCount, disk, n);
    CutSurvives(tr, durable, cut, db.wal.file[..cut], n);
  }

  lemma CutSurvives(tr: Trail, durable: nat, cut: nat, walBytes: seq<byte>, n: nat)
    requires Cut(tr, durable, cut, walBytes, n)
    ensures Survives(tr, durable, cut, n)
  {}

  lemma FileLeft(db: Database)
    requires db.Valid()
    ensures Leaves(db.pager, FileOf(db)) && Explained(TrailOf(db)) && Blend(FileOf(db), TrailOf(db))
    ensures |db.pager.layout| <= db.pager.cache.capacity ==> UniqueIds(FileOf(db))
  {
    hide Database.Valid, Pager.Valid, Explained, UniqueIds, Blend, FileLayout, FileHolds, Patchwork;
    TrailNow(db);
    db.ValidParts();
    FileIsPatchwork(db);
    PatchworkBlends(FileOf(db), TrailOf(db));
    if |db.pager.layout| <= db.pager.cache.capacity {
      BaseIndexed(db);
      NotStolen(db.pager);
    }
  }

  /** A page is written early only when the cache is full. */
  lemma NotStolen(pager: Pager)
    requires pager.Valid() && |pager.layout| <= pager.cache.capacity
    ensures !pager.stolen && FileLayout(pager) == pager.base
    ensures forall p :: 0 <= p < |pager.base| ==> p in pager.disk && pager.disk[p] == pager.base[p]
  {
    hide Stored, Cached, PagesFit;
  }

  /** A crash in the middle of flush_all. Dirty pages go out in ascending order, and rows
      move to the last page only, so a file without evicted pages holds no id twice. */
  method WritePages(db: Database, k: nat) returns (ok: bool, ghost disk: Layout)
    requires db.Valid() && k <= |db.pager.layout|
    modifies db`past, db`events, db.wal, db.pager, db.pager.cache
    ensures unchanged(db) && unchanged(db.wal) && db.pager.layout == old(db.pager.layout)
    ensures !ok ==> db.Faultable()
    ensures ok ==> Leaves(db.pager, disk) && old(Explained(TrailOf(db))) && Blend(disk, old(TrailOf(db)))
    ensures ok && old(|db.pager.layout|) <= db.pager.cache.capacity ==> UniqueIds(disk)
  {
    hide Database.Valid, Database.Map, Pager.Valid, Pager.Flushing, Pager.Pooled, Explained, UniqueIds, Blend, Leaves, SomeOverruns, Flushed, Patchwork, Slots, Unwritten, W.Header;
    FlushReady(db);
    ghost var tr, pool := TrailOf(db), db.pager.Pooled();
    disk := [];
    var s := db.CheckpointSteps(k);
    ok := s == Ok;
    if ok {
      disk := SlotsLeft(db.pager, tr, k);
      PatchworkBlends(disk, tr);
      if |tr.layout| <= db.pager.cache.capacity {
        FlushedUnique(db.pager, tr, pool, k, disk);
      }
    }
  }

  /** The file still holds the pages of the last checkpoint. */
  ghost predicate Unwritten(base: Layout, pool: Pool) {
    forall p :: 0 <= p < |base| ==> p in pool.disk && pool.disk[p] == base[p]
  }

  lemma FlushReady(db: Database)
    requires db.Valid()
    ensures Explained(TrailOf(db)) && db.pager.Valid() && db.pager.schema == db.schema && UniqueIds(db.pager.layout)
    ensures db.pager.pageCount == |db.pager.base| < 0x1_0000_0000 && |db.pager.base| <= |db.pager.layout|
    ensures db.pager.Pooled().layout == db.pager.layout
    ensures |db.pager.layout| <= db.pager.cache.capacity ==> Unwritten(db.pager.base, db.pager.Pooled())
  {
    hide Database.Valid, Database.Map, Pager.Valid, Explained, Explains, Indexed, UniqueIds;
    TrailNow(db);
    BaseCounted(db);
    db.ValidParts();
    IndexedUnique(db.pager.layout, db.index.contents);
    if |db.pager.layout| <= db.pager.cache.capacity {
      NotStolen(db.pager);
    }
  }

  lemma FlushedUnique(pager: Pager, tr: Trail, pool: Pool, k: nat, file: Layout)
    requires pager.Flushing(k) && k <= |pager.layout|
    requires pool.layout == pager.layout && pager.Pooled() == Flushed(pool, k, pager.cache.capacity)
    requires Explained(tr) && tr.layout == pager.layout && |tr.base| <= |tr.layout| && UniqueIds(tr.layout) && Unwritten(tr.base, pool)
    requires |file| == |tr.base| && forall p :: 0 <= p < |file| ==> p in pager.disk && file[p] == pager.disk[p]
    ensures UniqueIds(file)
  {
    hide Pager.ValidPages, Explained, UniqueIds, Flushed, Dirty;
    FlushedDisk(pool, k, pager.cache.capacity);
    PagesClean(pager, k);
    AscendingUnique(tr, file, k);
  }

  lemma SlotsLeft(pager: Pager, tr: Trail, k: nat) returns (disk: Layout)
    requires pager.Flushing(k) && pager.pageCount == |pager.base| < 0x1_0000_0000
    requires Explained(tr) && tr.base == pager.base && tr.seen == pager.seen
    ensures Leaves(pager, disk) && Patchwork(disk, tr.base, tr.events)
    ensures |disk| == |pager.base| && forall p :: 0 <= p < |disk| ==> p in pager.disk && disk[p] == pager.disk[p]
  {
    hide Stored, Cached, PagesFit, Patchwork, FileHolds, Explained, Remembers, SeenAs;
    TrailSeen(tr);
    disk := Slots(|pager.base|, pager.disk);
    SlotsPatchwork(pager.base, pager.seen, pager.layout, pager.disk, tr.events);
    SlotsHeld(pager.file, pager.pageOffsets, pager.disk, pager.schema, |pager.base|);
  }

  lemma TrailSeen(tr: Trail)
    requires Explained(tr)
    ensures Remembers(tr.seen, tr.base, tr.events) && tr.layout == LayoutAfter(tr.base, tr.events, |tr.events|)
  {
    hide Indexed, Logged, LayoutAfter, Remembers, Restores, Exact, TableOf, LiveFrom;
  }

  /** flush_all leaves the slots it has not come to. */
  lemma {:induction false} FlushedDisk(p: Pool, n: nat, capacity: nat)
    requires n <= |p.layout|
    ensures forall q :: q >= n && q in p.disk ==> q in Flushed(p, n, capacity).disk && Flushed(p, n, capacity).disk[q] == p.disk[q]
  {
    if n > 0 { FlushedDisk(p, n - 1, capacity); }
  }

  /** And has written the others. */
  lemma PagesClean(pager: Pager, k: nat)
    requires pager.ValidPages() && k <= |pager.layout| && forall p :: 0 <= p < k && p in pager.cache.frames ==> !pager.cache.frames[p].dirty
    ensures forall p :: 0 <= p < k ==> p in pager.disk && pager.disk[p] == pager.layout[p]
  {
    hide Stored, PagesFit;
  }

  /** Only the last page takes new rows. */
  lemma {:induction false} OnlyLastGrows(base: Layout, es: seq<Event>, n: nat, p: nat, id: nat)
    requires n <= |es| && p + 1 < |base|
    ensures |LayoutAfter(base, es, n)| >= |base|
    ensures OnPage(LayoutAfter(base, es, n), p, id) ==> OnPage(base, p, id)
  {
    if n > 0 {
      OnlyLastGrows(base, es, n - 1, p, id);
      EventGrowsLast(LayoutAfter(base, es, n - 1), es[n - 1], p, id);
    }
  }

  lemma EventGrowsLast(layout: Layout, e: Event, p: nat, id: nat)
    requires p + 1 < |layout|
    ensures |Effect(layout, e)| >= |layout|
    ensures OnPage(Effect(layout, e), p, id) ==> OnPage(layout, p, id)
  {
    hide HasRoom;
    var after := Effect(layout, e);
    if OnPage(after, p, id) {
      var slot :| InLayout(after, Loc(p, slot)) && RowIn(after, Loc(p, slot)).id == id;
      if after[p] == layout[p] {
        assert InLayout(layout, Loc(p, slot));
      } else {
        var gone := e.at.value.slot;
        var was := if slot < gone then slot else slot + 1;
        assert InLayout(layout, Loc(p, was)) && RowIn(layout, Loc(p, was)) == RowIn(after, Loc(p, slot));
      }
    }
  }

  /** The first `k` pages as they are now, the others as they were: no id twice. */
  lemma AscendingUnique(tr: Trail, file: Layout, k: nat)
    requires Explained(tr) && k <= |tr.layout| && |tr.base| <= |tr.layout| && UniqueIds(tr.layout)
    requires |file| == |tr.base| && forall p :: 0 <= p < |file| ==> file[p] == if p < k then tr.layout[p] else tr.base[p]
    ensures UniqueIds(file)
  {
    hide UniqueIds, Explained, LayoutAfter, Indexed, Logged, LegalHistory, LiveFrom, Restores, Remembers, TableOf, OnPage;
    TrailParts(tr);
    IndexedUnique(tr.base, tr.past.rooted);
    TrailSeen(tr);
    forall a, b | InLayout(file, a) && InLayout(file, b) && RowIn(file, a).id == RowIn(file, b).id && a.page <= b.page ensures a == b {
      if b.page < k {
        SamePlace(tr.layout, a, b);
      } else if k <= a.page {
        SamePlace(tr.base, a, b);
      } else {
        OnlyLastGrows(tr.base, tr.events, |tr.events|, a.page, RowIn(file, a).id);
        NotElsewhere(tr.base, b, a.page);
        IsOn(tr.layout, a);
      }
    }
    OrderedUnique(file);
  }

  lemma SamePlace(layout: Layout, a: Loc, b: Loc)
    requires UniqueIds(layout) && InLayout(layout, a) && InLayout(layout, b) && RowIn(layout, a).id == RowIn(layout, b).id
    ensures a == b
  {}

  lemma NotElsewhere(layout: Layout, b: Loc, p: nat)
    requires UniqueIds(layout) && InLayout(layout, b) && p != b.page
    ensures !OnPage(layout, p, RowIn(layout, b).id)
  {}

  lemma IsOn(layout: Layout, a: Loc)
    requires InLayout(layout, a)
    ensures OnPage(layout, a.page, RowIn(layout, a).id)
  {
    assert a == Loc(a.page, a.slot);
  }

  lemma OrderedUnique(layout: Layout)
    requires forall a, b :: InLayout(layout, a) && InLayout(layout, b) && RowIn(layout, a).id == RowIn(layout, b).id && a.page <= b.page ==> a == b
    ensures UniqueIds(layout)
  {}

  /** A crash after flush_all: everything has been written, the page count too. */
  method WriteAll(db: Database) returns (ok: bool, ghost disk: Layout)
    requires db.Valid()
    modifies db`past, db`events, db.wal, db.pager, db.pager.cache
    ensures unchanged(db) && unchanged(db.wal)
    ensures !ok ==> db.Faultable()
    ensures ok ==> Leaves(db.pager, disk) && old(Explained(TrailOf(db))) && Blend(disk, old(TrailOf(db))) && UniqueIds(disk)
    ensures disk == db.pager.layout == old(db.pager.layout)
  {
    hide Database.Valid, Database.Map, Pager.Valid, Pager.Flushing, Pager.Pooled, Explained, Indexed, UniqueIds, TableOf, Blend, Leaves, SomeOverruns, Flushed, ReplayAll, W.Header;
    TrailNow(db);
    db.ValidParts();
    disk := db.pager.layout;
    NowBlends(TrailOf(db), disk, db.index.contents);
    IndexedUnique(disk, db.index.contents);
    BaseCounted(db);
    var s := db.CheckpointSteps(db.pager.nextPageId + 1);
    ok := s == Ok;
    if ok {
      FlushedFile(db.pager);
    }
  }

  /** The whole current layout is a blend: everything as of the last moment. */
  lemma NowBlends(tr: Trail, layout: Layout, m: map<nat, Loc>)
    requires Explained(tr) && Indexed(layout, m) && TableOf(layout, m) == Last(tr)
    ensures Blend(layout, tr)
  {
    hide Explained, Indexed, TableOf, Points, BuiltUpTo, ReplayAll, Deletes, Entries;
    var cs := Changes(tr.events);
    forall k | FirstPlaces(layout, k) && Points(layout, k) ensures Mixed(Entries(layout, k), Start(tr), cs) {
      FirstIsIndexed(layout, m, k);
      EntriesAreTable(layout, m);
      LastMixed(Start(tr), cs);
    }
  }

  lemma LastMixed(start: Table, cs: seq<Change>)
    ensures Mixed(ReplayAll(start, cs), start, cs)
  {
    hide ReplayAll, Deletes;
    assert cs[..|cs|] == cs;
    forall id | id in ReplayAll(start, cs) ensures Agrees(ReplayAll(start, cs), start, cs, id, |cs|) {}
    forall id | id in start && id !in ReplayAll(start, cs) ensures Deletes(cs, id) {
      MustDelete(start, cs, id, |cs|);
    }
  }

  lemma FirstIsIndexed(layout: Layout, m: map<nat, Loc>, k: map<nat, Loc>)
    requires Indexed(layout, m) && FirstPlaces(layout, k)
    ensures k == m
  {
    hide Indexed, BuiltUpTo, UniqueIds;
    IndexedUnique(layout, m);
    SoundWhenUnique(layout, k);
    IndexUnique(layout, m, k);
  }

  /** After flush_all the file holds the layout. */
  lemma FlushedFile(pager: Pager)
    requires pager.Valid() && !pager.stolen && pager.base == pager.layout
    ensures Leaves(pager, pager.layout)
  {
    hide OnDisk, Cached, PageFits, Traced;
  }
}
