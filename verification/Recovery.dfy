/** Opening a database: recover the pages and the primary index from the file, replay
    the log, and what a crash at any log byte leaves behind. */
module Recovery {
  import opened Bytes
  import opened Rows
  import opened Pages
  import opened Storage
  import opened Layouts
  import opened Index
  import opened Replay
  import opened History
  import opened Contract
  import opened Paging
  import opened Engine
  import opened Secondary
  import W = Wal

  /** Every record logs the change at its position. */
  ghost predicate AllCarry(rs: seq<W.Record>, cs: seq<Change>, schema: Schema) {
    |rs| == |cs| && forall i :: 0 <= i < |rs| ==> Carries(rs[i], cs[i], schema)
  }

  lemma LoggedCarries(rs: seq<W.Record>, es: seq<Event>, base: Layout, schema: Schema)
    requires Logged(rs, es, base, schema)
    ensures AllCarry(rs, Changes(es), schema)
  {
    hide Carries, LegalHistory;
  }

  /** A history under way: its records, the layout it has reached and the layouts met. */
  ghost predicate Replaying(rs: seq<W.Record>, es: seq<Event>, base: Layout, layout: Layout, seen: seq<Layout>, schema: Schema) {
    Logged(rs, es, base, schema) && layout == LayoutAfter(base, es, |es|) && Remembers(seen, base, es)
  }

  lemma ReplayingStart(base: Layout, schema: Schema)
    ensures Replaying([], [], base, base, [base], schema)
  {
    RemembersStart(base);
  }

  lemma ReplayingMore(rs: seq<W.Record>, es: seq<Event>, base: Layout, layout: Layout, seen: seq<Layout>, schema: Schema,
                      m: map<nat, Loc>, r: W.Record, c: Change)
    requires Replaying(rs, es, base, layout, seen, schema) && Indexed(layout, m) && Carries(r, c, schema)
    ensures var e := EventFor(layout, m, c); var after := Effect(layout, e);
            Replaying(rs + [r], es + [e], base, after, if e.at.Some? then seen + [after] else seen, schema)
  {
    hide Logged, LayoutAfter, Remembers, Indexed, LegalEvent, Storable, Place, Inserted, Erased, EncodeRow, InLayout;
    var e := EventFor(layout, m, c);
    OneEvent(layout, m, e, schema);
    Grow(rs, es, base, schema, r, e);
    RemembersMore(seen, base, es, e);
  }

  /** replay_wal, on any file. The index is sound afterwards exactly when it was before,
      its ids are those logical replay leads to, and on a sound index the map becomes
      what logical replay makes of it by a history of the logged changes. */
  method ReplayLog(db: Database, rs: seq<W.Record>, ghost cs: seq<Change>) returns (ok: bool, ghost es: seq<Event>)
    requires db.Loose() && AllCarry(rs, cs, db.schema) && db.pager.seen == [db.pager.layout]
    modifies db.index, db.pager, db.pager.cache
    ensures !ok ==> db.Faultable()
    ensures ok ==> db.Loose() && db.pager.base == old(db.pager.base) && (db.Sound() <==> old(db.Sound()))
    ensures ok ==> db.index.contents.Keys == ReplayAll(old(LooseTable(db)), cs).Keys
    ensures ok && db.Sound() ==> db.Table() == ReplayAll(old(LooseTable(db)), cs)
    ensures ok && db.Sound() ==> Changes(es) == cs && Replaying(rs, es, old(db.pager.layout), db.pager.layout, db.pager.seen, db.schema)
    ensures ok ==> db.pager.Pooled() == PoolAfter(old(db.pager.Pooled()), es, db.pager.cache.capacity)
    ensures |db.pager.layout| <= old(|db.pager.layout|) + |rs|
  {
    hide PoolEvent, PoolAfter, Pager.Pooled, SomeOverruns, Database.Loose, Carries, Effect, ReplayOne, ReplayAll, Indexed, TableOf, Replaying, EventFor, KeysAfter;
    ghost var layout, sound, t := db.pager.layout, db.Sound(), LooseTable(db);
    if sound { LooseIsTable(db); }
    ok, es := true, [];
    ReplayNone(t);
    ReplayingStart(layout, db.schema);
    ghost var pool, capacity := db.pager.Pooled(), db.pager.cache.capacity;
    PoolNone(pool, capacity);
    for i := 0 to |rs|
      invariant ok && db.Loose() && db.pager.base == old(db.pager.base) && (db.Sound() <==> sound)
      invariant db.index.contents.Keys == ReplayAll(t, cs[..i]).Keys
      invariant sound ==> db.Table() == ReplayAll(t, cs[..i])
      invariant |es| == i && Changes(es) == cs[..i]
      invariant db.pager.Pooled() == PoolAfter(pool, es, capacity) && |db.pager.layout| <= |layout| + i
      invariant sound ==> Replaying(rs[..i], es, layout, db.pager.layout, db.pager.seen, db.schema)
    {
      ghost var before, m, seen := db.pager.layout, db.index.contents, db.pager.seen;
      ghost var e := EventFor(before, m, cs[i]);
      assert rs[..i + 1] == rs[..i] + [rs[i]];
      ReplayMore(t, cs, i);
      if sound {
        ReplayingMore(rs[..i], es, layout, before, seen, db.schema, m, rs[i], cs[i]);
      }
      ok := db.ReplayRecord(rs[i], cs[i]);
      if !ok {
        return;
      }
      OwnChange(before, m, cs[i]);
      ChangesMore(es, e);
      PoolMore(pool, es, e, capacity);
      assert cs[..i + 1] == cs[..i] + [cs[i]];
      es := es + [e];
    }
    assert cs[..|cs|] == cs && rs[..|rs|] == rs;
  }

  lemma OwnChange(layout: Layout, m: map<nat, Loc>, c: Change)
    ensures EventFor(layout, m, c).change == c
  {}

  /** What the index entries lead to while the log is replayed. */
  ghost function LooseTable(db: Database): Table
    reads db, db.index, db.pager, db.pager.cache, db.wal
    requires db.Loose()
  {
    Entries(db.pager.layout, db.index.contents)
  }

  lemma LooseIsTable(db: Database)
    requires db.Loose() && db.Sound()
    ensures LooseTable(db) == db.Table()
  {
    hide Indexed, Points, Manager.Valid, Pager.Valid, W.Log.Valid;
    EntriesAreTable(db.pager.layout, db.index.contents);
  }

  lemma CoreIndexed(db: Database)
    requires db.Core()
    ensures Indexed(db.pager.layout, db.index.contents)
  {}

  predicate Earlier(a: Loc, pid: nat, slot: nat) { a.page < pid || (a.page == pid && a.slot < slot) }

  /** The part of the index that recovery has built when it stands at a location: each
      id met so far, at the first place that holds it. */
  ghost predicate BuiltUpTo(layout: Layout, pid: nat, slot: nat, m: map<nat, Loc>) {
    && (forall id :: id in m ==> InLayout(layout, m[id]) && Earlier(m[id], pid, slot) && RowIn(layout, m[id]).id == id)
    && (forall a :: InLayout(layout, a) && Earlier(a, pid, slot) ==>
          RowIn(layout, a).id in m && !Earlier(a, m[RowIn(layout, a).id].page, m[RowIn(layout, a).id].slot))
  }

  /** Each id of the layout, at the first place that holds it. */
  ghost predicate FirstPlaces(layout: Layout, m: map<nat, Loc>) {
    BuiltUpTo(layout, |layout|, 0, m)
  }

  lemma BuildOne(layout: Layout, pid: nat, slot: nat, m: map<nat, Loc>)
    requires pid < |layout| && slot < |layout[pid]| && BuiltUpTo(layout, pid, slot, m)
    ensures var id := layout[pid][slot].id; BuiltUpTo(layout, pid, slot + 1, if id in m then m else m[id := Loc(pid, slot)])
  {
    var at := Loc(pid, slot);
    assert InLayout(layout, at) && RowIn(layout, at) == layout[pid][slot];
    forall a | Earlier(a, pid, slot + 1) ensures Earlier(a, pid, slot) || a == at {}
  }

  lemma NextPage(layout: Layout, pid: nat, m: map<nat, Loc>)
    requires pid < |layout| && BuiltUpTo(layout, pid, |layout[pid]|, m)
    ensures BuiltUpTo(layout, pid + 1, 0, m)
  {
    forall a | InLayout(layout, a) && Earlier(a, pid + 1, 0) ensures Earlier(a, pid, |layout[pid]|) {}
  }

  /** What recovery builds is a sound index exactly when no id is on file twice. */
  lemma SoundWhenUnique(layout: Layout, m: map<nat, Loc>)
    requires FirstPlaces(layout, m)
    ensures Indexed(layout, m) <==> UniqueIds(layout)
  {
    if UniqueIds(layout) {
      forall at | InLayout(layout, at) ensures RowIn(layout, at).id in m && m[RowIn(layout, at).id] == at {
        assert Earlier(at, |layout|, 0);
      }
    }
  }

  /** No id sits in two places before a location. */
  ghost predicate UniqueUpTo(layout: Layout, pid: nat, slot: nat) {
    forall a, b ::
      (InLayout(layout, a) && InLayout(layout, b) && Earlier(a, pid, slot) && Earlier(b, pid, slot) && RowIn(layout, a).id == RowIn(layout, b).id)
      ==> a == b
  }

  lemma UniqueOne(layout: Layout, pid: nat, slot: nat, m: map<nat, Loc>)
    requires pid < |layout| && slot < |layout[pid]| && BuiltUpTo(layout, pid, slot, m)
    ensures UniqueUpTo(layout, pid, slot + 1) <==> UniqueUpTo(layout, pid, slot) && layout[pid][slot].id !in m
  {
    var at, id := Loc(pid, slot), layout[pid][slot].id;
    assert InLayout(layout, at) && RowIn(layout, at).id == id;
    forall a | Earlier(a, pid, slot + 1) ensures Earlier(a, pid, slot) || a == at {}
    assert forall a :: Earlier(a, pid, slot) ==> Earlier(a, pid, slot + 1) && a != at;
  }

  lemma UniqueNextPage(layout: Layout, pid: nat)
    requires pid < |layout|
    ensures UniqueUpTo(layout, pid + 1, 0) <==> UniqueUpTo(layout, pid, |layout[pid]|)
  {
    forall a | InLayout(layout, a) ensures Earlier(a, pid + 1, 0) <==> Earlier(a, pid, |layout[pid]|) {}
  }

  lemma UniqueAll(layout: Layout)
    ensures UniqueUpTo(layout, |layout|, 0) <==> UniqueIds(layout)
    ensures UniqueUpTo(layout, 0, 0)
  {
    assert forall a :: InLayout(layout, a) ==> Earlier(a, |layout|, 0);
  }

  /** Enters one recovered page's rows into the index; a duplicate is skipped. */
  method IndexPage(index: Manager, f: Frame, pid: nat, schema: Schema, ghost layout: Layout, before: bool) returns (unique: bool)
    requires index.Valid() && pid < |layout| && Holds(f, layout[pid], schema)
    requires BuiltUpTo(layout, pid, 0, index.contents) && (before <==> UniqueUpTo(layout, pid, 0))
    modifies index
    ensures index.Valid() && BuiltUpTo(layout, pid + 1, 0, index.contents) && (unique <==> UniqueUpTo(layout, pid + 1, 0))
  {
    hide Manager.Valid, Holds, BuiltUpTo, UniqueUpTo;
    unique := before;
    var count := RowCount(f, schema, layout[pid]);
    for slot := 0 to count
      invariant index.Valid() && BuiltUpTo(layout, pid, slot, index.contents)
      invariant unique <==> UniqueUpTo(layout, pid, slot)
    {
      var r := GetRow(f, slot, schema, layout[pid]);
      BuildOne(layout, pid, slot, index.contents);
      UniqueOne(layout, pid, slot, index.contents);
      var added := index.Insert(r.value.id, Loc(pid, slot));
      unique := unique && added;
    }
    NextPage(layout, pid, index.contents);
    UniqueNextPage(layout, pid);
  }

  /** The file holds exactly these pages. */
  ghost predicate FileHolds(file: seq<byte>, base: Layout, schema: Schema) {
    && |base| < 0x1_0000_0000 && PagesFit(base, schema)
    && forall pid :: 0 <= pid < |base| ==> OnDisk(file, pid, base[pid], schema)
  }

  /** What recover sees of a counted slot: a page, or nothing it can read as that page. */
  ghost predicate SlotShows(file: seq<byte>, pid: nat, page: Option<seq<Row>>, schema: Schema) {
    if page.Some? then OnDisk(file, pid, page.value, schema) && PageFits(page.value, schema)
    else Load(file, SlotOffset(pid)).None? || Load(file, SlotOffset(pid)).value.id != pid
  }

  ghost predicate FileShows(file: seq<byte>, pages: seq<Option<seq<Row>>>, schema: Schema) {
    |pages| < 0x1_0000_0000 && forall pid :: 0 <= pid < |pages| ==> SlotShows(file, pid, pages[pid], schema)
  }

  /** The pages seen, with nothing where nothing could be read. */
  function PagesOf(pages: seq<Option<seq<Row>>>): (l: Layout)
    ensures |l| == |pages| && forall p :: 0 <= p < |pages| ==> l[p] == if pages[p].Some? then pages[p].value else []
  {
    seq(|pages|, p requires 0 <= p < |pages| => if pages[p].Some? then pages[p].value else [])
  }

  predicate Readable(pages: seq<Option<seq<Row>>>) {
    forall p :: 0 <= p < |pages| ==> pages[p].Some?
  }

  /** One more than the last readable page. */
  function Highest(pages: seq<Option<seq<Row>>>): nat {
    if pages == [] then 0 else if pages[|pages| - 1].Some? then |pages| else Highest(pages[..|pages| - 1])
  }

  /** The offsets recorded are those of the readable pages. */
  ghost predicate Known(disk: map<nat, seq<Row>>, pages: seq<Option<seq<Row>>>) {
    && (forall p :: p in disk <==> 0 <= p < |pages| && pages[p].Some?)
    && (forall p :: p in disk ==> disk[p] == pages[p].value)
  }

  lemma KnownMore(disk: map<nat, seq<Row>>, pages: seq<Option<seq<Row>>>, n: nat)
    requires n < |pages| && Known(disk, pages[..n])
    ensures Known(if pages[n].Some? then disk[n := pages[n].value] else disk, pages[..n + 1])
    ensures Readable(pages[..n + 1]) <==> Readable(pages[..n]) && pages[n].Some?
    ensures Highest(pages[..n + 1]) == if pages[n].Some? then n + 1 else Highest(pages[..n])
  {
    assert pages[..n + 1][..n] == pages[..n] && pages[..n + 1][n] == pages[n];
  }

  lemma WholeFile(disk: map<nat, seq<Row>>, pages: seq<Option<seq<Row>>>, file: seq<byte>, schema: Schema)
    requires Known(disk, pages) && Readable(pages) && FileShows(file, pages, schema)
    ensures Highest(pages) == |pages| && Baselined(PagesOf(pages), false, disk, |pages|) && PagesFit(PagesOf(pages), schema)
    ensures Cached(map[], PagesOf(pages), disk, schema)
  {
    hide FileShows, PagesFit, Holds;
    ShownFits(pages, file, schema);
    KnownDisk(disk, pages);
  }

  lemma ShownFits(pages: seq<Option<seq<Row>>>, file: seq<byte>, schema: Schema)
    requires FileShows(file, pages, schema) && Readable(pages)
    ensures PagesFit(PagesOf(pages), schema)
  {
    hide OnDisk, PageFits, Load;
    forall p | 0 <= p < |pages| ensures PageFits(PagesOf(pages)[p], schema) {
      assert SlotShows(file, p, pages[p], schema);
    }
  }

  /** Pager::recover, on any file whose counted slots hold pages or cannot be read. Slots
      that cannot be read are passed over; the index gets the first place of each id.
      `unique` says that no DuplicateKeyError was caught. */
  method Recover(pager: Pager, index: Manager, ghost pages: seq<Option<seq<Row>>>) returns (readable: bool, unique: bool)
    requires pager.ValidPages() && pager.layout == [] && pager.disk == map[] && !pager.stolen && pager.seen == [pager.base]
    requires pager.pageCount == |pages| && pager.base == PagesOf(pages) && FileShows(pager.file, pages, pager.schema)
    requires index.Valid() && index.contents == map[] && pager.cache.frames == map[]
    modifies index, pager`nextPageId, pager`pageOffsets, pager`layout, pager`disk
    ensures readable <==> Readable(pages)
    ensures Known(pager.disk, pages) && pager.pageOffsets.Keys == pager.disk.Keys && pager.nextPageId == Highest(pages)
    ensures index.Valid() && index.prepared && FirstPlaces(pager.base, index.contents) && (unique <==> UniqueIds(pager.base))
    ensures if readable then pager.Valid() && pager.layout == pager.base else pager.layout == []
  {
    hide Manager.Valid, BuiltUpTo, UniqueUpTo, UniqueIds, Traced, OnDisk, PagesFit, PageFits, Holds, Known, Readable, Highest, Cached, Baselined, Load;
    StartPages(pages);
    NothingBuilt(pager.base);
    UniqueAll(pager.base);
    readable, unique := true, true;
    for pid := 0 to pager.pageCount
      invariant Stored(pager.file, pager.pageOffsets, pager.disk, pager.schema) && Known(pager.disk, pages[..pid])
      invariant pager.layout == [] && pager.nextPageId == Highest(pages[..pid]) && (readable <==> Readable(pages[..pid]))
      invariant index.Valid() && BuiltUpTo(pager.base, pid, 0, index.contents) && (unique <==> UniqueUpTo(pager.base, pid, 0))
    {
      assert SlotShows(pager.file, pid, pages[pid], pager.schema);
      KnownMore(pager.disk, pages, pid);
      var image := ReadSlot(pager.file, pid);
      ShownAs(pager.file, pid, pages[pid], pager.schema);
      if image.Some? && image.value.id == pid {
        var f := pager.Adopt(pid, pager.base[pid]);
        unique := IndexPage(index, f, pid, pager.schema, pager.base, unique);
      } else {
        readable := false;
        NextPage(pager.base, pid, index.contents);
        UniqueNextPage(pager.base, pid);
      }
    }
    assert pages[..|pages|] == pages;
    index.Prepare();
    if readable {
      WholeFile(pager.disk, pages, pager.file, pager.schema);
      pager.layout := pager.base;
      FreshTraced(pager.base, pager.disk);
    }
  }

  lemma StartPages(pages: seq<Option<seq<Row>>>)
    ensures Known(map[], pages[..0]) && Readable(pages[..0]) && Highest(pages[..0]) == 0
  {}

  lemma ShownAs(file: seq<byte>, pid: nat, page: Option<seq<Row>>, schema: Schema)
    requires SlotShows(file, pid, page, schema)
    ensures page.Some? <==> Load(file, SlotOffset(pid)).Some? && Load(file, SlotOffset(pid)).value.id == pid
    ensures page.Some? ==> OnDisk(file, pid, page.value, schema) && PageFits(page.value, schema)
  {
    hide Load, PageFits, EncodeRows;
  }

  lemma NothingBuilt(layout: Layout)
    ensures BuiltUpTo(layout, 0, 0, map[])
  {}

  /** WAL::open writes a header to a missing or empty log. */
  function LogFound(walBytes: seq<byte>): seq<byte> {
    if walBytes == [] then W.Header() else walBytes
  }

  lemma EmptyLogFound()
    ensures W.ReplayFile(W.Header()) == [] == W.ReplayFile([])
  {
    W.ParsesNothing([]);
    assert W.Header()[W.HEADER_SIZE..] == [];
  }

  /** DB::open on any file and a log file whose records carry `cs`. With every counted slot
      readable the engine is sound exactly when no id is on file twice, and then its map is
      the logical replay of the log onto the file and every operation can go on from it. */
  method Open(schema: Schema, compression: Compression, capacity: nat, file: seq<byte>, walBytes: seq<byte>, pageCount: nat,
              ghost pages: seq<Option<seq<Row>>>, ghost cs: seq<Change>)
    returns (s: Status, db: Database, unique: bool, ghost m: map<nat, Loc>)
    requires pageCount == |pages| && FileShows(file, pages, schema) && AllCarry(W.ReplayFile(walBytes), cs, schema)
    ensures fresh(db) && fresh(db.index) && fresh(db.pager) && fresh(db.pager.cache) && fresh(db.wal) && db.trees == map[]
    ensures s == Ok || s == Fault || s == Damaged
    ensures s == Damaged <==> !Readable(pages)
    ensures s == Fault ==> db.Faultable()
    ensures db.pager.compression == compression && db.pager.cache.capacity == (if capacity == 0 then 1 else capacity)
    ensures |db.pager.layout| <= |pages| + |W.ReplayFile(walBytes)|
    ensures unique <==> UniqueIds(PagesOf(pages))
    ensures FirstPlaces(PagesOf(pages), m) && Points(PagesOf(pages), m) && (unique ==> Indexed(PagesOf(pages), m))
    ensures s == Ok ==> db.Loose() && db.schema == schema && (db.Sound() <==> unique)
    ensures s == Ok ==> db.index.contents.Keys == ReplayAll(Entries(PagesOf(pages), m), cs).Keys
    ensures s == Ok && unique ==> db.Table() == ReplayAll(Entries(PagesOf(pages), m), cs)
    ensures s == Ok && unique ==> Opened(db, PagesOf(pages), m, cs, walBytes)
  {
    hide PoolAfter, Pager.Pooled, SomeOverruns, Database.Core, Database.Loose, Indexed, UniqueIds, AllCarry, W.ReplayFile, ReplayAll, TableOf, Entries, Replaying, BuiltUpTo, W.Header, Points, Explains, Restores, Opened, Readable, FileShows;
    EmptyLogFound();
    ghost var disk := PagesOf(pages);
    var readable;
    db, readable, unique := Mount(schema, compression, capacity, file, walBytes, pageCount, pages);
    m := db.index.contents;
    SoundWhenUnique(disk, m);
    FirstPoints(disk, m);
    if !readable {
      s := Damaged;
      return;
    }
    var records := ReadLog(db);
    LoosePoints(db);
    var ok;
    ghost var es;
    ok, es := ReplayLog(db, records, cs);
    s := if ok then Ok else Fault;
    if ok && unique {
      StartFrom(db, records, es, m, cs, walBytes);
    }
  }

  /** Every slot readable. */
  function Whole(disk: Layout): seq<Option<seq<Row>>> {
    seq(|disk|, p requires 0 <= p < |disk| => Some(disk[p]))
  }

  lemma WholeShows(file: seq<byte>, disk: Layout, schema: Schema)
    requires FileHolds(file, disk, schema)
    ensures |Whole(disk)| == |disk| && FileShows(file, Whole(disk), schema) && Readable(Whole(disk)) && PagesOf(Whole(disk)) == disk
  {
    hide OnDisk, PageFits;
  }

  /** Open on a file that holds exactly the pages `disk`. */
  method OpenWhole(schema: Schema, compression: Compression, capacity: nat, file: seq<byte>, walBytes: seq<byte>, pageCount: nat,
                   ghost disk: Layout, ghost cs: seq<Change>)
    returns (s: Status, db: Database, unique: bool, ghost m: map<nat, Loc>)
    requires pageCount == |disk| && FileHolds(file, disk, schema) && AllCarry(W.ReplayFile(walBytes), cs, schema)
    ensures fresh(db) && fresh(db.index) && fresh(db.pager) && fresh(db.pager.cache) && fresh(db.wal) && db.trees == map[]
    ensures s == Ok || s == Fault
    ensures s == Fault ==> db.Faultable()
    ensures db.pager.compression == compression && db.pager.cache.capacity == (if capacity == 0 then 1 else capacity)
    ensures |db.pager.layout| <= |disk| + |W.ReplayFile(walBytes)|
    ensures unique <==> UniqueIds(disk)
    ensures FirstPlaces(disk, m) && Points(disk, m) && (unique ==> Indexed(disk, m))
    ensures s == Ok ==> db.Loose() && db.schema == schema && (db.Sound() <==> unique)
    ensures s == Ok ==> db.index.contents.Keys == ReplayAll(Entries(disk, m), cs).Keys
    ensures s == Ok && unique ==> db.Table() == ReplayAll(Entries(disk, m), cs)
    ensures s == Ok && unique ==> Opened(db, disk, m, cs, walBytes)
  {
    hide Database.Loose, Indexed, UniqueIds, AllCarry, W.ReplayFile, ReplayAll, TableOf, Entries, BuiltUpTo, Points, Opened, Readable, FileShows, FileHolds, SomeOverruns;
    WholeShows(file, disk, schema);
    s, db, unique, m := Open(schema, compression, capacity, file, walBytes, pageCount, Whole(disk), cs);
  }

  /** A sound reopened database, and what is known of the log it was opened with. */
  ghost predicate Opened(db: Database, disk: Layout, m: map<nat, Loc>, cs: seq<Change>, walBytes: seq<byte>)
    reads db, db.index, db.pager, db.pager.cache, db.wal, db.trees.Values
  {
    && db.Valid() && db.Durable()
    && db.pager.base == disk && Changes(db.events) == cs && db.past.found == W.ReplayFile(walBytes)
    && db.past.rooted == m && Indexed(disk, m)
    && db.wal.records == [] && db.wal.base == LogFound(walBytes)
    && (db.past.exact <==> Exact(db.past.found, db.events))
    && (db.past.steady <==> Restores(TableOf(disk, m), cs))
    && db.pager.Pooled() == PoolAfter(Pool(disk, [], {}, DiskOf(disk)), db.events, db.pager.cache.capacity)
  }

  /** What the file of a layout holds. */
  function DiskOf(layout: Layout): map<nat, seq<Row>> {
    map p | 0 <= p < |layout| :: layout[p]
  }

  lemma LoosePoints(db: Database)
    requires db.Loose()
    ensures Points(db.pager.layout, db.index.contents) && LooseTable(db) == Entries(db.pager.layout, db.index.contents)
  {
    hide Points, Manager.Valid, Pager.Valid, W.Log.Valid;
  }

  /** Everything open does before the log is replayed. */
  method Mount(schema: Schema, compression: Compression, capacity: nat, file: seq<byte>, walBytes: seq<byte>, pageCount: nat,
               ghost pages: seq<Option<seq<Row>>>)
    returns (db: Database, readable: bool, unique: bool)
    requires pageCount == |pages| && FileShows(file, pages, schema)
    ensures fresh(db) && fresh(db.index) && fresh(db.pager) && fresh(db.pager.cache) && fresh(db.wal)
    ensures db.trees == map[] && db.schema == schema && db.pager.base == PagesOf(pages) && db.pager.seen == [PagesOf(pages)]
    ensures db.pager.compression == compression && db.pager.cache.capacity == (if capacity == 0 then 1 else capacity)
    ensures FirstPlaces(PagesOf(pages), db.index.contents) && (unique <==> UniqueIds(PagesOf(pages))) && (readable <==> Readable(pages))
    ensures |db.pager.layout| <= |pages|
    ensures readable ==> db.Loose() && db.pager.layout == PagesOf(pages)
    ensures readable ==> db.pager.Pooled() == Pool(PagesOf(pages), [], {}, DiskOf(PagesOf(pages)))
    ensures db.wal.records == [] && db.wal.file == db.wal.base == LogFound(walBytes) && db.wal.writeBuf == []
  {
    hide Database.Loose, Manager.Valid, Pager.Valid, Pager.ValidPages, W.Log.Valid, FileShows, W.Header, BuiltUpTo, Points, UniqueIds, Known, Readable, Highest;
    var index := new Manager();
    var log := new W.Log(walBytes);
    var pager := new Pager(schema, compression, capacity, file, pageCount, PagesOf(pages));
    readable, unique := Recover(pager, index, pages);
    FirstPoints(PagesOf(pages), index.contents);
    db := new Database(schema, index, pager, log, NewPast(index.contents));
    if readable {
      db.AssembledLoose();
      KnownDisk(pager.disk, pages);
    }
  }

  lemma KnownDisk(disk: map<nat, seq<Row>>, pages: seq<Option<seq<Row>>>)
    requires Known(disk, pages) && Readable(pages)
    ensures disk == DiskOf(PagesOf(pages))
  {}

  lemma FirstPoints(layout: Layout, m: map<nat, Loc>)
    requires FirstPlaces(layout, m)
    ensures Points(layout, m)
  {}

  /** WAL::replay at open: nothing is buffered, so the file found is what is parsed. */
  method ReadLog(db: Database) returns (records: seq<W.Record>)
    requires db.Loose() && db.wal.writeBuf == []
    modifies db.wal
    ensures db.Loose() && records == W.ReplayFile(db.wal.file)
    ensures db.wal.file == old(db.wal.file) && db.wal.base == old(db.wal.base) && db.wal.records == old(db.wal.records)
    ensures db.Durable()
  {
    hide Manager.Valid, Pager.Valid, W.Log.Valid, Points, W.ReplayFile;
    records := db.wal.Replay();
  }

  /** A replayed history becomes the engine's own. */
  ghost method StartFrom(db: Database, records: seq<W.Record>, es: seq<Event>, m: map<nat, Loc>, cs: seq<Change>, walBytes: seq<byte>)
    requires db.Loose() && db.Sound() && Indexed(db.pager.base, m) && db.wal.records == [] && db.Durable()
    requires records == W.ReplayFile(walBytes) && db.wal.base == LogFound(walBytes) && Changes(es) == cs
    requires Replaying(records, es, db.pager.base, db.pager.layout, db.pager.seen, db.schema)
    requires db.pager.Pooled() == PoolAfter(Pool(db.pager.base, [], {}, DiskOf(db.pager.base)), es, db.pager.cache.capacity)
    modifies db`past, db`events
    ensures db.Loose() && Opened(db, db.pager.base, m, cs, walBytes)
  {
    hide PoolAfter, DiskOf, Pager.Pooled, Database.Valid, Database.Map, Manager.Valid, Pager.Valid, W.Log.Valid, Indexed, Points, TableOf, TreesOk, Explains, Replaying, Restores, Exact, W.ReplayFile, W.Header;
    NoTrees(db.schema, Listing(db.pager.layout));
    db.past := Past(records, m, Exact(records, es), Restores(TableOf(db.pager.base, m), cs));
    db.events := es;
    ReplayedExplains(db.past, es, cs, db.pager.base, db.pager.layout, db.pager.seen, db.schema);
    db.Assembled();
  }

  lemma ReplayedExplains(p: Past, es: seq<Event>, cs: seq<Change>, base: Layout, layout: Layout, seen: seq<Layout>, schema: Schema)
    requires Replaying(p.found, es, base, layout, seen, schema) && Indexed(base, p.rooted) && Changes(es) == cs
    requires p.exact ==> Exact(p.found, es)
    requires p.steady <==> Restores(TableOf(base, p.rooted), cs)
    ensures Explains(p, [], es, base, layout, seen, schema)
  {
    hide Indexed, TableOf, LegalHistory, LayoutAfter, Remembers, Restores, Exact, Carries;
    assert p.found + [] == p.found && cs[..|p.found|] == cs;
  }

  /** The log file is a header and whole records: no torn tail was left by an earlier crash. */
  ghost predicate CleanLog(db: Database)
    reads db, db.wal
  {
    CleanBytes(db.past.found, db.wal.base)
  }

  ghost predicate CleanBytes(found: seq<W.Record>, bytes: seq<byte>) {
    W.AllFramed(found) && bytes == W.Header() + W.EncodeLog(found)
  }

  /** The records of the log as a whole, found at open or written since. */
  ghost function AllRecords(db: Database): seq<W.Record>
    reads db, db.wal
  {
    db.past.found + db.wal.records
  }

  /** What a crash leaves of a clean log: a prefix of the records, every synced one
      included, and no torn tail exactly when it falls between two records. */
  lemma SurvivingRecords(db: Database, cut: nat) returns (n: nat)
    requires db.Valid() && CleanLog(db) && db.wal.synced <= cut <= |db.wal.file|
    ensures |db.past.found| + db.wal.durable <= n <= |db.events| == |AllRecords(db)| && db.wal.file[..cut] != []
    ensures db.Durable() && cut == |db.wal.file| ==> n == |db.events|
    ensures W.ReplayFile(db.wal.file[..cut]) == AllRecords(db)[..n]
    ensures Logged(AllRecords(db)[..n], db.events[..n], db.pager.base, db.schema)
    ensures W.AllFramed(AllRecords(db)[..n])
    ensures db.wal.file[..cut] == W.Header() + W.EncodeLog(AllRecords(db)[..n]) <==> cut == LogLength(AllRecords(db), n)
    ensures LogLength(AllRecords(db), n) <= cut && (n < |AllRecords(db)| ==> cut < LogLength(AllRecords(db), n + 1))
  {
    hide Database.Valid, Logged, W.ReplayFile, W.EncodeLog, W.Header, W.AllFramed, LogLength;
    WholeLog(db);
    n := SurvivesCut(AllRecords(db), |db.past.found| + db.wal.durable, db.wal.file, db.wal.writeBuf, db.wal.synced, cut);
    Prefix(AllRecords(db), db.events, db.pager.base, db.schema, n);
  }

  /** A clean log is its records, and the durable ones are within the synced part. */
  lemma WholeLog(db: Database)
    requires db.Valid() && CleanLog(db)
    ensures W.AllFramed(AllRecords(db)) && db.wal.file + db.wal.writeBuf == W.Header() + W.EncodeLog(AllRecords(db))
    ensures Logged(AllRecords(db), db.events, db.pager.base, db.schema) && |AllRecords(db)| == |db.events|
    ensures |db.past.found| + db.wal.durable <= |AllRecords(db)|
    ensures LogLength(AllRecords(db), |db.past.found| + db.wal.durable) <= db.wal.synced
  {
    hide Database.Valid, Database.Core, Explains, Indexed, LegalHistory, W.EncodeLog, W.Header, W.Log.Valid, Pager.Valid, Manager.Valid, TreesOk, TableOf, Carries;
    db.ValidParts();
    LogParts(db.wal);
    LoggedNow(db.past, db.wal.records, db.events, db.pager.base, db.pager.layout, db.pager.seen, db.schema);
    W.EncodeLogConcat(db.past.found, db.wal.records);
    var d := |db.past.found| + db.wal.durable;
    assert AllRecords(db)[..d] == db.past.found + db.wal.records[..db.wal.durable];
    W.EncodeLogConcat(db.past.found, db.wal.records[..db.wal.durable]);
  }

  /** What a cut leaves of the bytes of a clean log. */
  lemma SurvivesCut(all: seq<W.Record>, d: nat, file: seq<byte>, buf: seq<byte>, synced: nat, cut: nat) returns (n: nat)
    requires W.AllFramed(all) && file + buf == W.Header() + W.EncodeLog(all) && d <= |all|
    requires LogLength(all, d) <= synced <= cut <= |file|
    ensures d <= n <= |all| && file[..cut] != [] && W.AllFramed(all[..n])
    ensures W.ReplayFile(file[..cut]) == all[..n]
    ensures file[..cut] == W.Header() + W.EncodeLog(all[..n]) <==> cut == LogLength(all, n)
    ensures LogLength(all, n) <= cut && (n < |all| ==> cut < LogLength(all, n + 1))
  {
    hide W.ReplayFile, W.EncodeLog, W.Header, W.WholeRecords;
    W.CrashKeepsDurable(all, d, file, buf, synced, cut);
    n := W.WholeRecords(all, cut - W.HEADER_SIZE);
    W.WholeExactly(all, cut - W.HEADER_SIZE);
    W.CutAtRecord(all, n, file + buf, cut);
    assert (file + buf)[..cut] == file[..cut];
  }

  lemma LogParts(wal: W.Log)
    requires wal.Valid()
    ensures W.AllFramed(wal.records) && wal.durable <= |wal.records|
    ensures wal.file + wal.writeBuf == wal.base + W.EncodeLog(wal.records)
    ensures |wal.base| + |W.EncodeLog(wal.records[..wal.durable])| <= wal.synced
  {
    hide W.EncodeLog;
  }

  lemma LoggedNow(p: Past, records: seq<W.Record>, es: seq<Event>, base: Layout, layout: Layout, seen: seq<Layout>, schema: Schema)
    requires Explains(p, records, es, base, layout, seen, schema)
    ensures Logged(p.found + records, es, base, schema) && |p.found| + |records| == |es|
  {
    hide Indexed, LegalHistory, Remembers, LiveFrom, Exact, Restores, TableOf, Carries;
  }

  /** With no dirty page evicted since the checkpoint, the file still holds the checkpoint. */
  lemma FileHoldsBase(db: Database)
    requires db.Core() && !db.pager.stolen
    ensures db.pager.pageCount == |db.pager.base| && FileHolds(db.pager.file, db.pager.base, db.schema)
  {
    hide Manager.Valid, W.Log.Valid, Indexed, TableOf, TreesOk, OnDisk, Cached, PageFits;
  }

  /** A crash that cuts the log at any byte at or past the last sync, with no dirty page
      evicted, and a reopen with any cache capacity: the database is the file plus a prefix
      of the logged changes that covers every synced one, by the same history, so that
      rows whose records carry their places are back at them. */
  method CrashReopen(db: Database, cut: nat, capacity: nat) returns (s: Status, again: Database, ghost n: nat)
    requires db.Valid() && CleanLog(db) && !db.pager.stolen
    requires db.wal.synced <= cut <= |db.wal.file|
    ensures s == Ok || s == Fault
    ensures s == Fault ==> again.Faultable()
    ensures old(|db.past.found| + db.wal.durable) <= n <= old(|db.events|)
    ensures s == Ok ==> Restored(again, old(db.pager.base), old(db.past.rooted), old(db.events), old(AllRecords(db)), n)
    ensures s == Ok ==> (old(db.past.exact) ==> again.past.exact) && (old(db.past.steady) ==> again.past.steady)
    ensures s == Ok ==> (CleanLog(again) <==> cut == LogLength(old(AllRecords(db)), n))
    ensures s == Ok && old(db.Durable()) ==> again.pager.layout == old(db.pager.layout) && again.Table() == old(db.Map())
  {
    hide Database.Core, Database.Loose, Indexed, Points, FileHolds, AllCarry, Explains, LayoutAfter, W.ReplayFile, W.EncodeLog, W.Header, W.AllFramed, ReplayAll, TableOf, Entries, UniqueIds, Opened;
    n := SurvivingRecords(db, cut);
    FileHoldsBase(db);
    ghost var es := db.events[..n];
    LoggedCarries(AllRecords(db)[..n], es, db.pager.base, db.schema);
    BaseIndexed(db);
    var unique;
    ghost var m;
    s, again, unique, m := OpenWhole(db.schema, db.pager.compression, capacity, db.pager.file, db.wal.file[..cut], db.pager.pageCount,
                                db.pager.base, Changes(es));
    if s == Ok {
      IndexUnique(db.pager.base, db.past.rooted, m);
      EntriesAreTable(db.pager.base, m);
      ChangesPrefix(db.events, n);
      SameEvents(db, again, n, db.wal.file[..cut]);
      SameFlags(db, again, n, db.wal.file[..cut]);
      TableNow(db);
      assert db.Durable() ==> Changes(db.events)[..n] == Changes(db.events);
    }
  }

  /** The file's layout plus the first `n` logged changes, each where it happened before. */
  ghost predicate Restored(db: Database, base: Layout, rooted: map<nat, Loc>, es: seq<Event>, all: seq<W.Record>, n: nat)
    reads db, db.index, db.pager, db.pager.cache, db.wal, db.trees.Values
  {
    && n <= |es| == |all| && Indexed(base, rooted)
    && db.Valid() && db.Durable() && db.pager.base == base && db.events == es[..n] && db.past.found == all[..n]
    && db.pager.layout == LayoutAfter(base, es, n)
    && db.Map() == ReplayAll(TableOf(base, rooted), Changes(es)[..n])
  }

  /** The bytes of the first `n` records, header included. */
  ghost function LogLength(all: seq<W.Record>, n: nat): nat {
    if n <= |all| && W.AllFramed(all) then W.HEADER_SIZE + |W.EncodeLog(all[..n])| else 0
  }

  lemma BaseIndexed(db: Database)
    requires db.Valid()
    ensures Indexed(db.pager.base, db.past.rooted) && UniqueIds(db.pager.base)
  {
    hide Database.Core, Logged, Remembers, LiveFrom, Exact, Restores, TableOf;
    IndexedUnique(db.pager.base, db.past.rooted);
  }

  lemma IndexedUnique(layout: Layout, m: map<nat, Loc>)
    requires Indexed(layout, m)
    ensures UniqueIds(layout)
  {}

  /** The same file and the same changes give the same history. */
  lemma SameEvents(db: Database, again: Database, n: nat, walBytes: seq<byte>)
    requires db.Valid() && n <= |db.events| && again.schema == db.schema
    requires Opened(again, db.pager.base, db.past.rooted, Changes(db.events[..n]), walBytes)
    ensures again.Valid() && again.Durable() && again.events == db.events[..n]
    ensures again.pager.layout == LayoutAfter(db.pager.base, db.events, n)
    ensures again.past.found == W.ReplayFile(walBytes) && again.wal.base == LogFound(walBytes) && again.pager.base == db.pager.base
    ensures n == |db.events| ==> again.pager.layout == db.pager.layout
  {
    hide Database.Core, Indexed, LayoutAfter, LegalHistory, Remembers, LiveFrom, Exact, Restores, TableOf, W.ReplayFile, W.Header;
    var base, es := db.pager.base, db.events;
    Prefix(AllRecords(db), es, base, db.schema, n);
    assert again.wal.records == [] && again.past.found + [] == again.past.found;
    SameHistory(base, db.past.rooted, again.events, es[..n], db.schema, n);
    assert again.events[..n] == again.events && es[..n][..n] == es[..n];
    assert n == |es| ==> es[..n] == es;
  }

  /** The places and inserts vouched for before are vouched for again. */
  lemma SameFlags(db: Database, again: Database, n: nat, walBytes: seq<byte>)
    requires db.Valid() && |db.past.found| <= n <= |db.events| && again.events == db.events[..n]
    requires Opened(again, db.pager.base, db.past.rooted, Changes(db.events[..n]), walBytes)
    requires again.past.found == AllRecords(db)[..n]
    ensures (db.past.exact ==> again.past.exact) && (db.past.steady ==> again.past.steady)
  {
    hide Database.Core, Indexed, LayoutAfter, Remembers, Restores, TableOf, W.ReplayFile, LegalHistory;
    ChangesPrefix(db.events, n);
    if db.past.steady {
      RestoresSince(db.pager.base, db.past.rooted, db.events, db.schema, |db.past.found|, n);
    }
  }

  /** The map now is the file's after every logged change. */
  lemma TableNow(db: Database)
    requires db.Valid()
    ensures LegalHistory(db.pager.base, db.events, db.schema) && Indexed(db.pager.base, db.past.rooted)
    ensures db.Map() == ReplayAll(TableOf(db.pager.base, db.past.rooted), Changes(db.events))
  {
    hide Database.Core, Indexed, LegalHistory, LayoutAfter, TableOf, ReplayAll, Remembers, LiveFrom, Exact, Restores;
    CoreIndexed(db);
    var m := HistoryOnTable(db.pager.base, db.past.rooted, db.events, db.schema, |db.events|);
    IndexUnique(db.pager.layout, m, db.index.contents);
    assert Changes(db.events)[..|db.events|] == Changes(db.events);
  }

  /** After a checkpoint nothing has happened yet. */
  lemma NothingSince(db: Database)
    requires db.Valid() && db.events == [] && db.past.found == [] && db.past.exact && db.past.steady
    ensures db.past == NewPast(db.index.contents)
  {
    hide Database.Core, Indexed, Remembers, LiveFrom, Exact, Restores, TableOf;
    CoreIndexed(db);
    IndexUnique(db.pager.layout, db.past.rooted, db.index.contents);
  }

  /** DB::close, which checkpoints and starts the log anew, then DB::open: the same rows in the same slots. */
  method CloseReopen(db: Database, capacity: nat) returns (s: Status, again: Database)
    requires db.Valid()
    modifies db`past, db`events, db.pager, db.pager.cache, db.wal
    ensures s == Ok || s == Fault
    ensures s == Fault ==> db.Faultable() || again.Faultable()
    ensures s == Ok ==> again.Valid() && again.pager.layout == old(db.pager.layout) && again.past == NewPast(again.index.contents)
    ensures s == Ok ==> again.Table() == old(db.Map()) && again.Durable() && CleanLog(again)
  {
    hide Database.Core, Indexed, TableOf, Explains, W.EncodeLog, W.Header, W.AllFramed, LayoutAfter, ReplayAll, LogLength;
    again := db;
    s := db.Checkpoint();
    if s == Ok {
      EmptyLog();
      ghost var n;
      s, again, n := CrashReopen(db, |db.wal.file|, capacity);
      if s == Ok {
        NothingSince(again);
      }
    }
  }

  lemma EmptyLog()
    ensures W.AllFramed([]) && W.Header() + W.EncodeLog([]) == W.Header() && LogLength([], 0) == W.HEADER_SIZE
  {
    hide W.Header;
  }
}
