/** Pager of src/pager.cpp: page ids, the cache in front of the file, write-back on
    eviction and at a checkpoint. */
module Paging {
  import opened Bytes
  import opened Folds
  import opened Rows
  import opened Pages
  import opened Storage
  import opened Cache
  import opened Layouts
  import opened Index
  import opened Lz4Codec
  import opened Lz4Limits

  /** Every recorded offset is a fixed slot whose contents are `disk[pid]`. */
  ghost predicate Stored(file: seq<byte>, offsets: map<nat, nat>, disk: map<nat, seq<Row>>, schema: Schema) {
    && offsets.Keys == disk.Keys
    && forall pid :: pid in disk ==> offsets[pid] == SlotOffset(pid) && OnDisk(file, pid, disk[pid], schema) && PageFits(disk[pid], schema)
  }

  /** Every page is resident or on disk; a clean resident page equals its slot. */
  ghost predicate Cached(frames: map<nat, Frame>, layout: Layout, disk: map<nat, seq<Row>>, schema: Schema) {
    && (forall pid :: pid in frames ==> pid < |layout| && Holds(frames[pid], layout[pid], schema))
    && (forall pid :: pid in frames && !frames[pid].dirty ==> pid in disk && disk[pid] == layout[pid])
    && (forall pid :: 0 <= pid < |layout| && pid !in frames ==> pid in disk && disk[pid] == layout[pid])
    && (forall pid :: pid in disk ==> pid < |layout|)
  }

  /** What the file held at the last checkpoint, still exactly there unless a dirty page was evicted since. */
  ghost predicate Baselined(base: Layout, stolen: bool, disk: map<nat, seq<Row>>, pageCount: nat) {
    && pageCount == |base|
    && (!stolen ==> (forall pid :: pid in disk <==> 0 <= pid < |base|) && forall pid :: 0 <= pid < |base| ==> disk[pid] == base[pid])
  }

  /** Page `pid` held exactly these rows at some moment since the last checkpoint. */
  ghost predicate SeenAs(seen: seq<Layout>, pid: nat, rows: seq<Row>) {
    exists k :: 0 <= k < |seen| && pid < |seen[k]| && seen[k][pid] == rows
  }

  /** Whatever was evicted when, every checkpointed page is on disk as it was at some moment since. */
  ghost predicate Traced(base: Layout, seen: seq<Layout>, layout: Layout, disk: map<nat, seq<Row>>) {
    && |base| <= |layout|
    && forall pid :: 0 <= pid < |base| ==> pid in disk && SeenAs(seen, pid, disk[pid]) && SeenAs(seen, pid, layout[pid])
  }

  lemma EvictTraced(base: Layout, seen: seq<Layout>, layout: Layout, disk: map<nat, seq<Row>>, pid: nat)
    requires Traced(base, seen, layout, disk) && pid < |layout|
    ensures Traced(base, seen, layout, disk[pid := layout[pid]])
  {
    hide SeenAs;
  }

  lemma StoreTraced(base: Layout, seen: seq<Layout>, layout: Layout, disk: map<nat, seq<Row>>, layout': Layout)
    requires Traced(base, seen, layout, disk) && |layout'| == |layout|
    ensures Traced(base, seen + [layout'], layout', disk)
  {
    var seen' := seen + [layout'];
    forall pid | 0 <= pid < |base| ensures SeenAs(seen', pid, disk[pid]) && SeenAs(seen', pid, layout'[pid]) {
      assert SeenAs(seen, pid, disk[pid]);
      var k :| 0 <= k < |seen| && pid < |seen[k]| && seen[k][pid] == disk[pid];
      assert seen'[k] == seen[k];
      assert seen'[|seen|] == layout';
    }
  }

  lemma FreshTraced(layout: Layout, disk: map<nat, seq<Row>>)
    requires Baselined(layout, false, disk, |layout|)
    ensures Traced(layout, [layout], layout, disk)
  {
    assert [layout][0] == layout;
  }

  lemma WriteStored(file: seq<byte>, offsets: map<nat, nat>, disk: map<nat, seq<Row>>, schema: Schema,
                    pid: nat, rows: seq<Row>, c: Compression, blob: seq<byte>)
    requires Stored(file, offsets, disk, schema)
    requires PageFits(rows, schema) && pid < 0x1_0000_0000 && |EncodeRows(rows)| <= PAGE_SIZE
    requires |blob| <= PAGE_SIZE && Expanded(Tag(c), blob, |EncodeRows(rows)|) == Some(EncodeRows(rows))
    ensures var f := PWrite(file, SlotOffset(pid), SlotBytes(pid, |rows|, EncodeRows(rows), c, blob));
            Stored(f, offsets[pid := SlotOffset(pid)], disk[pid := rows], schema)
  {
    hide EncodeRows, Expanded, PWrite, SlotBytes, SlotOffset, OnDisk, Tag, ByteSize, AllTyped;
    WritesSlot(file, pid, rows, schema, c, blob);
  }

  /** Whatever a full cache drops next is on disk as it is. */
  ghost predicate VictimClean(lru: seq<nat>, frames: map<nat, Frame>, capacity: nat) {
    lru != [] && |lru| >= capacity ==> lru[|lru| - 1] in frames && !frames[lru[|lru| - 1]].dirty
  }

  lemma DirtyCleaned(frames: map<nat, Frame>, pid: nat)
    requires pid in frames
    ensures Dirty(frames[pid := frames[pid].(dirty := false)]) == Dirty(frames) - {pid}
  {}

  lemma DirtyIff(frames: map<nat, Frame>, pid: nat)
    ensures pid in Dirty(frames) <==> pid in frames && frames[pid].dirty
  {}

  /** Dropping a clean victim. */
  lemma SpareCached(lru: seq<nat>, frames: map<nat, Frame>, capacity: nat, layout: Layout, disk: map<nat, seq<Row>>, schema: Schema)
    requires Cached(frames, layout, disk, schema) && VictimClean(lru, frames, capacity)
    ensures Cached(Spared(lru, frames, capacity), layout, disk, schema)
    ensures Dirty(Spared(lru, frames, capacity)) == Dirty(frames)
  {
    hide Holds;
  }

  /** A loaded page enters the cache. */
  lemma AdmitCached(frames: map<nat, Frame>, layout: Layout, disk: map<nat, seq<Row>>, schema: Schema, f: Frame)
    requires Cached(frames, layout, disk, schema) && f.id !in frames && f.id < |layout|
    requires Holds(f, layout[f.id], schema) && !f.dirty && f.id in disk && disk[f.id] == layout[f.id]
    ensures Cached(frames[f.id := f], layout, disk, schema) && Dirty(frames[f.id := f]) == Dirty(frames)
  {
    hide Holds;
  }

  /** A new page enters the cache. */
  lemma NewCached(frames: map<nat, Frame>, layout: Layout, disk: map<nat, seq<Row>>, schema: Schema, f: Frame)
    requires Cached(frames, layout, disk, schema) && f.id == |layout| && f.id !in frames && f.dirty && Holds(f, [], schema)
    ensures Cached(frames[f.id := f], layout + [[]], disk, schema) && Dirty(frames[f.id := f]) == Dirty(frames) + {f.id}
  {
    hide Holds;
  }

  lemma EmptyHolds(f: Frame, schema: Schema)
    requires f.data == [] && f.rowCount == 0 && f.rowOffsets == []
    ensures Holds(f, [], schema)
  {}

  lemma GrownTraced(base: Layout, seen: seq<Layout>, layout: Layout, disk: map<nat, seq<Row>>)
    requires Traced(base, seen, layout, disk)
    ensures Traced(base, seen, layout + [[]], disk)
  {
    hide SeenAs;
  }

  lemma GrownFits(layout: Layout, schema: Schema)
    requires PagesFit(layout, schema)
    ensures PagesFit(layout + [[]], schema)
  {}

  lemma SparedLess(lru: seq<nat>, frames: map<nat, Frame>, capacity: nat)
    ensures forall id :: id in Spared(lru, frames, capacity) ==> id in frames
  {}

  lemma NotYet(frames: map<nat, Frame>, layout: Layout, disk: map<nat, seq<Row>>, schema: Schema)
    requires Cached(frames, layout, disk, schema)
    ensures |layout| !in frames
  {}

  lemma StoreCached(frames: map<nat, Frame>, layout: Layout, disk: map<nat, seq<Row>>, schema: Schema, f: Frame, rows: seq<Row>)
    requires Cached(frames, layout, disk, schema) && f.id in frames && f.dirty && Holds(f, rows, schema)
    ensures Cached(frames[f.id := f], layout[f.id := rows], disk, schema)
  {
    hide Holds;
  }

  /** A flushed page is clean and on disk. */
  lemma FlushCached(frames: map<nat, Frame>, layout: Layout, disk: map<nat, seq<Row>>, schema: Schema, pid: nat)
    requires Cached(frames, layout, disk, schema) && pid in frames
    ensures Cached(frames[pid := frames[pid].(dirty := false)], layout, disk[pid := layout[pid]], schema)
  {
    assert Holds(frames[pid].(dirty := false), layout[pid], schema);
    hide Holds;
  }

  /** What the pager holds and where: the pages, the cache's order of use, which resident
      pages are dirty, and what the file holds. */
  datatype Pool = Pool(layout: Layout, lru: seq<nat>, dirty: set<nat>, disk: map<nat, seq<Row>>)

  /** A full cache writes its victim back, if dirty. */
  function RoomMade(p: Pool, capacity: nat): Pool {
    if p.lru == [] || |p.lru| < capacity then p else
    var v := p.lru[|p.lru| - 1];
    if v in p.dirty && v < |p.layout| then p.(dirty := p.dirty - {v}, disk := p.disk[v := p.layout[v]]) else p
  }

  lemma RoomIs(p: Pool, capacity: nat)
    ensures p.lru == [] || |p.lru| < capacity ==> RoomMade(p, capacity) == p
    ensures p.lru != [] && |p.lru| >= capacity && p.lru[|p.lru| - 1] !in p.dirty ==> RoomMade(p, capacity) == p
    ensures p.lru != [] && |p.lru| >= capacity && p.lru[|p.lru| - 1] in p.dirty && p.lru[|p.lru| - 1] < |p.layout| ==>
              var v := p.lru[|p.lru| - 1]; RoomMade(p, capacity) == Pool(p.layout, p.lru, p.dirty - {v}, p.disk[v := p.layout[v]])
  {}

  /** One access: a miss makes room, and the page becomes the most recently used. */
  function Touched(p: Pool, pid: nat, capacity: nat): Pool {
    (if pid in p.lru then p else RoomMade(p, capacity)).(lru := Used(p.lru, pid, capacity))
  }

  /** new_page. */
  function Grown(p: Pool, capacity: nat): Pool {
    var pid := |p.layout|;
    var q := Touched(p, pid, capacity);
    q.(layout := p.layout + [[]], dirty := q.dirty + {pid})
  }

  /** A resident page changed in place. */
  function Rewritten(p: Pool, pid: nat, rows: seq<Row>): Pool {
    if pid < |p.layout| then p.(layout := p.layout[pid := rows], dirty := p.dirty + {pid}) else p
  }

  /** get_or_create_writable_page for a row. */
  function Prepared(p: Pool, row: Row, capacity: nat): Pool {
    var q := if p.layout == [] then p else Touched(p, |p.layout| - 1, capacity);
    if HasRoom(p.layout, row) then q else Grown(q, capacity)
  }

  /** A row inserted. */
  function Filled(p: Pool, row: Row, capacity: nat): Pool {
    var q, pid := Prepared(p, row, capacity), Place(p.layout, row).page;
    if pid < |q.layout| then Rewritten(q, pid, q.layout[pid] + [row]) else q
  }

  /** A row erased: its page is looked up, compacted, and looked up again to repair the index. */
  function Emptied(p: Pool, at: Loc, capacity: nat): Pool {
    var q := Touched(p, at.page, capacity);
    if InLayout(q.layout, at) then Touched(Rewritten(q, at.page, Without(q.layout[at.page], at.slot)), at.page, capacity) else q
  }

  lemma EmptiedIs(p: Pool, at: Loc, capacity: nat)
    requires InLayout(p.layout, at)
    ensures Emptied(p, at, capacity)
         == Touched(Rewritten(Touched(p, at.page, capacity), at.page, Without(p.layout[at.page], at.slot)), at.page, capacity)
  {
    hide Rewritten;
    TouchedKeeps(p, at.page, capacity);
  }

  lemma TouchedKeeps(p: Pool, pid: nat, capacity: nat)
    ensures Touched(p, pid, capacity).layout == p.layout
  {}

  /** flush_all, as far as page `n`. */
  function Flushed(p: Pool, n: nat, capacity: nat): Pool
    requires n <= |p.layout|
    ensures Flushed(p, n, capacity).layout == p.layout
  {
    if n == 0 then p else
    var q, pid := Flushed(p, n - 1, capacity), n - 1;
    if pid in q.dirty then q.(lru := Used(q.lru, pid, capacity), dirty := q.dirty - {pid}, disk := q.disk[pid := q.layout[pid]]) else q
  }

  lemma FlushNone(p: Pool, capacity: nat)
    ensures Flushed(p, 0, capacity) == p
  {}

  lemma FlushNext(p: Pool, pid: nat, capacity: nat)
    requires pid < |p.layout|
    ensures var q := Flushed(p, pid, capacity);
            Flushed(p, pid + 1, capacity)
            == if pid in q.dirty then q.(lru := Used(q.lru, pid, capacity), dirty := q.dirty - {pid}, disk := q.disk[pid := p.layout[pid]]) else q
  {}

  function Dirty(frames: map<nat, Frame>): set<nat> { set id | id in frames && frames[id].dirty }

  class Pager {
    const schema: Schema
    const compression: Compression
    const cache: PageCache
    var file: seq<byte>
    var pageCount: nat
    var nextPageId: nat
    var pageOffsets: map<nat, nat>
    ghost var layout: Layout
    ghost var disk: map<nat, seq<Row>>
    ghost var base: Layout
    ghost var stolen: bool
    ghost var seen: seq<Layout>

    /** Everything but the checkpoint bookkeeping. */
    ghost predicate ValidPages()
      reads this, cache
    {
      && cache.Valid()
      && nextPageId == |layout| < 0x1_0000_0000
      && PagesFit(layout, schema)
      && Stored(file, pageOffsets, disk, schema)
      && Cached(cache.frames, layout, disk, schema)
    }

    ghost predicate Valid()
      reads this, cache
    {
      ValidFor(|layout|)
    }

    /** Sound, where a dirty page has been evicted only if the cache cannot hold `n` pages. */
    ghost predicate ValidFor(n: nat)
      reads this, cache
    {
      && ValidPages()
      && PagesFit(base, schema) && |base| < 0x1_0000_0000
      && Baselined(base, stolen, disk, pageCount)
      && (stolen ==> n > cache.capacity)
      && Traced(base, seen, layout, disk)
    }

    ghost function Pooled(): Pool
      reads this, cache
    {
      Pool(layout, cache.lru, Dirty(cache.frames), disk)
    }

    lemma PooledLayout()
      ensures Pooled().layout == layout && Pooled().lru == cache.lru && Pooled().disk == disk
    {}

    /** A pager over a file whose pages have not been looked at yet. */
    constructor (schema: Schema, compression: Compression, capacity: nat, file: seq<byte>, pageCount: nat, ghost base: Layout)
      ensures ValidPages() && fresh(cache)
      ensures this.schema == schema && this.compression == compression
      ensures this.file == file && this.pageCount == pageCount && this.base == base && !stolen && seen == [base]
      ensures layout == [] && disk == map[] && pageOffsets == map[] && cache.lru == [] && cache.frames == map[] && cache.capacity == if capacity == 0 then 1 else capacity
    {
      this.schema, this.compression := schema, compression;
      cache := new PageCache(capacity);
      this.file, this.pageCount, nextPageId, pageOffsets := file, pageCount, 0, map[];
      layout, disk, this.base, stolen, seen := [], map[], base, false, [base];
    }

    /** write_page_to_disk: whatever its size, the payload is written and the slot reads
        back. False when it is larger than the slot and runs into the next one, where the
        model stops; otherwise no other page is affected. */
    method WritePageToDisk(f: Frame, ghost rows: seq<Row>) returns (ok: bool, ghost blob: seq<byte>)
      requires Stored(file, pageOffsets, disk, schema) && f.id < 0x1_0000_0000
      requires PageFits(rows, schema) && Holds(f, rows, schema)
      modifies this`file, this`pageOffsets, this`disk
      ensures |blob| < 0x1_0000_0000 && |f.data| < 0x1_0000_0000 && (ok <==> |blob| <= PAGE_SIZE)
      ensures file == PWrite(old(file), SlotOffset(f.id), SlotBytes(f.id, f.rowCount, f.data, compression, blob))
      ensures Load(file, SlotOffset(f.id)) == Some(Image(f.id, f.rowCount, f.data))
      ensures ok ==> Stored(file, pageOffsets, disk, schema) && disk == old(disk)[f.id := rows]
      ensures |blob| == BlobSize(compression, f.data)
      ensures ok <==> !Overruns(compression, rows)
    {
      hide PlannedSize, EncodeRows, Expanded, PWrite, HeaderBytes, OnDisk, Tag, ByteSize, AllTyped, Stored, Offsets, SlotOffset, Load;
      EncodedSize(rows, schema);
      var bytes := CompressPage(compression, f.data);
      blob := bytes;
      ok := |bytes| <= PAGE_SIZE;
      LoadsWritten(file, SlotOffset(f.id), f.id, f.rowCount, Tag(compression), f.data, bytes);
      if ok {
        WriteStored(file, pageOffsets, disk, schema, f.id, rows, compression, bytes);
        disk := disk[f.id := rows];
      }
      file := PWrite(file, SlotOffset(f.id), SlotBytes(f.id, f.rowCount, f.data, compression, bytes));
      pageOffsets := pageOffsets[f.id := SlotOffset(f.id)];
    }

    /** load_from_disk: read, decompress, rebuild the row offsets. */
    method LoadFromDisk(pid: nat) returns (f: Frame)
      requires Stored(file, pageOffsets, disk, schema) && pid in disk
      ensures f.id == pid && !f.dirty && Holds(f, disk[pid], schema)
    {
      hide EncodeRows, SlotOffset, AllTyped, ByteSize, Offsets, Load;
      var image := ReadSlot(file, pid);
      var offsets := RebuildRowOffsets(image.value.data, image.value.rowCount, schema, disk[pid]);
      f := Frame(pid, image.value.data, image.value.rowCount, false, offsets.value);
    }

    /** on_cache_evict, when the cache is full: a dirty victim is written to its slot and is
        clean. Room is made for a page that makes `n` in all, more than the cache holds. */
    method MakeRoom(ghost n: nat) returns (ok: bool)
      requires Valid() && |layout| <= n && (|cache.lru| >= cache.capacity ==> n > cache.capacity)
      modifies this`file, this`pageOffsets, this`disk, this`stolen, cache`frames
      ensures ok ==> ValidFor(n) && Pooled() == RoomMade(old(Pooled()), cache.capacity) && cache.frames.Keys == old(cache.frames).Keys
      ensures ok ==> VictimClean(cache.lru, cache.frames, cache.capacity)
      ensures ok <==> !Blocked(old(Pooled()), compression, cache.capacity)
      ensures !ok ==> SomeOverruns(compression, layout)
    {
      hide Stored, Cached, Overruns, PageFits, PagesFit, NoDup, Traced, Recent, Dirty, RoomMade, PageCache.Valid;
      ok := true;
      cache.Positive();
      RoomIs(Pooled(), cache.capacity);
      if |cache.lru| < cache.capacity {
        return;
      }
      var victim := cache.Victim();
      VictimHolds(cache.frames, layout, disk, schema, victim);
      DirtyIff(cache.frames, victim);
      if cache.frames[victim].dirty {
        EvictTraced(base, seen, layout, disk, victim);
        ok := WriteBack(victim);
        stolen := true;
      }
    }

    /** Writes a resident page to its slot and marks it clean. */
    method WriteBack(pid: nat) returns (ok: bool)
      requires ValidPages() && pid in cache.frames
      modifies this`file, this`pageOffsets, this`disk, cache`frames
      ensures ok ==> ValidPages() && cache.frames == old(cache.frames)[pid := old(cache.frames)[pid].(dirty := false)]
      ensures ok ==> Dirty(cache.frames) == Dirty(old(cache.frames)) - {pid} && disk == old(disk)[pid := layout[pid]]
      ensures pid < |layout| && (ok <==> !Overruns(compression, layout[pid]))
    {
      hide Stored, Cached, Overruns, PageFits, NoDup, Holds, Recent, Dirty, PWrite, Load, SlotBytes;
      VictimHolds(cache.frames, layout, disk, schema, pid);
      FlushCached(cache.frames, layout, disk, schema, pid);
      DirtyCleaned(cache.frames, pid);
      var f := cache.frames[pid];
      ghost var blob;
      ok, blob := WritePageToDisk(f, layout[pid]);
      if ok {
        cache.Replace(f.(dirty := false));
      }
    }

    /** get_page and get_mutable_page: the resident page, or the one loaded from disk.
        Reading changes neither the layout nor what was checkpointed. */
    method GetPage(pid: nat) returns (ok: bool, f: Frame)
      requires Valid() && pid < |layout|
      modifies this`file, this`pageOffsets, this`disk, this`stolen, cache
      ensures ok ==> Valid() && f.id == pid && Holds(f, layout[pid], schema)
      ensures ok ==> pid in cache.frames && cache.frames[pid] == f
      ensures pid in old(cache.frames) ==> ok && cache.frames == old(cache.frames)
      ensures ok ==> Pooled() == Touched(old(Pooled()), pid, cache.capacity)
      ensures ok <==> pid in old(cache.frames) || !Blocked(old(Pooled()), compression, cache.capacity)
      ensures !ok ==> SomeOverruns(compression, layout)
    {
      hide Stored, Cached, SomeOverruns, Blocked, PageFits, PagesFit, NoDup, Holds, Baselined, Traced, Recent, Used, Spared, Dirty;
      var hit := cache.Get(pid);
      if hit.Some? {
        VictimHolds(cache.frames, layout, disk, schema, pid);
        return true, hit.value;
      }
      NotResident(cache.frames, layout, disk, schema, pid);
      f := LoadFromDisk(pid);
      ResidentBelow(cache, layout, disk, schema, pid);
      ok := MakeRoom(|layout|);
      if ok {
        SpareCached(cache.lru, cache.frames, cache.capacity, layout, disk, schema);
        ghost var left := Spared(cache.lru, cache.frames, cache.capacity);
        SparedLess(cache.lru, cache.frames, cache.capacity);
        AdmitCached(left, layout, disk, schema, f);
        cache.Put(f);
      }
    }

    /** new_page: the next id, empty and dirty. False when the 32-bit ids run out. */
    method NewPage() returns (ok: bool, f: Frame)
      requires Valid()
      modifies this, cache
      ensures ok ==> Valid() && layout == old(layout) + [[]] && f.id == |old(layout)| && Holds(f, [], schema)
      ensures ok ==> f.id in cache.frames && cache.frames[f.id] == f
      ensures ok ==> Pooled() == Grown(old(Pooled()), cache.capacity)
      ensures base == old(base) && seen == old(seen)
      ensures ok <==> |old(layout)| < 0xFFFF_FFFF && !Blocked(old(Pooled()), compression, cache.capacity)
      ensures !ok ==> layout == old(layout) && (|layout| >= 0xFFFF_FFFF || SomeOverruns(compression, layout))
    {
      hide Stored, Cached, SomeOverruns, Blocked, NoDup, Baselined, Traced, PagesFit, Used, Spared, Recent, Dirty, RoomMade, Holds, PageCache.Valid;
      f := Frame(nextPageId, [], 0, true, []);
      ok := nextPageId < 0xFFFF_FFFF;
      if !ok {
        return;
      }
      NotYet(cache.frames, layout, disk, schema);
      cache.Listed(nextPageId);
      ResidentCount(cache, layout, disk, schema);
      ok := MakeRoom(|layout| + 1);
      if !ok {
        return;
      }
      EmptyHolds(f, schema);
      SpareCached(cache.lru, cache.frames, cache.capacity, layout, disk, schema);
      ghost var left := Spared(cache.lru, cache.frames, cache.capacity);
      SparedLess(cache.lru, cache.frames, cache.capacity);
      NewCached(left, layout, disk, schema, f);
      GrownTraced(base, seen, layout, disk);
      GrownFits(layout, schema);
      nextPageId := nextPageId + 1;
      layout := layout + [[]];
      cache.Put(f);
    }

    /** The page held by reference has been changed in place. */
    method Store(f: Frame, ghost rows: seq<Row>)
      requires Valid() && f.id in cache.frames && f.dirty && Holds(f, rows, schema) && PageFits(rows, schema)
      modifies this`layout, this`seen, cache`frames
      ensures Valid() && f.id < |old(layout)| && layout == old(layout)[f.id := rows] && seen == old(seen) + [layout]
      ensures cache.frames == old(cache.frames)[f.id := f]
      ensures Pooled() == Rewritten(old(Pooled()), f.id, rows)
    {
      hide Stored, Cached, PageFits, NoDup, Holds, Baselined, Traced, Recent, PageCache.Valid;
      VictimHolds(cache.frames, layout, disk, schema, f.id);
      StoreCached(cache.frames, layout, disk, schema, f, rows);
      StoreTraced(base, seen, layout, disk, layout[f.id := rows]);
      layout := layout[f.id := rows];
      seen := seen + [layout];
      cache.Replace(f);
    }

    /** flush_all's loop, as far as page `n`: dirty pages in id order. The page count still
        says what it did, and every counted page is on file as of some moment. */
    method FlushPages(n: nat) returns (ok: bool)
      requires Valid() && n <= |layout|
      modifies this`file, this`pageOffsets, this`disk, cache
      ensures ok ==> Flushing(n) && Pooled() == Flushed(old(Pooled()), n, cache.capacity)
      ensures !ok ==> SomeOverruns(compression, layout)
    {
      hide Stored, Cached, Overruns, PagesFit, NoDup, Holds, Traced, Recent, Used, Dirty, Flushed, PageCache.Valid;
      ghost var start := Pooled();
      FlushNone(start, cache.capacity);
      for pid := 0 to n
        invariant ValidPages() && Traced(base, seen, layout, disk) && Pooled() == Flushed(start, pid, cache.capacity)
        invariant forall p :: 0 <= p < pid && p in cache.frames ==> !cache.frames[p].dirty
      {
        FlushNext(start, pid, cache.capacity);
        DirtyIff(cache.frames, pid);
        if pid in cache.frames && cache.frames[pid].dirty {
          EvictTraced(base, seen, layout, disk, pid);
          var hit := cache.Get(pid);
          ok := WriteBack(pid);
          if !ok {
            return;
          }
        }
      }
      ok := true;
    }

    /** flush_all: the dirty pages, then the page count. The file now holds the layout. */
    method FlushAll() returns (ok: bool)
      requires Valid()
      modifies this`file, this`pageOffsets, this`disk, this`stolen, this`base, this`pageCount, this`seen, cache
      ensures ok ==> Valid() && base == layout && !stolen && seen == [layout]
      ensures ok ==> Pooled() == Flushed(old(Pooled()), |layout|, cache.capacity)
      ensures !ok ==> SomeOverruns(compression, layout)
    {
      hide Pager.Valid, SomeOverruns, Flushed;
      CountPages();
      ok := FlushSteps(nextPageId + 1);
    }

    lemma CountPages()
      requires Valid()
      ensures nextPageId == |layout|
    {
      hide Stored, Cached, PagesFit, Baselined, Traced;
    }

    /** The first `n` steps of flush_all, as a crash may leave it: one for each page in id
        order, then the page count. */
    method FlushSteps(n: nat) returns (ok: bool)
      requires Valid()
      modifies this`file, this`pageOffsets, this`disk, this`stolen, this`base, this`pageCount, this`seen, cache
      ensures !ok ==> SomeOverruns(compression, layout)
      ensures ok && n <= |layout| ==> Flushing(n) && Pooled() == Flushed(old(Pooled()), n, cache.capacity)
      ensures ok && n <= |layout| ==> base == old(base) && seen == old(seen) && pageCount == old(pageCount)
      ensures ok && n > |layout| ==> Valid() && base == layout && !stolen && seen == [layout]
      ensures ok && n > |layout| ==> Pooled() == Flushed(old(Pooled()), |layout|, cache.capacity)
    {
      hide Stored, Cached, SomeOverruns, NoDup, Holds, Traced, Recent, Used, Dirty, Flushed, PageCache.Valid, PagesFit;
      ok := FlushPages(if n < nextPageId then n else nextPageId);
      if ok && n > nextPageId {
        AllFlushed(cache.frames, layout, disk, schema);
        pageCount := nextPageId;
        base, stolen, seen := layout, false, [layout];
        FreshTraced(layout, disk);
      }
    }

    /** In the middle of flush_all: the first `n` pages are on file as they are, and every
        counted page as of some moment. */
    ghost predicate Flushing(n: nat)
      reads this, cache
    {
      && ValidPages() && Traced(base, seen, layout, disk)
      && forall p :: 0 <= p < n && p in cache.frames ==> !cache.frames[p].dirty
    }

    /** One readable slot of recover's pass over the file. */
    method Adopt(pid: nat, ghost rows: seq<Row>) returns (f: Frame)
      requires Stored(file, pageOffsets, disk, schema)
      requires OnDisk(file, pid, rows, schema) && PageFits(rows, schema)
      modifies this`nextPageId, this`pageOffsets, this`disk
      ensures Stored(file, pageOffsets, disk, schema) && disk == old(disk)[pid := rows] && nextPageId == pid + 1
      ensures Holds(f, rows, schema)
    {
      hide OnDisk, PageFits, Holds;
      pageOffsets := pageOffsets[pid := SlotOffset(pid)];
      disk := disk[pid := rows];
      f := LoadFromDisk(pid);
      nextPageId := pid + 1;
    }
  }

  lemma NotResident(frames: map<nat, Frame>, layout: Layout, disk: map<nat, seq<Row>>, schema: Schema, pid: nat)
    requires Cached(frames, layout, disk, schema) && pid !in frames && pid < |layout|
    ensures pid in disk && disk[pid] == layout[pid]
  {}

  lemma AllFlushed(frames: map<nat, Frame>, layout: Layout, disk: map<nat, seq<Row>>, schema: Schema)
    requires Cached(frames, layout, disk, schema)
    requires forall p :: 0 <= p < |layout| && p in frames ==> !frames[p].dirty
    ensures Baselined(layout, false, disk, |layout|)
  {
    hide Holds;
  }

  /** No more pages are resident than exist. */
  lemma ResidentCount(cache: PageCache, layout: Layout, disk: map<nat, seq<Row>>, schema: Schema)
    requires cache.Valid() && Cached(cache.frames, layout, disk, schema)
    ensures |cache.lru| <= |layout|
  {
    hide Holds, NoDup;
    forall i | 0 <= i < |cache.lru| ensures cache.lru[i] < |layout| {
      assert cache.lru[i] in cache.lru;
    }
    Pigeonhole(cache.lru, |layout|);
  }

  /** A page that is not resident is one more. */
  lemma ResidentBelow(cache: PageCache, layout: Layout, disk: map<nat, seq<Row>>, schema: Schema, pid: nat)
    requires cache.Valid() && Cached(cache.frames, layout, disk, schema) && pid !in cache.frames && pid < |layout|
    ensures |cache.lru| < |layout|
  {
    hide Holds, Recent;
    var s := [pid] + cache.lru;
    forall i | 0 <= i < |cache.lru| ensures cache.lru[i] < |layout| && cache.lru[i] != pid {
      assert cache.lru[i] in cache.lru;
    }
    ConsNoDup(pid, cache.lru);
    hide NoDup;
    Pigeonhole(s, |layout|);
  }

  lemma {:induction false} Pigeonhole(s: seq<nat>, n: nat)
    requires NoDup(s) && forall i :: 0 <= i < |s| ==> s[i] < n
    ensures |s| <= n
  {
    if s != [] {
      assert s[0] < n;
      if n - 1 in s {
        var k :| 0 <= k < |s| && s[k] == n - 1;
        Pigeonhole(s[..k] + s[k + 1..], n - 1);
      } else {
        forall i | 0 <= i < |s| ensures s[i] < n - 1 { assert s[i] in s; }
        Pigeonhole(s, n - 1);
      }
    }
  }

  lemma VictimHolds(frames: map<nat, Frame>, layout: Layout, disk: map<nat, seq<Row>>, schema: Schema, pid: nat)
    requires Cached(frames, layout, disk, schema) && pid in frames && PagesFit(layout, schema)
    ensures pid < |layout| && Holds(frames[pid], layout[pid], schema) && PageFits(layout[pid], schema)
    ensures !frames[pid].dirty ==> pid in disk && disk[pid] == layout[pid]
  {}

  /** The page's payload is larger than its slot. */
  ghost predicate Overruns(c: Compression, rows: seq<Row>) {
    c.LZ4? && (forall i :: 0 <= i < |rows| ==> RowSize(rows[i]) <= PAGE_SIZE) && BlobSize(c, EncodeRows(rows)) > PAGE_SIZE
  }

  /** That takes more than 8159 bytes. */
  lemma OverrunsLarge(c: Compression, rows: seq<Row>, schema: Schema)
    requires AllStorable(rows, schema) && Overruns(c, rows)
    ensures ByteSize(rows) > 8159
  {
    hide PlannedSize, EncodeRows, ByteSize;
    EncodedSize(rows, schema);
    if ByteSize(rows) <= 8159 { SmallFits(EncodeRows(rows)); }
  }

  /** The page that a full cache must write back next does not fit its slot. */
  ghost predicate Blocked(p: Pool, c: Compression, capacity: nat) {
    && p.lru != [] && |p.lru| >= capacity
    && var v := p.lru[|p.lru| - 1]; v in p.dirty && v < |p.layout| && Overruns(c, p.layout[v])
  }

  ghost predicate SomeOverruns(c: Compression, layout: Layout) {
    exists p :: 0 <= p < |layout| && Overruns(c, layout[p])
  }
}
