/** The database engine of src/db.cpp over its pager, primary index, log and
    secondary indexes: one map from id to row. */
module Engine {
  import opened Bytes
  import opened Rows
  import opened Pages
  import opened Layouts
  import opened Index
  import opened Replay
  import opened History
  import opened Contract
  import opened Secondary
  import opened Paging
  import opened Cache
  import opened Tree
  import opened Keys
  import opened Filter
  import opened Folds
  import W = Wal

  class Database {
    const schema: Schema
    const index: Manager
    const pager: Pager
    const wal: W.Log
    var trees: Trees
    ghost var past: Past
    ghost var events: seq<Event>

    /** All parts are sound and agree on one layout. */
    ghost predicate Core()
      reads this, index, pager, pager.cache, wal, trees.Values
    {
      && index.Valid()
      && pager.Valid() && pager.schema == schema
      && wal.Valid()
      && Indexed(pager.layout, index.contents)
      && TreesOk(trees, schema, Listing(pager.layout))
    }

    /** The state while the log is replayed, on any file: every index entry leads to its row. */
    ghost predicate Loose()
      reads this, index, pager, pager.cache, wal
    {
      && index.Valid()
      && pager.Valid() && pager.schema == schema
      && wal.Valid()
      && Points(pager.layout, index.contents)
      && trees == map[]
    }

    /** Every row has its index entry, so that the pages stand for a map. */
    ghost predicate Sound()
      reads index, pager
    {
      Indexed(pager.layout, index.contents)
    }

    ghost predicate Valid()
      reads this, index, pager, pager.cache, wal, trees.Values
    {
      && Core()
      && Explains(past, wal.records, events, pager.base, pager.layout, pager.seen, schema)
    }

    /** The map the database stands for. */
    ghost function Table(): Table
      reads index, pager
      requires Indexed(pager.layout, index.contents)
    {
      TableOf(pager.layout, index.contents)
    }

    /** The map of a sound database. */
    ghost function Map(): Table
      reads this, index, pager, pager.cache, wal, trees.Values
      requires Valid()
    {
      Table()
    }

    /** The only ways an operation can end in Fault: page ids are used up, or the payload of
        some page is larger than its slot. */
    ghost predicate Faultable()
      reads pager
    {
      || |pager.layout| >= 0xFFFF_FFFF
      || SomeOverruns(pager.compression, pager.layout)
    }

    constructor (schema: Schema, index: Manager, pager: Pager, wal: W.Log, ghost past: Past)
      ensures this.schema == schema && this.index == index && this.pager == pager && this.wal == wal
      ensures trees == map[] && this.past == past && events == []
    {
      this.schema, this.index, this.pager, this.wal, trees := schema, index, pager, wal, map[];
      this.past, events := past, [];
    }

    /** Reading pages through the cache leaves the database sound. */
    twostate lemma StillValid()
      requires old(Valid()) && pager.Valid()
      requires unchanged(this) && unchanged(index) && unchanged(wal) && unchanged(trees.Values)
      requires pager.layout == old(pager.layout) && pager.base == old(pager.base) && pager.seen == old(pager.seen)
      ensures Valid() && Map() == old(Map())
    {
      hide SomeOverruns, Blocked, Manager.Valid, Pager.Valid, W.Log.Valid, Explains, Indexed, TableOf, BPTree.Valid;
    }

    /** get_or_create_writable_page: the last page if it takes the row, else a new one. */
    method WritablePage(row: Row, need: nat) returns (ok: bool, f: Frame)
      requires pager.Valid() && pager.schema == schema && need == RowSize(row)
      modifies pager, pager.cache
      ensures !ok ==> Faultable() && pager.layout == old(pager.layout)
      ensures ok ==> pager.Valid() && pager.base == old(pager.base) && pager.seen == old(pager.seen) && pager.schema == schema
      ensures ok ==> f.id < |pager.layout| && f.id in pager.cache.frames && Holds(f, pager.layout[f.id], schema)
      ensures ok ==> Place(old(pager.layout), row) == Loc(f.id, f.rowCount)
      ensures ok ==> Inserted(old(pager.layout), row) == pager.layout[f.id := pager.layout[f.id] + [row]]
      ensures ok ==> pager.Pooled() == Prepared(old(pager.Pooled()), row, pager.cache.capacity)
    {
      hide SomeOverruns, Blocked, Pager.Valid, EncodeRows, Offsets, AllTyped, RowSize, Place, Inserted, ByteSize, Touched, Grown;
      ghost var before := pager.layout;
      var count := PageCount();
      if count > 0 {
        ok, f := pager.GetPage(count - 1);
        if !ok {
          return;
        }
        PageSize(pager, f, count - 1);
        if f.rowCount < MAX_ROWS_PER_PAGE && |f.data| + need <= PAGE_SIZE {
          PlaceLast(before, row);
          return;
        }
      }
      PlaceNew(before, row);
      ok, f := pager.NewPage();
    }

    /** Appends the row to its page and hands back the bytes to log. */
    method PlaceRow(row: Row, need: nat) returns (ok: bool, at: Loc, bytes: seq<byte>)
      requires pager.Valid() && pager.schema == schema && Storable(row, schema) && need == RowSize(row)
      modifies pager, pager.cache
      ensures !ok ==> Faultable() && pager.layout == old(pager.layout)
      ensures ok ==> pager.Valid() && pager.base == old(pager.base) && pager.seen == old(pager.seen) + [pager.layout]
      ensures ok ==> at == Place(old(pager.layout), row) && pager.layout == Inserted(old(pager.layout), row)
      ensures ok ==> at.page < |pager.layout| < 0x1_0000_0000 && at.slot <= MAX_ROWS_PER_PAGE && bytes == EncodeRow(row)
      ensures ok ==> pager.Pooled() == Filled(old(pager.Pooled()), row, pager.cache.capacity)
    {
      hide SomeOverruns, Blocked, Pager.Valid, EncodeRows, EncodeRow, Offsets, AllTyped, RowSize, Place, Inserted, HasRoom, Holds, ByteSize, Prepared, Rewritten;
      ghost var before := pager.layout;
      at, bytes := Loc(0, 0), [];
      var f;
      PagerFits(pager);
      ok, f := WritablePage(row, need);
      if !ok {
        return;
      }
      ghost var rows := pager.layout[f.id];
      PageBound(pager);
      PagerFits(pager);
      InsertFitsAt(before, pager.layout, f.id, row, schema);
      FieldCount(row, schema);
      var page := new Page(f);
      var appended := page.AppendRow(row, schema, rows);
      at := Loc(f.id, f.rowCount);
      HoldsCount(f, rows, schema);
      bytes := RowBytes(page.Image(), f.rowCount, schema, rows + [row]);
      pager.Store(page.Image(), rows + [row]);
      PageBound(pager);
    }

    /** Enters a row just placed into the primary index and every tree. */
    method IndexRow(row: Row, at: Loc, ghost layout: Layout)
      requires index.Valid() && Indexed(layout, index.contents) && row.id !in index.contents && |row.fields| == |schema|
      requires TreesOk(trees, schema, Listing(layout)) && at == Place(layout, row)
      modifies index, trees.Values
      ensures index.Valid() && Indexed(Inserted(layout, row), index.contents)
      ensures TableOf(Inserted(layout, row), index.contents) == TableOf(layout, old(index.contents))[row.id := row]
      ensures TreesOk(trees, schema, Listing(Inserted(layout, row)))
    {
      hide SomeOverruns, Blocked, Manager.Valid, Place, Inserted, TreesOk, Indexed, TableOf, Listing, IdsOf, NoRepeats;
      ghost var contents := index.contents;
      ListingIds(layout, contents);
      ListingInserted(layout, row);
      var added := index.Insert(row.id, at);
      InsertIndexed(layout, contents, row);
      FileRow(trees, schema, row, true, Listing(layout));
    }

    /** wal_->sync() at the end of an operation. */
    method SyncLog()
      requires Valid()
      modifies wal`file, wal`writeBuf, wal`currentOffset, wal`bufDirty, wal`synced, wal`durable, wal`syncs
      ensures Valid() && Durable() && Map() == old(Map()) && wal.syncs <= old(wal.syncs) + 1
    {
      hide SomeOverruns, Blocked, Manager.Valid, Pager.Valid, W.Log.Valid, Explains, TreesOk, Indexed, TableOf;
      wal.Sync();
    }

    /** The first half of wal_->sync(): written, not yet forced to disk. */
    method WriteLog()
      requires Valid()
      modifies wal`file, wal`writeBuf, wal`currentOffset, wal`bufDirty
      ensures Valid() && Map() == old(Map()) && wal.writeBuf == [] && wal.file == old(wal.file + wal.writeBuf)
    {
      hide SomeOverruns, Blocked, Manager.Valid, Pager.Valid, W.Log.Valid, Explains, TreesOk, Indexed, TableOf;
      wal.FlushWriteBuffer();
    }

    /** Logs one event, durably if asked. */
    method AppendLog(r: W.Record, ghost e: Event, syncNow: bool)
      requires wal.Valid() && W.Framed(r)
      modifies this`events, wal`file, wal`writeBuf, wal`currentOffset, wal`bufDirty, wal`records, wal`synced, wal`durable, wal`syncs
      ensures wal.Valid() && events == old(events) + [e]
      ensures wal.records == old(wal.records) + [r]
      ensures if syncNow then Durable() && wal.syncs <= old(wal.syncs) + 1 else wal.synced == old(wal.synced) && wal.syncs == old(wal.syncs)
    {
      hide SomeOverruns, Blocked, W.Log.Valid, W.Encode, W.Framed;
      var _ := wal.WriteRecord(r);
      if syncNow {
        wal.Sync();
      }
      events := events + [e];
    }

    /** log_insert_direct: the history is that of the page with the row. */
    method LogInsert(row: Row, at: Loc, bytes: seq<byte>, syncNow: bool, ghost layout: Layout, ghost seen: seq<Layout>, ghost m: map<nat, Loc>)
      requires wal.Valid() && Explains(past, wal.records, events, pager.base, layout, seen, schema) && Indexed(layout, m)
      requires Storable(row, schema) && row.id !in m && at == Place(layout, row) && bytes == EncodeRow(row)
      requires at.page < 0x1_0000_0000 && at.slot <= MAX_ROWS_PER_PAGE
      modifies this`events, wal`file, wal`writeBuf, wal`currentOffset, wal`bufDirty, wal`records, wal`synced, wal`durable, wal`syncs
      ensures wal.Valid() && events == old(events) + [Event(Put(row), Some(at))]
      ensures Explains(past, wal.records, events, pager.base, Inserted(layout, row), seen + [Inserted(layout, row)], schema)
      ensures old(wal.records) <= wal.records
      ensures if syncNow then Durable() && wal.syncs <= old(wal.syncs) + 1 else wal.synced == old(wal.synced) && wal.syncs == old(wal.syncs)
    {
      hide SomeOverruns, Blocked, W.Log.Valid, Explains, W.Framed, Inserted, Place, Storable, EncodeRow, Indexed;
      ghost var e := Event(Put(row), Some(at));
      var r := W.Record(W.INSERT, row.id, at.page, at.slot, bytes);
      InsertLogged(past, wal.records, events, pager.base, schema, layout, seen, m, e, r);
      AppendLog(r, e, syncNow);
    }

    /** insert_unlocked once the row has been accepted. */
    method InsertNew(row: Row, need: nat, syncNow: bool) returns (s: Status)
      requires Valid() && Storable(row, schema) && need == RowSize(row) && row.id !in index.contents
      modifies this`events, index, pager, pager.cache, wal, trees.Values
      ensures s == Ok || s == Fault
      ensures s == Fault ==> Faultable()
      ensures s == Ok ==> Valid() && Map() == old(Map())[row.id := row]
      ensures s == Ok ==> pager.layout == Inserted(old(pager.layout), row) && pager.base == old(pager.base)
      ensures s == Ok ==> events == old(events) + [Event(Put(row), Some(Place(old(pager.layout), row)))]
      ensures s == Ok ==> pager.Pooled() == Filled(old(pager.Pooled()), row, pager.cache.capacity)
      ensures s == Fault ==> pager.layout == old(pager.layout)
      ensures wal.base == old(wal.base)
      ensures s == Ok ==> old(wal.records) <= wal.records
      ensures s == Ok ==> if syncNow then Durable() && wal.syncs <= old(wal.syncs) + 1 else wal.synced == old(wal.synced) && wal.syncs == old(wal.syncs)
    {
      hide SomeOverruns, Blocked, Database.Valid, Database.Map, Manager.Valid, Pager.Valid, W.Log.Valid, Storable, RowSize, Place, Inserted, EncodeRow, Explains, TreesOk, Indexed, TableOf, W.Encode, W.Framed, Filled, Pager.Pooled;
      ValidParts();
      FieldCount(row, schema);
      ghost var layout, seen, contents, table := pager.layout, pager.seen, index.contents, Map();
      assert table.Keys == contents.Keys;
      var ok, at, bytes := PlaceRow(row, need);
      if !ok {
        return Fault;
      }
      LogInsert(row, at, bytes, syncNow, layout, seen, contents);
      IndexRow(row, at, layout);
      Assembled();
      s := Ok;
    }

    /** insert_unlocked: errors are found before anything changes. */
    method InsertUnlocked(row: Row, syncNow: bool) returns (s: Status)
      requires Valid()
      modifies this`events, index, pager, pager.cache, wal, trees.Values
      ensures s == Fault ==> Faultable()
      ensures s != Fault ==> Valid() && s == InsertCheck(old(Map()), {}, row, schema) && pager.base == old(pager.base)
      ensures s == Ok ==> Map() == old(Map())[row.id := row] && Listing(pager.layout) == old(Listing(pager.layout)) + [row]
      ensures s == Ok ==> events == old(events) + [Event(Put(row), Some(Place(old(pager.layout), row)))]
      ensures s == Ok ==> pager.Pooled() == Filled(old(pager.Pooled()), row, pager.cache.capacity)
      ensures s == Fault ==> pager.layout == old(pager.layout)
      ensures s == Ok ==> old(wal.records) <= wal.records
      ensures s == Ok ==> if syncNow then Durable() && wal.syncs <= old(wal.syncs) + 1 else wal.synced == old(wal.synced) && wal.syncs == old(wal.syncs)
      ensures s != Fault && s != Ok ==> Untouched(old(pager.layout), old(index.contents), old(events), old(wal.records)) && unchanged(wal)
      ensures wal.base == old(wal.base)
    {
      hide SomeOverruns, Blocked, Manager.Valid, Pager.Valid, W.Log.Valid, Place, Explains, TreesOk, Indexed, AllTyped, RowSize, Filled, Pager.Pooled, Listing, Inserted;
      if |row.fields| != |schema| {
        return BadRow;
      }
      var known := index.Find(row.id);
      if known.Some? {
        return DuplicateKey;
      }
      var size := RowByteSize(row, schema);
      if size.None? || size.value > PAGE_SIZE {
        return BadRow;
      }
      ListingInserted(pager.layout, row);
      s := InsertNew(row, size.value, syncNow);
    }

    /** Nothing a caller or a later recovery could notice has changed. */
    ghost predicate Untouched(layout: Layout, contents: map<nat, Loc>, es: seq<Event>, records: seq<W.Record>)
      reads this, pager, index, wal
    {
      pager.layout == layout && index.contents == contents && events == es && wal.records == records
    }

    /** repair_slots_after_erase: every id still on the page is pointed at the slot that now holds it. */
    method RepairSlots(pid: nat, ghost layout: Layout, ghost m: map<nat, Loc>, ghost id: nat)
      requires index.Valid() && pager.Valid() && pager.schema == schema
      requires Points(layout, m) && id in m && m[id].page == pid && InLayout(layout, m[id])
      requires pager.layout == Erased(layout, m[id]) && pid in pager.cache.frames
      requires index.contents == m - {id}
      modifies index, pager`file, pager`pageOffsets, pager`disk, pager`stolen, pager.cache
      ensures index.Valid() && pager.Valid() && Repaired(layout, m, id, index.contents)
      ensures pager.Pooled() == Touched(old(pager.Pooled()), pid, pager.cache.capacity)
    {
      hide SomeOverruns, Blocked, Manager.Valid, Pager.Valid, Points, Erased, Holds, Touched, Pager.Pooled;
      var ids := index.IdsForPage(pid);
      ErasedPage(layout, m[id]);
      var ok, f := pager.GetPage(pid);
      while ids != {}
        invariant index.Valid()
        invariant Repairing(layout, m, id, index.contents, ids)
        modifies index
        decreases ids
      {
        var rid :| rid in ids;
        RepairOne(f, rid, pid, layout, m, id, ids);
        ids := ids - {rid};
      }
      DoneRepairing(layout, m, id, index.contents);
    }

    method RepairOne(f: Frame, rid: nat, pid: nat, ghost layout: Layout, ghost m: map<nat, Loc>, ghost id: nat, ghost left: set<nat>)
      requires index.Valid() && Points(layout, m) && id in m && m[id].page == pid && InLayout(layout, m[id])
      requires Repairing(layout, m, id, index.contents, left) && rid in left
      requires pid < |Erased(layout, m[id])| && Holds(f, Erased(layout, m[id])[pid], schema)
      modifies index
      ensures index.Valid() && Repairing(layout, m, id, index.contents, left - {rid})
    {
      hide SomeOverruns, Blocked, Manager.Valid, Points, Erased, Holds;
      var slot := FindRow(f, rid, schema, Erased(layout, m[id])[pid]);
      StillThere(layout, m, id, rid);
      if slot >= 0 {
        index.UpdateSlot(rid, slot);
      }
    }

    /** The page, slot and contents of an indexed row. */
    method LookRow(id: nat, at: Loc) returns (ok: bool, f: Frame, slot: nat, row: Row)
      requires pager.Valid() && pager.schema == schema
      requires InLayout(pager.layout, at) && RowIn(pager.layout, at).id == id
      modifies pager`file, pager`pageOffsets, pager`disk, pager`stolen, pager.cache
      ensures !ok ==> Faultable()
      ensures ok ==> pager.Valid() && slot == at.slot && row == RowIn(pager.layout, at)
      ensures ok ==> pager.Pooled() == Touched(old(pager.Pooled()), at.page, pager.cache.capacity)
      ensures ok ==> f.id == at.page && f.id in pager.cache.frames && Holds(f, pager.layout[at.page], schema)
    {
      hide SomeOverruns, Blocked, Pager.Valid, Holds, Touched, Pager.Pooled;
      slot, row := 0, Row(0, []);
      ok, f := pager.GetPage(at.page);
      if !ok {
        return;
      }
      slot := SlotOf(f, id, at.slot, schema, pager.layout[at.page]);
      var r := GetRow(f, slot, schema, pager.layout[at.page]);
      row := r.value;
    }

    /** Compacts the page in place. */
    method EraseFrom(f: Frame, slot: nat)
      requires pager.Valid() && pager.schema == schema && f.id < |pager.layout|
      requires f.id in pager.cache.frames && Holds(f, pager.layout[f.id], schema) && slot < |pager.layout[f.id]|
      modifies pager`layout, pager`seen, pager.cache`frames
      ensures pager.Valid() && pager.seen == old(pager.seen) + [pager.layout] && pager.layout == Erased(old(pager.layout), Loc(f.id, slot))
      ensures f.id in pager.cache.frames
      ensures pager.Pooled() == Rewritten(old(pager.Pooled()), f.id, Without(old(pager.layout)[f.id], slot))
    {
      hide SomeOverruns, Blocked, Pager.Valid, Holds, Without, PageFits, Rewritten, Pager.Pooled;
      ghost var rows := pager.layout[f.id];
      PagerFits(pager);
      var page := new Page(f);
      var erased := page.EraseRow(slot, schema, rows);
      ErasedFits(pager.layout, Loc(f.id, slot), schema);
      pager.Store(page.Image(), Without(rows, slot));
    }

    /** erase_unlocked: log, compact, drop from the index, repair the page's slots, drop from the trees. */
    method EraseUnlocked(id: nat) returns (s: Status)
      requires Valid()
      modifies this`events, index, pager, pager.cache, wal, trees.Values
      ensures s == Fault ==> Faultable()
      ensures s != Fault ==> Valid() && s == (if id in old(Map()) then Ok else NotFound) && pager.base == old(pager.base)
      ensures s == Ok ==> Map() == old(Map()) - {id} && Listing(pager.layout) == Lacking(old(Listing(pager.layout)), {id})
      ensures s == Ok ==> events == old(events) + [Event(Del(id), Some(old(index.contents)[id]))]
      ensures s == Ok ==> old(wal.records) <= wal.records && wal.synced == old(wal.synced) && wal.syncs == old(wal.syncs)
      ensures s == Ok ==> pager.Pooled() == Emptied(old(pager.Pooled()), old(index.contents)[id], pager.cache.capacity) && |pager.layout| == |old(pager.layout)|
      ensures s == Fault ==> pager.layout == old(pager.layout)
      ensures s == NotFound ==> Untouched(old(pager.layout), old(index.contents), old(events), old(wal.records)) && unchanged(wal)
      ensures wal.base == old(wal.base)
    {
      hide SomeOverruns, Blocked, Manager.Valid, Pager.Valid, W.Log.Valid, Explains, TreesOk, Indexed, Emptied, Pager.Pooled, Listing, Lacking;
      var entry := index.Find(id);
      if entry.None? {
        return NotFound;
      }
      ghost var pool, layout := pager.Pooled(), pager.layout;
      pager.PooledLayout();
      ListingEmptied(layout, index.contents, id, pool, pager.cache.capacity);
      s := ErasePresent(id, entry.value);
      pager.PooledLayout();
    }

    /** Drops an id whose row has just left its page, and repairs the page's other ids. */
    method Unindex(id: nat, at: Loc, ghost layout: Layout)
      requires index.Valid() && pager.Valid() && pager.schema == schema
      requires Points(layout, index.contents) && id in index.contents && at == index.contents[id] && InLayout(layout, at)
      requires pager.layout == Erased(layout, at) && at.page in pager.cache.frames
      modifies index, pager`file, pager`pageOffsets, pager`disk, pager`stolen, pager.cache
      ensures index.Valid() && pager.Valid() && Points(pager.layout, index.contents)
      ensures index.contents.Keys == old(index.contents).Keys - {id}
      ensures pager.Pooled() == Touched(old(pager.Pooled()), at.page, pager.cache.capacity)
      ensures Sound() <==> Indexed(layout, old(index.contents))
      ensures Sound() ==> TableOf(pager.layout, index.contents) == TableOf(layout, old(index.contents)) - {id}
    {
      hide SomeOverruns, Blocked, Manager.Valid, Pager.Valid, Indexed, Points, TableOf, Repaired, Erased, Touched, Pager.Pooled;
      ghost var contents := index.contents;
      var removed := index.Remove(id);
      RepairSlots(at.page, layout, contents, id);
      PointsErase(layout, contents, id, index.contents);
      RepairedKeys(layout, contents, id, index.contents);
      if Indexed(layout, contents) {
        EraseIndexed(layout, contents, id, index.contents);
      }
    }

    /** Takes an erased row out of the primary index and every tree. */
    method UnindexRow(row: Row, at: Loc, ghost layout: Layout)
      requires index.Valid() && pager.Valid() && pager.schema == schema && |row.fields| == |schema|
      requires Indexed(layout, index.contents) && row.id in index.contents && at == index.contents[row.id]
      requires InLayout(layout, at) && RowIn(layout, at) == row
      requires TreesOk(trees, schema, Listing(layout))
      requires pager.layout == Erased(layout, at) && at.page in pager.cache.frames
      modifies index, pager`file, pager`pageOffsets, pager`disk, pager`stolen, pager.cache, trees.Values
      ensures index.Valid() && pager.Valid() && Indexed(pager.layout, index.contents)
      ensures TableOf(pager.layout, index.contents) == TableOf(layout, old(index.contents)) - {row.id}
      ensures TreesOk(trees, schema, Listing(pager.layout))
      ensures pager.Pooled() == Touched(old(pager.Pooled()), at.page, pager.cache.capacity)
    {
      hide SomeOverruns, Blocked, Manager.Valid, Pager.Valid, Indexed, Points, TableOf, Erased, TreesOk, Touched, Pager.Pooled, Listing, Lacking, UniqueIds, IdsOf, NoRepeats;
      IndexedPoints(layout, index.contents);
      Located(layout, index.contents, row.id);
      ListingIds(layout, index.contents);
      IndexedDiffer(layout, index.contents);
      ListingErased(layout, at);
      Unindex(row.id, at, layout);
      FileRow(trees, schema, row, false, Listing(layout));
    }

    method ErasePresent(id: nat, at: Loc) returns (s: Status)
      requires Valid() && id in index.contents && at == index.contents[id]
      modifies this`events, index, pager, pager.cache, wal, trees.Values
      ensures s == Ok || s == Fault
      ensures s == Fault ==> Faultable()
      ensures s == Ok ==> Valid() && Map() == old(Map()) - {id} && pager.base == old(pager.base)
      ensures s == Ok ==> events == old(events) + [Event(Del(id), Some(at))]
      ensures s == Ok ==> old(wal.records) <= wal.records && wal.synced == old(wal.synced) && wal.syncs == old(wal.syncs)
      ensures s == Ok ==> pager.Pooled() == Emptied(old(pager.Pooled()), at, pager.cache.capacity) && |pager.layout| == |old(pager.layout)|
      ensures s == Fault ==> pager.layout == old(pager.layout)
      ensures wal.base == old(wal.base)
    {
      hide SomeOverruns, Blocked, Database.Valid, Database.Map, Manager.Valid, Pager.Valid, W.Log.Valid, Explains, TreesOk, Indexed, TableOf, Repaired, Erased, Holds, W.Framed, Touched, Rewritten, Without, Emptied, Pager.Pooled;
      ValidParts();
      ErasedLength(pager.layout, at);
      ghost var layout, contents, table := pager.layout, index.contents, Map();
      Located(layout, contents, id);
      PageBound(pager);
      StorableRow(pager, at);
      pager.PooledLayout();
      EmptiedIs(pager.Pooled(), at, pager.cache.capacity);
      var ok, f, slot, row := LookRow(id, at);
      if !ok {
        return Fault;
      }
      LogDelete(id, at.page, slot);
      RemoveRow(f, row, at);
      Assembled();
      s := Ok;
    }

    /** log_delete: the history is already that of the page without the row. */
    method LogDelete(id: nat, page: nat, slot: nat)
      requires wal.Valid() && Explains(past, wal.records, events, pager.base, pager.layout, pager.seen, schema)
      requires InLayout(pager.layout, Loc(page, slot)) && RowIn(pager.layout, Loc(page, slot)).id == id
      requires page < 0x1_0000_0000 && slot <= MAX_ROWS_PER_PAGE && id < 0x1_0000_0000
      modifies this`events, wal`file, wal`writeBuf, wal`currentOffset, wal`bufDirty, wal`records, wal`synced, wal`durable, wal`syncs
      ensures wal.Valid() && events == old(events) + [Event(Del(id), Some(Loc(page, slot)))]
      ensures old(wal.records) <= wal.records && wal.synced == old(wal.synced) && wal.syncs == old(wal.syncs)
      ensures var after := Erased(pager.layout, Loc(page, slot));
              Explains(past, wal.records, events, pager.base, after, pager.seen + [after], schema)
    {
      hide SomeOverruns, Blocked, W.Log.Valid, Explains, W.Framed, Erased;
      ghost var e := Event(Del(id), Some(Loc(page, slot)));
      var r := W.Record(W.DELETE, id, page, slot, []);
      EraseLogged(past, wal.records, events, pager.base, schema, pager.layout, pager.seen, e, r);
      AppendLog(r, e, false);
    }

    /** Takes a row just looked up off its page, out of the index and out of every tree. */
    method RemoveRow(f: Frame, row: Row, at: Loc)
      requires index.Valid() && pager.Valid() && pager.schema == schema && |row.fields| == |schema|
      requires Indexed(pager.layout, index.contents) && row.id in index.contents && at == index.contents[row.id]
      requires InLayout(pager.layout, at) && RowIn(pager.layout, at) == row
      requires TreesOk(trees, schema, Listing(pager.layout))
      requires f.id == at.page && f.id in pager.cache.frames && Holds(f, pager.layout[f.id], schema)
      modifies index, pager`layout, pager`seen, pager`file, pager`pageOffsets, pager`disk, pager`stolen, pager.cache, trees.Values
      ensures index.Valid() && pager.Valid() && Indexed(pager.layout, index.contents)
      ensures TableOf(pager.layout, index.contents) == old(TableOf(pager.layout, index.contents)) - {row.id}
      ensures TreesOk(trees, schema, Listing(pager.layout))
      ensures pager.layout == Erased(old(pager.layout), at) && pager.seen == old(pager.seen) + [pager.layout]
      ensures pager.Pooled() == Touched(Rewritten(old(pager.Pooled()), at.page, Without(old(pager.layout)[at.page], at.slot)), at.page, pager.cache.capacity)
    {
      hide SomeOverruns, Blocked, Manager.Valid, Pager.Valid, TreesOk, Indexed, TableOf, Erased, Holds, Touched, Rewritten, Without, Pager.Pooled;
      ghost var layout := pager.layout;
      EraseFrom(f, at.slot);
      UnindexRow(row, at, layout);
    }

    /** Everything logged so far is on disk. */
    ghost predicate Durable()
      reads wal
    {
      wal.durable == |wal.records| && wal.writeBuf == [] && wal.synced == |wal.file|
    }

    /** DB::insert */
    method Insert(row: Row) returns (s: Status)
      requires Valid()
      modifies this`events, index, pager, pager.cache, wal, trees.Values
      ensures s == Fault ==> Faultable()
      ensures s != Fault ==> Valid() && s == InsertCheck(old(Map()), {}, row, schema) && pager.base == old(pager.base)
      ensures s == Ok ==> wal.syncs <= old(wal.syncs) + 1
      ensures s == Ok ==> Map() == old(Map())[row.id := row] && Durable() && Listing(pager.layout) == old(Listing(pager.layout)) + [row]
      ensures s == Ok ==> events == old(events) + [Event(Put(row), Some(Place(old(pager.layout), row)))]
      ensures s == Ok ==> pager.Pooled() == Filled(old(pager.Pooled()), row, pager.cache.capacity)
      ensures s == Fault ==> pager.layout == old(pager.layout)
      ensures s != Fault && s != Ok ==> Untouched(old(pager.layout), old(index.contents), old(events), old(wal.records)) && unchanged(wal)
      ensures wal.base == old(wal.base)
    {
      hide SomeOverruns, Blocked, Database.Core, Explains, Indexed, TableOf, Filled, Pager.Pooled, InsertCheck;
      s := InsertUnlocked(row, true);
    }

    /** DB::erase */
    method Erase(id: nat) returns (s: Status)
      requires Valid()
      modifies this`events, index, pager, pager.cache, wal, trees.Values
      ensures s == Fault ==> Faultable()
      ensures s != Fault ==> Valid() && s == EraseCheck(old(Map()), {}, id) && pager.base == old(pager.base)
      ensures s == Ok ==> wal.syncs <= old(wal.syncs) + 1
      ensures s == Ok ==> Map() == old(Map()) - {id} && Durable() && Listing(pager.layout) == Lacking(old(Listing(pager.layout)), {id})
      ensures s != Fault && s != Ok ==> Untouched(old(pager.layout), old(index.contents), old(events), old(wal.records)) && unchanged(wal)
      ensures wal.base == old(wal.base)
    {
      hide SomeOverruns, Blocked, Database.Valid, Database.Map;
      s := EraseUnlocked(id);
      if s == Ok {
        SyncLog();
      }
    }

    /** Erase and insert of one present id: the row is replaced. */
    method Replace(row: Row) returns (s: Status)
      requires Valid() && row.id in Map() && Storable(row, schema)
      modifies this`events, index, pager, pager.cache, wal, trees.Values
      ensures s == Ok || s == Fault
      ensures s == Fault ==> Faultable()
      ensures s == Ok ==> Valid() && pager.base == old(pager.base) && Map() == old(Map())[row.id := row] && |events| == old(|events|) + 2
      ensures s == Ok ==> Listing(pager.layout) == Moved(old(Listing(pager.layout)), row) && wal.syncs == old(wal.syncs)
      ensures s == Ok ==> pager.Pooled() == Filled(Emptied(old(pager.Pooled()), old(index.contents)[row.id], pager.cache.capacity), row, pager.cache.capacity)
      ensures s == Fault ==> |pager.layout| == |old(pager.layout)|
      ensures wal.base == old(wal.base)
    {
      hide SomeOverruns, Blocked, Database.Valid, Database.Map, Storable, Emptied, Filled, Pager.Pooled;
      FieldCount(row, schema);
      ghost var t := Map();
      s := EraseUnlocked(row.id);
      if s != Fault {
        s := InsertUnlocked(row, false);
        assert (t - {row.id})[row.id := row] == t[row.id := row];
      }
    }

    /** DB::update: the replacement is validated before the old row goes. */
    method Update(row: Row) returns (s: Status)
      requires Valid()
      modifies this`events, index, pager, pager.cache, wal, trees.Values
      ensures s == Fault ==> Faultable()
      ensures s != Fault ==> Valid() && s == UpdateCheck(old(Map()), row, schema) && pager.base == old(pager.base)
      ensures s == Ok ==> Map() == old(Map())[row.id := row] && Durable() && row.id in old(index.contents)
      ensures s == Ok ==> wal.syncs <= old(wal.syncs) + 1
      ensures s == Ok ==> |events| == old(|events|) + 2 && Listing(pager.layout) == Moved(old(Listing(pager.layout)), row)
      ensures s == Ok ==> pager.Pooled() == Filled(Emptied(old(pager.Pooled()), old(index.contents)[row.id], pager.cache.capacity), row, pager.cache.capacity)
      ensures s == Fault ==> |pager.layout| == |old(pager.layout)|
      ensures s != Fault && s != Ok ==> Untouched(old(pager.layout), old(index.contents), old(events), old(wal.records)) && unchanged(wal)
      ensures wal.base == old(wal.base)
    {
      hide SomeOverruns, Blocked, Database.Valid, Database.Map, Manager.Valid, Pager.Valid, W.Log.Valid, Indexed, TableOf, TreesOk, AllTyped, RowSize, Emptied, Filled, Pager.Pooled, Explains;
      ValidParts();
      var known := index.Find(row.id);
      if known.None? {
        return NotFound;
      }
      var good := Acceptable(row);
      if !good {
        return BadRow;
      }
      s := Replace(row);
      if s == Ok {
        SyncLog();
      }
    }

    /** The field count, type and size checks every write makes first. */
    method Acceptable(row: Row) returns (ok: bool)
      ensures ok == Storable(row, schema)
    {
      hide SomeOverruns, Blocked, RowSize;
      if |row.fields| != |schema| {
        return false;
      }
      var size := RowByteSize(row, schema);
      ok := size.Some? && size.value <= PAGE_SIZE;
    }

    /** The validation pass of insert_batch. */
    method CheckInserts(rows: seq<Row>) returns (s: Status)
      requires Valid()
      ensures s == BatchStatus(rows, InsertRule(Map(), schema)) && s != Fault
    {
      hide SomeOverruns, Blocked, Manager.Valid, Pager.Valid, W.Log.Valid, Explains, TreesOk, Indexed, TableOf, Storable, RowIds;
      var seen: set<nat> := {};
      EmptyIds();
      ghost var rule := InsertRule(Map(), schema);
      for i := 0 to |rows|
        invariant BatchStatus(rows[..i], rule) == Ok && seen == RowIds(rows[..i])
      {
        BatchStep(rows, rule, i);
        var known := index.Find(rows[i].id);
        s := Judge(rows[i], if |rows[i].fields| != |schema| then BadRow else if known.Some? || rows[i].id in seen then DuplicateKey else Ok);
        if s != Ok {
          BatchFails(rows, rule, i + 1);
          return;
        }
        MoreRowIds(rows, i);
        seen := seen + {rows[i].id};
      }
      assert rows[..|rows|] == rows;
      s := Ok;
    }

    /** A verdict reached so far, else the type and size check. */
    method Judge(row: Row, earlier: Status) returns (s: Status)
      requires earlier == Ok ==> |row.fields| == |schema|
      ensures s == if earlier != Ok then earlier else if Storable(row, schema) then Ok else BadRow
    {
      hide SomeOverruns, Blocked, Storable;
      s := earlier;
      if s == Ok {
        var good := Acceptable(row);
        s := if good then Ok else BadRow;
      }
    }

    /** DB::insert_batch: all rows or none. */
    method InsertBatch(rows: seq<Row>) returns (s: Status, inserted: nat)
      requires Valid()
      modifies this`events, index, pager, pager.cache, wal, trees.Values
      ensures s == Fault ==> Faultable()
      ensures s != Fault ==> Valid() && s == BatchStatus(rows, InsertRule(old(Map()), schema)) && pager.base == old(pager.base)
      ensures s == Ok ==> Map() == PutAll(old(Map()), rows) && Listing(pager.layout) == old(Listing(pager.layout)) + rows && inserted == |rows|
      ensures s == Ok ==> if rows == [] then unchanged(wal) else Durable() && wal.syncs <= old(wal.syncs) + 1
      ensures s != Fault && s != Ok ==> Untouched(old(pager.layout), old(index.contents), old(events), old(wal.records)) && unchanged(wal)
      ensures wal.base == old(wal.base)
    {
      hide SomeOverruns, Blocked, Database.Valid, Database.Map, Emptied, Filled, InsertRule, InsertCheck, RowIds, Place, Listing;
      inserted := 0;
      if rows == [] {
        return Ok, 0;
      }
      s := CheckInserts(rows);
      if s != Ok {
        return;
      }
      ghost var t := Map();
      for i := 0 to |rows|
        invariant Valid() && s == Ok && pager.base == old(pager.base) && wal.base == old(wal.base) && wal.syncs == old(wal.syncs)
        invariant Map() == PutAll(t, rows[..i]) && Listing(pager.layout) == old(Listing(pager.layout)) + rows[..i]
      {
        BatchPrefix(rows, InsertRule(t, schema), i);
        BatchIsSequence(t, rows, schema, i);
        s := InsertUnlocked(rows[i], false);
        if s == Fault {
          return;
        }
      }
      assert rows[..|rows|] == rows;
      SyncLog();
      inserted := |rows|;
    }

    /** The validation pass of update_batch. */
    method CheckUpdates(rows: seq<Row>) returns (s: Status)
      requires Valid()
      ensures s == BatchStatus(rows, UpdateRule(Map(), schema)) && s != Fault
    {
      hide SomeOverruns, Blocked, Manager.Valid, Pager.Valid, W.Log.Valid, Explains, TreesOk, Indexed, TableOf, Storable, RowIds;
      var seen: set<nat> := {};
      EmptyIds();
      ghost var rule := UpdateRule(Map(), schema);
      for i := 0 to |rows|
        invariant BatchStatus(rows[..i], rule) == Ok && seen == RowIds(rows[..i])
      {
        BatchStep(rows, rule, i);
        var known := index.Find(rows[i].id);
        s := Judge(rows[i], if |rows[i].fields| != |schema| then BadRow else if rows[i].id in seen then DuplicateKey
                            else if known.None? then NotFound else Ok);
        if s != Ok {
          BatchFails(rows, rule, i + 1);
          return;
        }
        MoreRowIds(rows, i);
        seen := seen + {rows[i].id};
      }
      assert rows[..|rows|] == rows;
      s := Ok;
    }

    /** DB::update_batch: all rows or none. */
    method UpdateBatch(rows: seq<Row>) returns (s: Status, updated: nat)
      requires Valid()
      modifies this`events, index, pager, pager.cache, wal, trees.Values
      ensures s == Fault ==> Faultable()
      ensures s != Fault ==> Valid() && s == BatchStatus(rows, UpdateRule(old(Map()), schema)) && pager.base == old(pager.base)
      ensures s == Ok ==> Map() == PutAll(old(Map()), rows) && updated == |rows|
      ensures s == Ok ==> Listing(pager.layout) == Lacking(old(Listing(pager.layout)), RowIds(rows)) + rows
      ensures s == Ok ==> if rows == [] then unchanged(wal) else Durable() && wal.syncs <= old(wal.syncs) + 1
      ensures s != Fault && s != Ok ==> Untouched(old(pager.layout), old(index.contents), old(events), old(wal.records)) && unchanged(wal)
      ensures wal.base == old(wal.base)
    {
      hide SomeOverruns, Blocked, Database.Valid, Database.Map, Emptied, Filled, UpdateRule, UpdateBatchCheck, RowIds, Storable, Listing, Lacking;
      updated := 0;
      if rows == [] {
        LackingEmpty(Listing(pager.layout));
        EmptyIds();
        return Ok, 0;
      }
      s := CheckUpdates(rows);
      if s != Ok {
        return;
      }
      ghost var t, list := Map(), Listing(pager.layout);
      LackingEmpty(list);
      EmptyIds();
      for i := 0 to |rows|
        invariant Valid() && s == Ok && pager.base == old(pager.base) && wal.base == old(wal.base) && wal.syncs == old(wal.syncs)
        invariant Map() == PutAll(t, rows[..i]) && Listing(pager.layout) == Lacking(list, RowIds(rows[..i])) + rows[..i]
      {
        BatchPrefix(rows, UpdateRule(t, schema), i);
        UpdateReady(t, rows, schema, i);
        MovedOne(list, rows, i);
        s := Replace(rows[i]);
        if s == Fault {
          return;
        }
      }
      assert rows[..|rows|] == rows;
      SyncLog();
      updated := |rows|;
    }

    /** The validation pass of erase_batch. */
    method CheckErases(ids: seq<nat>) returns (s: Status)
      requires Valid()
      ensures s == BatchStatus(ids, EraseRule(Map())) && s != Fault
    {
      hide SomeOverruns, Blocked, Manager.Valid, Pager.Valid, W.Log.Valid, Explains, TreesOk, Indexed, TableOf, IdSet;
      var seen: set<nat> := {};
      EmptyIds();
      ghost var rule := EraseRule(Map());
      for i := 0 to |ids|
        invariant BatchStatus(ids[..i], rule) == Ok && seen == IdSet(ids[..i])
      {
        BatchStep(ids, rule, i);
        var known := index.Find(ids[i]);
        s := if ids[i] in seen then DuplicateKey else if known.None? then NotFound else Ok;
        if s != Ok {
          BatchFails(ids, rule, i + 1);
          return;
        }
        MoreIds(ids, i);
        seen := seen + {ids[i]};
      }
      assert ids[..|ids|] == ids;
      s := Ok;
    }

    /** DB::erase_batch: all ids or none; every one of them is deleted. */
    method EraseBatch(ids: seq<nat>) returns (s: Status, deleted: nat)
      requires Valid()
      modifies this`events, index, pager, pager.cache, wal, trees.Values
      ensures s == Fault ==> Faultable()
      ensures s != Fault ==> Valid() && s == BatchStatus(ids, EraseRule(old(Map()))) && pager.base == old(pager.base)
      ensures s == Ok ==> Map() == old(Map()) - IdSet(ids) && deleted == |ids|
      ensures s == Ok ==> Listing(pager.layout) == Lacking(old(Listing(pager.layout)), IdSet(ids))
      ensures s == Ok ==> if ids == [] then unchanged(wal) else Durable() && wal.syncs <= old(wal.syncs) + 1
      ensures s != Fault && s != Ok ==> Untouched(old(pager.layout), old(index.contents), old(events), old(wal.records)) && unchanged(wal)
      ensures wal.base == old(wal.base)
    {
      hide SomeOverruns, Blocked, Database.Valid, Database.Map, Emptied, Filled, EraseRule, EraseCheck, IdSet, Listing, Lacking;
      deleted := 0;
      EmptyIds();
      LackingEmpty(Listing(pager.layout));
      if ids == [] {
        assert Map() - {} == Map();
        return Ok, 0;
      }
      s := CheckErases(ids);
      if s != Ok {
        return;
      }
      ghost var t, list := Map(), Listing(pager.layout);
      assert t - {} == t;
      for i := 0 to |ids|
        invariant Valid() && s == Ok && pager.base == old(pager.base) && wal.base == old(wal.base) && wal.syncs == old(wal.syncs)
        invariant Map() == t - IdSet(ids[..i]) && deleted == i && Listing(pager.layout) == Lacking(list, IdSet(ids[..i]))
      {
        MoreIds(ids, i);
        LackingTwice(list, IdSet(ids[..i]), {ids[i]});
        BatchPrefix(ids, EraseRule(t), i);
        EraseReady(t, ids, i);
        s := EraseUnlocked(ids[i]);
        if s == Fault {
          return;
        }
        deleted := deleted + 1;
      }
      assert ids[..|ids|] == ids;
      SyncLog();
    }

    /** DB::get: the row the map holds, NotFound exactly when it holds none. */
    method Get(id: nat) returns (s: Status, row: Row)
      requires Valid()
      modifies pager`file, pager`pageOffsets, pager`disk, pager`stolen, pager.cache
      ensures s == Fault ==> Faultable()
      ensures s != Fault ==> Valid() && s == if id in Map() then Ok else NotFound
      ensures s == Ok ==> row == Map()[id] && id in index.contents
      ensures s == Ok ==> pager.Pooled() == Touched(old(pager.Pooled()), index.contents[id].page, pager.cache.capacity)
    {
      hide SomeOverruns, Blocked, Manager.Valid, Pager.Valid, W.Log.Valid, Explains, TreesOk, Indexed, TableOf, Holds, Touched, Pager.Pooled;
      row := Row(0, []);
      var entry := index.Find(id);
      if entry.None? {
        return NotFound, row;
      }
      Located(pager.layout, index.contents, id);
      var at := entry.value;
      var ok, f := pager.GetPage(at.page);
      if !ok {
        return Fault, row;
      }
      var r := GetRow(f, at.slot, schema, pager.layout[at.page]);
      s, row := Ok, r.value;
    }

    /** The rows of one page that pass the filter, matched on their bytes. */
    method ScanPage(f: Frame, constraints: Constraints, ghost rows: seq<Row>) returns (out: seq<Row>)
      requires Holds(f, rows, schema)
      ensures out == Select(rows, AcceptRule(constraints, schema))
    {
      hide SomeOverruns, Blocked, Accepts, EncodeRows, EncodeRow, AllTyped, ByteSize, RowSize;
      ghost var p := AcceptRule(constraints, schema);
      out := [];
      for slot := 0 to f.rowCount
        invariant out == Select(rows[..slot], p)
      {
        RowAt(rows, slot, schema);
        var ok := MatchesRaw(constraints, f.data, f.rowOffsets[slot], schema, rows[slot]);
        if ok {
          var r := GetRow(f, slot, schema, rows);
          out := out + [r.value];
        }
        assert rows[..slot + 1] == rows[..slot] + [rows[slot]];
        SelectOne(rows[..slot], rows[slot], p);
      }
      assert rows[..|rows|] == rows;
    }

    /** DB::scan: the accepted rows of the map, each exactly once, in storage order. */
    method Scan(constraints: Constraints) returns (s: Status, out: seq<Row>)
      requires Valid()
      modifies pager`file, pager`pageOffsets, pager`disk, pager`stolen, pager.cache
      ensures s == Ok || s == Fault
      ensures s == Fault ==> Faultable()
      ensures s == Ok ==> Valid() && out == Select(Listing(pager.layout), AcceptRule(constraints, schema))
      ensures s == Ok ==> multiset(out) == RowsWhere(Map(), AcceptRule(constraints, schema))
    {
      hide SomeOverruns, Blocked, Database.Valid, Pager.Valid, Manager.Valid, Indexed, TableOf, AcceptRule, RowsWhere, Select, Flat, Explains;
      ValidParts();
      s, out := ScanPages(constraints);
      if s == Ok {
        StillValid();
        SelectIsTable(pager.layout, index.contents, AcceptRule(constraints, schema));
      }
    }

    /** scan_unlocked's loop over the pages. */
    method ScanPages(constraints: Constraints) returns (s: Status, out: seq<Row>)
      requires pager.Valid() && pager.schema == schema
      modifies pager`file, pager`pageOffsets, pager`disk, pager`stolen, pager.cache
      ensures s == Ok || s == Fault
      ensures s == Fault ==> Faultable()
      ensures s == Ok ==> pager.Valid() && out == Select(Flat(pager.layout, |pager.layout|), AcceptRule(constraints, schema))
    {
      hide SomeOverruns, Blocked, Touched, Pager.Pooled, Pager.Valid, Holds, AcceptRule;
      ghost var p := AcceptRule(constraints, schema);
      out := [];
      for pid := 0 to PageCount()
        invariant pager.Valid() && out == Select(Flat(pager.layout, pid), p)
      {
        var ok, f := pager.GetPage(pid);
        if !ok {
          return Fault, out;
        }
        var more := ScanPage(f, constraints, pager.layout[pid]);
        SelectConcat(Flat(pager.layout, pid), pager.layout[pid], p);
        out := out + more;
      }
      s := Ok;
    }

    lemma ValidParts()
      requires Valid()
      ensures pager.Valid() && pager.schema == schema && index.Valid() && wal.Valid()
      ensures Indexed(pager.layout, index.contents) && TreesOk(trees, schema, Listing(pager.layout))
      ensures Map() == Table() && Map().Keys == index.contents.Keys
      ensures Explains(past, wal.records, events, pager.base, pager.layout, pager.seen, schema)
    {
      hide SomeOverruns, Blocked, Manager.Valid, Pager.Valid, W.Log.Valid, Explains, Indexed, TableOf, TreesOk;
    }

    lemma AssembledLoose()
      requires pager.Valid() && pager.schema == schema && index.Valid() && wal.Valid()
      requires Points(pager.layout, index.contents) && trees == map[]
      ensures Loose()
    {
      hide SomeOverruns, Blocked, Manager.Valid, Pager.Valid, W.Log.Valid, Points;
    }

    lemma Assembled()
      requires pager.Valid() && pager.schema == schema && index.Valid() && wal.Valid()
      requires Indexed(pager.layout, index.contents) && TreesOk(trees, schema, Listing(pager.layout))
      requires Explains(past, wal.records, events, pager.base, pager.layout, pager.seen, schema)
      ensures Valid() && Map() == Table()
    {
      hide SomeOverruns, Blocked, Manager.Valid, Pager.Valid, W.Log.Valid, Explains, Indexed, TableOf, TreesOk;
    }

    function PageCount(): (n: nat)
      reads pager, pager.cache
      requires pager.Valid()
      ensures n == |pager.layout|
    {
      pager.nextPageId
    }

    /** Files the rows of one page under a field. */
    method FilePage(f: Frame, fi: nat, tree: BPTree, ghost rows: seq<Row>, ghost before: seq<Row>)
      requires Holds(f, rows, schema) && fi < |schema| && NoRepeats(IdsOf(before + rows))
      requires tree.Valid() && Secondary.Filed(tree.filed, before, fi)
      modifies tree
      ensures tree.Valid() && Secondary.Filed(tree.filed, before + rows, fi)
    {
      hide SomeOverruns, Blocked, BPTree.Valid, Secondary.Filed, EncodeRows, ByteSize, RowSize, EncodeKey, NoRepeats, IdsOf;
      assert before + rows[..0] == before;
      for slot := 0 to f.rowCount
        invariant tree.Valid() && Secondary.Filed(tree.filed, before + rows[..slot], fi)
      {
        var r := GetRow(f, slot, schema, rows);
        NextNew(before, rows, slot);
        FileNext(tree, fi, r.value, before + rows[..slot]);
        assert before + rows[..slot + 1] == before + rows[..slot] + [rows[slot]];
      }
      assert rows[..|rows|] == rows;
    }

    /** create_index's backfill: every row of every page is filed in a new tree. */
    method BuildTree(fi: nat) returns (ok: bool, tree: BPTree)
      requires Valid() && fi < |schema|
      modifies pager`file, pager`pageOffsets, pager`disk, pager`stolen, pager.cache
      ensures !ok ==> Faultable()
      ensures fresh(tree)
      ensures ok ==> Valid() && tree.Valid() && Secondary.Filed(tree.filed, Listing(pager.layout), fi)
    {
      hide SomeOverruns, Blocked, Touched, Pager.Pooled, Manager.Valid, Pager.Valid, W.Log.Valid, Explains, TreesOk, Indexed, TableOf, Holds, BPTree.Valid, Secondary.Filed, NoRepeats, IdsOf;
      ok := true;
      tree := new BPTree();
      FiledNone(fi);
      ListingIds(pager.layout, index.contents);
      for pid := 0 to PageCount()
        invariant ok && pager.Valid()
        invariant tree.Valid() && Secondary.Filed(tree.filed, Flat(pager.layout, pid), fi)
        modifies tree, pager`file, pager`pageOffsets, pager`disk, pager`stolen, pager.cache
      {
        var f;
        ok, f := pager.GetPage(pid);
        if !ok {
          return;
        }
        FlatPrefix(pager.layout, pid + 1, |pager.layout|);
        FilePage(f, fi, tree, pager.layout[pid], Flat(pager.layout, pid));
      }
      StillValid();
    }

    /** DB::create_index: builds the tree from the stored rows; an existing index is kept. */
    method CreateIndex(name: string) returns (s: Status)
      requires Valid()
      modifies this`trees, pager`file, pager`pageOffsets, pager`disk, pager`stolen, pager.cache
      ensures s == Fault ==> Faultable()
      ensures s != Fault ==> Valid() && s == (if FieldPos(schema, name) < 0 then UnknownField else Ok)
      ensures trees.Keys == if s == Ok then old(trees).Keys + {name} else old(trees).Keys
      ensures fresh(trees.Values - old(trees).Values)
    {
      hide SomeOverruns, Blocked, Manager.Valid, Pager.Valid, W.Log.Valid, Explains, TreesOk, Indexed, TableOf, Holds, FieldPos, BPTree.Valid, Secondary.Filed, Listing;
      var fi := FieldIndex(schema, name);
      if fi < 0 {
        return UnknownField;
      }
      if name in trees {
        return Ok;
      }
      var ok, tree := BuildTree(fi);
      if !ok {
        return Fault;
      }
      AddTree(trees, schema, Listing(pager.layout), name, tree);
      trees := trees[name := tree];
      s := Ok;
    }

    /** DB::drop_index */
    method DropIndex(name: string)
      requires Valid()
      modifies this`trees
      ensures Valid() && trees == old(trees) - {name}
    {
      hide SomeOverruns, Blocked, Manager.Valid, Pager.Valid, W.Log.Valid, Explains, Indexed, TableOf;
      trees := trees - {name};
    }

    /** DB::checkpoint: the file now holds the layout and the log is empty. */
    method Checkpoint() returns (s: Status)
      requires Valid()
      modifies this`past, this`events, pager, pager.cache, wal
      ensures s == Ok || s == Fault
      ensures s == Fault ==> Faultable()
      ensures s == Ok ==> Valid() && Map() == old(Map())
      ensures pager.layout == old(pager.layout)
      ensures s == Ok ==> pager.Pooled() == Flushed(old(pager.Pooled()), old(|pager.layout|), pager.cache.capacity)
      ensures s == Ok ==> pager.base == pager.layout && !pager.stolen && events == [] && past == NewPast(index.contents) && wal.records == [] && wal.base == wal.file == W.Header() && Durable()
    {
      hide SomeOverruns, Blocked, Database.Valid, Database.Map, Pager.Valid, W.Header, Flushed, Pager.Pooled;
      ValidParts();
      pager.CountPages();
      s := CheckpointSteps(pager.nextPageId + 2);
    }

    /** The first `n` steps of a checkpoint, as a crash may leave it: the pages, the page
        count, and only then the log. */
    method CheckpointSteps(n: nat) returns (s: Status)
      requires Valid()
      modifies this`past, this`events, pager, pager.cache, wal
      ensures s == Ok || s == Fault
      ensures s == Fault ==> Faultable()
      ensures pager.layout == old(pager.layout)
      ensures n <= |pager.layout| + 1 ==> unchanged(wal) && past == old(past) && events == old(events)
      ensures s == Ok && n <= |pager.layout| ==> pager.Flushing(n) && pager.Pooled() == Flushed(old(pager.Pooled()), n, pager.cache.capacity)
      ensures s == Ok && n <= |pager.layout| ==> pager.base == old(pager.base) && pager.seen == old(pager.seen) && pager.pageCount == old(pager.pageCount)
      ensures s == Ok && n > |pager.layout| ==> pager.Valid() && pager.base == pager.layout && !pager.stolen
      ensures s == Ok && n > |pager.layout| ==> pager.Pooled() == Flushed(old(pager.Pooled()), old(|pager.layout|), pager.cache.capacity)
      ensures s == Ok && n > |pager.layout| + 1 ==> Valid() && Map() == old(Map())
      ensures s == Ok && n > |pager.layout| + 1 ==> events == [] && past == NewPast(index.contents) && wal.records == [] && wal.base == wal.file == W.Header() && Durable()
    {
      hide SomeOverruns, Blocked, Manager.Valid, Pager.Valid, Pager.Flushing, W.Log.Valid, TreesOk, Indexed, TableOf, Explains, W.Header, Flushed, Pager.Pooled;
      pager.CountPages();
      var ok := pager.FlushSteps(n);
      if !ok {
        return Fault;
      }
      if n <= pager.nextPageId + 1 {
        return Ok;
      }
      wal.Clear();
      NothingYet(pager.layout, index.contents, schema);
      past, events := NewPast(index.contents), [];
      s := Ok;
    }

    /** DB::index_range_scan: with or without an index, the rows of the map whose field
        lies in the range, each exactly once; a bound of another type throws when it is used. */
    method IndexRangeScan(name: string, lo: Option<FieldValue>, loInclusive: bool, hi: Option<FieldValue>, hiInclusive: bool)
      returns (s: Status, out: seq<Row>)
      requires Valid()
      modifies pager`file, pager`pageOffsets, pager`disk, pager`stolen, pager.cache
      ensures s == Fault ==> Faultable()
      ensures s != Fault ==> Valid() && s == RangeVerdict(Map(), schema, name in trees, name, lo, loInclusive, hi)
      ensures s == Ok ==> multiset(out) == RowsWhere(Map(), RangeRule(FieldPos(schema, name), lo, loInclusive, hi, hiInclusive))
      ensures s == Ok ==> RangeOrder(out, Listing(pager.layout), name in trees, FieldPos(schema, name), lo, loInclusive, hi, hiInclusive)
    {
      hide SomeOverruns, Blocked, Database.Valid, Database.Map, Pager.Valid, Manager.Valid, W.Log.Valid, Explains, Indexed, TableOf, FieldPos, RangeRule, RowsWhere, TreesOk, RangeVerdict;
      ValidParts();
      s, out := RangeRows(name, lo, loInclusive, hi, hiInclusive);
      if s != Fault {
        StillValid();
      }
    }

    method RangeRows(name: string, lo: Option<FieldValue>, loInclusive: bool, hi: Option<FieldValue>, hiInclusive: bool)
      returns (s: Status, out: seq<Row>)
      requires index.Valid() && pager.Valid() && pager.schema == schema && Indexed(pager.layout, index.contents) && TreesOk(trees, schema, Listing(pager.layout))
      modifies pager`file, pager`pageOffsets, pager`disk, pager`stolen, pager.cache
      ensures s == Fault ==> Faultable()
      ensures s != Fault ==> pager.Valid() && s == RangeVerdict(Table(), schema, name in trees, name, lo, loInclusive, hi)
      ensures s == Ok ==> multiset(out) == RowsWhere(Table(), RangeRule(FieldPos(schema, name), lo, loInclusive, hi, hiInclusive))
      ensures s == Ok ==> RangeOrder(out, Listing(pager.layout), name in trees, FieldPos(schema, name), lo, loInclusive, hi, hiInclusive)
    {
      hide SomeOverruns, Blocked, Pager.Valid, Manager.Valid, Indexed, TableOf, FieldPos, RangeRule, RowsWhere, TreeOk, RangeStatus;
      out := [];
      var fi := FieldIndex(schema, name);
      if fi < 0 {
        return UnknownField, out;
      }
      if name !in trees {
        s, out := ScanRange(fi, lo, loInclusive, hi, hiInclusive);
      } else {
        s, out := IndexRange(trees[name], name, fi, lo, loInclusive, hi, hiInclusive);
      }
    }

    /** The fallback: a full scan, each row compared with the bounds. */
    method ScanRange(fi: nat, lo: Option<FieldValue>, loInclusive: bool, hi: Option<FieldValue>, hiInclusive: bool)
      returns (s: Status, out: seq<Row>)
      requires pager.Valid() && pager.schema == schema && Indexed(pager.layout, index.contents) && fi < |schema|
      modifies pager`file, pager`pageOffsets, pager`disk, pager`stolen, pager.cache
      ensures s == Ok || s == BadBound || s == Fault
      ensures s == Fault ==> Faultable()
      ensures s != Fault ==> pager.Valid() && s == RangeStatus(Table(), false, fi, schema[fi].ftype, lo, loInclusive, hi)
      ensures s == Ok ==> multiset(out) == RowsWhere(Table(), RangeRule(fi, lo, loInclusive, hi, hiInclusive))
      ensures s == Ok ==> RangeOrder(out, Listing(pager.layout), false, fi, lo, loInclusive, hi, hiInclusive)
    {
      hide SomeOverruns, Blocked, Pager.Valid, Indexed, TableOf, Throws, SomeThrow, Flat, RangeRule, Select, RowsWhere;
      WideRows(pager, index.contents);
      s, out := RangePages(fi, lo, loInclusive, hi, hiInclusive);
      if s != Fault {
        ThrowingRow(pager.layout, index.contents, fi, schema[fi].ftype, lo, loInclusive, hi);
        SelectIsTable(pager.layout, index.contents, RangeRule(fi, lo, loInclusive, hi, hiInclusive));
      }
    }

    /** scan_unlocked's loop with the fallback's visitor, which may throw. */
    method RangePages(fi: nat, lo: Option<FieldValue>, loInclusive: bool, hi: Option<FieldValue>, hiInclusive: bool)
      returns (s: Status, out: seq<Row>)
      requires pager.Valid() && pager.schema == schema && fi < |schema|
      requires Wide(Flat(pager.layout, |pager.layout|), |schema|)
      modifies pager`file, pager`pageOffsets, pager`disk, pager`stolen, pager.cache
      ensures s == Ok || s == BadBound || s == Fault
      ensures s == Fault ==> Faultable()
      ensures s != Fault ==> pager.Valid()
      ensures s == BadBound ==> SomeThrow(Flat(pager.layout, |pager.layout|), fi, schema[fi].ftype, lo, loInclusive, hi)
      ensures s == Ok ==> !SomeThrow(Flat(pager.layout, |pager.layout|), fi, schema[fi].ftype, lo, loInclusive, hi)
      ensures s == Ok ==> out == Select(Flat(pager.layout, |pager.layout|), RangeRule(fi, lo, loInclusive, hi, hiInclusive))
    {
      hide SomeOverruns, Blocked, Touched, Pager.Pooled, Pager.Valid, Holds, RangeRule, Ranged, Flat, Wide, SomeThrow;
      out := [];
      ghost var t := schema[fi].ftype;
      RangedNone(pager.layout, fi, t, lo, loInclusive, hi, hiInclusive);
      for pid := 0 to PageCount()
        invariant pager.Valid() && Ranged(Flat(pager.layout, pid), out, fi, t, lo, loInclusive, hi, hiInclusive)
      {
        var ok, f := pager.GetPage(pid);
        if !ok {
          return Fault, out;
        }
        FlatPage(pager.layout, pid);
        WideLess(pager.layout[pid], Flat(pager.layout, |pager.layout|), |schema|);
        var threw, more := RangePage(f, fi, lo, loInclusive, hi, hiInclusive, pager.layout[pid]);
        if threw {
          ThrowMore(pager.layout[pid], Flat(pager.layout, |pager.layout|), fi, t, lo, loInclusive, hi);
          return BadBound, out;
        }
        RangedMore(Flat(pager.layout, pid), out, pager.layout[pid], more, fi, t, lo, loInclusive, hi, hiInclusive);
        out := out + more;
      }
      RangedIs(Flat(pager.layout, |pager.layout|), out, fi, t, lo, loInclusive, hi, hiInclusive);
      s := Ok;
    }

    /** One page of the fallback scan. */
    method RangePage(f: Frame, fi: nat, lo: Option<FieldValue>, loInclusive: bool, hi: Option<FieldValue>, hiInclusive: bool, ghost rows: seq<Row>)
      returns (threw: bool, out: seq<Row>)
      requires Holds(f, rows, schema) && fi < |schema| && Wide(rows, |schema|)
      ensures threw ==> SomeThrow(rows, fi, schema[fi].ftype, lo, loInclusive, hi)
      ensures !threw ==> Ranged(rows, out, fi, schema[fi].ftype, lo, loInclusive, hi, hiInclusive)
    {
      hide SomeOverruns, Blocked, Holds, SomeThrow, RangeRule, AcceptRule, Select;
      var all := ScanPage(f, map[], rows);
      AcceptsAll(rows, schema);
      threw, out := KeepRange(all, fi, schema[fi].ftype, lo, loInclusive, hi, hiInclusive);
    }

    /** The visitor of the fallback scan. */
    method KeepRange(rows: seq<Row>, fi: nat, t: FieldType, lo: Option<FieldValue>, loInclusive: bool, hi: Option<FieldValue>, hiInclusive: bool)
      returns (threw: bool, out: seq<Row>)
      requires forall r :: r in rows ==> fi < |r.fields|
      ensures threw <==> SomeThrow(rows, fi, t, lo, loInclusive, hi)
      ensures !threw ==> out == Select(rows, RangeRule(fi, lo, loInclusive, hi, hiInclusive))
    {
      hide SomeOverruns, Blocked, Selected, Throws, SomeThrow, Select;
      ghost var p := RangeRule(fi, lo, loInclusive, hi, hiInclusive);
      out := [];
      SelectNone(p);
      ThrowConcat([], [], fi, t, lo, loInclusive, hi);
      for i := 0 to |rows|
        invariant out == Select(rows[..i], p)
        invariant !SomeThrow(rows[..i], fi, t, lo, loInclusive, hi)
      {
        assert rows[i] in rows;
        ThrowOne(rows[i], fi, t, lo, loInclusive, hi);
        ThrowConcat(rows[..i], [rows[i]], fi, t, lo, loInclusive, hi);
        var ok;
        threw, ok := Compares(rows[i], fi, t, lo, loInclusive, hi, hiInclusive);
        if threw {
          ThrowMore([rows[i]], rows, fi, t, lo, loInclusive, hi);
          return;
        }
        SelectOne(rows[..i], rows[i], p);
        assert rows[..i + 1] == rows[..i] + [rows[i]];
        if ok {
          out := out + [rows[i]];
        }
      }
      assert rows[..|rows|] == rows;
      threw := false;
    }

    /** Through the tree: matching ids, their locations, then each page once. */
    method IndexRange(tree: BPTree, ghost name: string, fi: nat, lo: Option<FieldValue>, loInclusive: bool, hi: Option<FieldValue>, hiInclusive: bool)
      returns (s: Status, out: seq<Row>)
      requires index.Valid() && pager.Valid() && pager.schema == schema && Indexed(pager.layout, index.contents)
      requires fi < |schema| && TreeOk(tree, name, schema, Listing(pager.layout)) && fi == FieldPos(schema, name)
      modifies pager`file, pager`pageOffsets, pager`disk, pager`stolen, pager.cache
      ensures s == Ok || s == BadBound || s == Fault
      ensures s == Fault ==> Faultable()
      ensures s != Fault ==> pager.Valid() && s == RangeStatus(Table(), true, fi, schema[fi].ftype, lo, loInclusive, hi)
      ensures s == Ok ==> multiset(out) == RowsWhere(Table(), RangeRule(fi, lo, loInclusive, hi, hiInclusive))
      ensures s == Ok ==> RangeOrder(out, Listing(pager.layout), true, fi, lo, loInclusive, hi, hiInclusive)
    {
      hide SomeOverruns, Blocked, Manager.Valid, Pager.Valid, Indexed, TableOf, RangeRule, RowsWhere, FieldPos, HasType, TreeOk;
      out := [];
      if (lo.Some? && !HasType(lo.value, schema[fi].ftype)) || (hi.Some? && !HasType(hi.value, schema[fi].ftype)) {
        return BadBound, out;
      }
      s, out := IndexRows(tree, name, fi, lo, loInclusive, hi, hiInclusive);
    }

    method IndexRows(tree: BPTree, ghost name: string, ghost fi: nat, lo: Option<FieldValue>, loInclusive: bool, hi: Option<FieldValue>, hiInclusive: bool)
      returns (s: Status, out: seq<Row>)
      requires index.Valid() && pager.Valid() && pager.schema == schema && Indexed(pager.layout, index.contents)
      requires TreeOk(tree, name, schema, Listing(pager.layout)) && fi == FieldPos(schema, name)
      modifies pager`file, pager`pageOffsets, pager`disk, pager`stolen, pager.cache
      ensures s == Ok || s == Fault
      ensures s == Fault ==> Faultable()
      ensures s == Ok ==> pager.Valid() && multiset(out) == RowsWhere(Table(), RangeRule(fi, lo, loInclusive, hi, hiInclusive))
      ensures s == Ok ==> RangeOrder(out, Listing(pager.layout), true, fi, lo, loInclusive, hi, hiInclusive)
    {
      hide SomeOverruns, Blocked, Manager.Valid, Pager.Valid, Indexed, TableOf, RangeRule, RowsWhere, FieldPos, NoDup, EncodeKey, InRange, BPTree.Valid, Secondary.Filed, Listing, NoRepeats, IdsOf, OfKey, Ascending, InKeyOrder, IdsUnder, Select, RangeOrder, KeyAt, BoundKey;
      ghost var rows := Listing(pager.layout);
      var loKey := EncodeBound(lo);
      var hiKey := EncodeBound(hi);
      ListingIds(pager.layout, index.contents);
      var items := tree.RangeScan(loKey, loInclusive, hiKey, hiInclusive);
      FiledIds(items, tree.filed, rows, fi, loKey, loInclusive, hiKey, hiInclusive);
      var locs := Locate(items);
      forall i | 0 <= i < |locs| ensures InLayout(pager.layout, locs[i]) { Located(pager.layout, index.contents, items[i].id); }
      s, out := FetchAll(locs);
      if s == Ok {
        LocatedRows(pager.layout, index.contents, items, locs, out);
        FetchedRows(items, tree.filed, rows, fi, out, lo, loInclusive, hi, hiInclusive);
        RangeTable(pager.layout, index.contents, fi, out, lo, loInclusive, hi, hiInclusive);
      }
    }

    method EncodeBound(bound: Option<FieldValue>) returns (key: Option<Key>)
      ensures key == BoundKey(bound)
    {
      key := None;
      if bound.Some? {
        var k := KeyOf(bound.value);
        key := Some(k);
      }
    }

    /** Looks every id up in the primary index. */
    method Locate(items: seq<Item>) returns (locs: seq<Loc>)
      requires index.Valid() && forall x :: x in items ==> x.id in index.contents
      ensures |locs| == |items| && forall i :: 0 <= i < |items| ==> items[i].id in index.contents && locs[i] == index.contents[items[i].id]
    {
      hide SomeOverruns, Blocked, Manager.Valid;
      locs := [];
      for i := 0 to |items|
        invariant |locs| == i
        invariant forall k :: 0 <= k < i ==> items[k].id in index.contents && locs[k] == index.contents[items[k].id]
      {
        assert items[i] in items;
        var entry := index.Find(items[i].id);
        locs := locs + [entry.value];
      }
    }

    /** Loads each page that is needed once and fills the results in request order. */
    method FetchAll(locs: seq<Loc>) returns (s: Status, out: seq<Row>)
      requires pager.Valid() && pager.schema == schema
      requires forall i :: 0 <= i < |locs| ==> InLayout(pager.layout, locs[i])
      modifies pager`file, pager`pageOffsets, pager`disk, pager`stolen, pager.cache
      ensures s == Ok || s == Fault
      ensures s == Fault ==> Faultable()
      ensures s == Ok ==> pager.Valid() && RowsAt(pager.layout, locs, {}, out)
    {
      hide SomeOverruns, Blocked, Touched, Pager.Pooled, Pager.Valid, Holds, RowsAt;
      var results := seq(|locs|, _ => Row(0, []));
      var pages := set i | 0 <= i < |locs| :: locs[i].page;
      RowsStart(pager.layout, locs, pages, results);
      while pages != {}
        invariant pager.Valid() && RowsAt(pager.layout, locs, pages, results)
        invariant forall pid :: pid in pages ==> pid < |pager.layout|
        decreases pages
      {
        var pid :| pid in pages;
        var ok, f := pager.GetPage(pid);
        if !ok {
          return Fault, [];
        }
        ghost var before := results;
        RowsCount(pager.layout, locs, pages, results);
        results := FillPage(f, locs, results, pager.layout);
        RowsFilled(pager.layout, locs, pages, before, results, pid);
        pages := pages - {pid};
      }
      s, out := Ok, results;
    }

    method FillPage(f: Frame, locs: seq<Loc>, before: seq<Row>, ghost layout: Layout) returns (results: seq<Row>)
      requires f.id < |layout| && Holds(f, layout[f.id], schema) && |before| == |locs|
      requires forall i :: 0 <= i < |locs| ==> InLayout(layout, locs[i])
      ensures |results| == |locs|
      ensures forall i :: 0 <= i < |locs| ==> results[i] == if locs[i].page == f.id then RowIn(layout, locs[i]) else before[i]
    {
      hide SomeOverruns, Blocked, Holds;
      results := before;
      for i := 0 to |locs|
        invariant |results| == |locs|
        invariant forall k :: i <= k < |locs| ==> results[k] == before[k]
        invariant forall k :: 0 <= k < i ==> results[k] == if locs[k].page == f.id then RowIn(layout, locs[k]) else before[k]
      {
        if locs[i].page == f.id {
          var r := GetRow(f, locs[i].slot, schema, layout[f.id]);
          results := results[i := r.value];
        }
      }
    }

    /** One record of replay_wal, on any state: an insert of a present id and a delete of
        an absent id are skipped, and a row without an index entry stays without one. */
    method ReplayRecord(r: W.Record, ghost c: Change) returns (ok: bool)
      requires Loose() && Carries(r, c, schema)
      modifies index, pager, pager.cache
      ensures !ok ==> Faultable()
      ensures ok ==> Loose() && pager.base == old(pager.base) && (Sound() <==> old(Sound()))
      ensures ok && Sound() ==> Table() == ReplayOne(old(Table()), c)
      ensures ok ==> index.contents.Keys == KeysAfter(old(index.contents).Keys, c)
      ensures ok ==> pager.Pooled() == PoolEvent(old(pager.Pooled()), EventFor(old(pager.layout), old(index.contents), c), pager.cache.capacity)
      ensures |pager.layout| <= |old(pager.layout)| + 1
      ensures ok ==> pager.layout == Effect(old(pager.layout), EventFor(old(pager.layout), old(index.contents), c))
      ensures ok ==> pager.seen == if EventFor(old(pager.layout), old(index.contents), c).at.Some? then old(pager.seen) + [pager.layout] else old(pager.seen)
    {
      hide SomeOverruns, Blocked, Manager.Valid, Pager.Valid, W.Log.Valid, Indexed, Points, TableOf, EncodeRow, Storable, Inserted, Erased, Filled, Emptied, Pager.Pooled;
      ok := true;
      if r.kind == W.INSERT {
        ok := ReplayInsert(r, c.row);
      } else if r.kind == W.DELETE {
        ok := ReplayDelete(r.rowId);
      }
    }

    method ReplayInsert(r: W.Record, ghost row: Row) returns (ok: bool)
      requires Loose() && Storable(row, schema) && r.rowId == row.id && r.rowData == EncodeRow(row)
      modifies index, pager, pager.cache
      ensures !ok ==> Faultable()
      ensures ok ==> Loose() && pager.base == old(pager.base) && (Sound() <==> old(Sound()))
      ensures ok && Sound() ==> Table() == ReplayOne(old(Table()), Put(row))
      ensures ok ==> index.contents.Keys == old(index.contents).Keys + {row.id}
      ensures ok ==> pager.Pooled() == if row.id in old(index.contents) then old(pager.Pooled()) else Filled(old(pager.Pooled()), row, pager.cache.capacity)
      ensures |pager.layout| <= |old(pager.layout)| + 1
      ensures ok ==> pager.layout == if row.id in old(index.contents) then old(pager.layout) else Inserted(old(pager.layout), row)
      ensures ok ==> pager.seen == if row.id !in old(index.contents) then old(pager.seen) + [pager.layout] else old(pager.seen)
    {
      hide SomeOverruns, Blocked, Touched, Filled, Rewritten, Pager.Pooled, Manager.Valid, Pager.Valid, W.Log.Valid, Indexed, Points, TableOf, EncodeRow, AllTyped, RowSize, Inserted, Place;
      ghost var layout, contents := pager.layout, index.contents;
      InsertedLength(layout, row);
      var known := index.Find(r.rowId);
      if known.Some? {
        return true;
      }
      WholeRow(row);
      FieldCount(row, schema);
      var decoded := DecodeRow(r.rowData, 0, schema, row);
      var size := RowByteSize(decoded, schema);
      var at, bytes;
      ok, at, bytes := PlaceRow(decoded, size.value);
      if ok {
        var added := index.Insert(decoded.id, at);
        PointsInsert(layout, contents, row);
        if Indexed(layout, contents) {
          InsertIndexed(layout, contents, row);
        }
      }
    }

    method ReplayDelete(id: nat) returns (ok: bool)
      requires Loose()
      modifies index, pager, pager.cache
      ensures !ok ==> Faultable()
      ensures ok ==> Loose() && pager.base == old(pager.base) && (Sound() <==> old(Sound()))
      ensures ok && Sound() ==> Table() == old(Table()) - {id}
      ensures ok ==> index.contents.Keys == old(index.contents).Keys - {id}
      ensures ok ==> pager.Pooled() == if id in old(index.contents) then Emptied(old(pager.Pooled()), old(index.contents)[id], pager.cache.capacity) else old(pager.Pooled())
      ensures |pager.layout| == |old(pager.layout)|
      ensures ok ==> pager.seen == if id in old(index.contents) then old(pager.seen) + [pager.layout] else old(pager.seen)
      ensures ok ==> pager.layout == Effect(old(pager.layout), EventFor(old(pager.layout), old(index.contents), Del(id)))
    {
      hide SomeOverruns, Blocked, Touched, Filled, Rewritten, Pager.Pooled, Manager.Valid, Pager.Valid, W.Log.Valid, Indexed, Points, TableOf, Erased, Holds, InLayout, Emptied, Without;
      ghost var layout := pager.layout;
      var entry := index.Find(id);
      if entry.None? {
        assert Sound() ==> Table() - {id} == Table();
        return true;
      }
      Pointed(layout, index.contents, id);
      pager.PooledLayout();
      EmptiedIs(pager.Pooled(), entry.value, pager.cache.capacity);
      ErasedLength(layout, entry.value);
      PageBound(pager);
      var f, slot, row;
      ok, f, slot, row := LookRow(id, entry.value);
      if ok {
        assert InLayout(layout, entry.value);
        SlotIn(layout, entry.value);
        EraseFrom(f, slot);
        Unindex(id, entry.value, layout);
      }
    }
  }

  /** What an event does to the cache and the file. */
  function PoolEvent(p: Pool, e: Event, capacity: nat): Pool {
    if e.at.None? then p else
    match e.change
    case Put(row) => Filled(p, row, capacity)
    case Del(_) => Emptied(p, e.at.value, capacity)
  }

  function PoolAfter(p: Pool, es: seq<Event>, capacity: nat): Pool {
    if es == [] then p else PoolEvent(PoolAfter(p, es[..|es| - 1], capacity), es[|es| - 1], capacity)
  }

  lemma PoolNone(p: Pool, capacity: nat)
    ensures PoolAfter(p, [], capacity) == p
  {}

  lemma PoolMore(p: Pool, es: seq<Event>, e: Event, capacity: nat)
    ensures PoolAfter(p, es + [e], capacity) == PoolEvent(PoolAfter(p, es, capacity), e, capacity)
  {
    assert (es + [e])[..|es|] == es;
  }

  lemma NoTrees(schema: Schema, rows: seq<Row>)
    ensures TreesOk(map[], schema, rows)
  {}

  lemma SlotIn(layout: Layout, at: Loc)
    requires InLayout(layout, at)
    ensures at.page < |layout| && at.slot < |layout[at.page]|
  {}

  lemma WholeRow(row: Row)
    requires RowSize(row) <= PAGE_SIZE
    ensures At(EncodeRow(row), 0, EncodeRow(row))
  {
    hide EncodeRow;
  }

  /** Slot repair with the ids in `left` still to do. */
  ghost predicate Repairing(layout: Layout, m: map<nat, Loc>, id: nat, n: map<nat, Loc>, left: set<nat>)
    requires id in m && InLayout(layout, m[id])
  {
    var l := Erased(layout, m[id]);
    && n.Keys == m.Keys - {id}
    && (forall k :: k in n && m[k].page != m[id].page ==> n[k] == m[k])
    && (forall k :: k in left ==> k in n && n[k].page == m[k].page == m[id].page)
    && (forall k :: k in n && m[k].page == m[id].page && k !in left ==> n[k].page == m[id].page && InLayout(l, n[k]) && RowIn(l, n[k]).id == k)
  }

  lemma FieldCount(row: Row, schema: Schema)
    requires Storable(row, schema)
    ensures |row.fields| == |schema|
  {}

  lemma HoldsCount(f: Frame, rows: seq<Row>, schema: Schema)
    requires Holds(f, rows, schema)
    ensures f.rowCount == |rows|
  {}

  /** What was settled when the file's pages were last read or checkpointed: the log records
      found then and the index of those pages. `exact` vouches that every record carries
      the place where its change happened; `steady` says whether those records restore the
      undeleted rows of those pages. */
  datatype Past = Past(found: seq<W.Record>, rooted: map<nat, Loc>, exact: bool, steady: bool)

  function NewPast(rooted: map<nat, Loc>): Past { Past([], rooted, true, true) }

  /** The events since then: each is legal where it happened, they lead from the file's
      layout to this one, and the log holds their records. */
  ghost predicate Explains(p: Past, records: seq<W.Record>, es: seq<Event>, base: Layout, layout: Layout, seen: seq<Layout>, schema: Schema) {
    && Indexed(base, p.rooted)
    && Logged(p.found + records, es, base, schema) && layout == LayoutAfter(base, es, |es|)
    && Remembers(seen, base, es)
    && LiveFrom(es, |p.found|)
    && (p.exact ==> Exact(p.found + records, es))
    && (p.steady <==> Restores(TableOf(base, p.rooted), Changes(es)[..|p.found|]))
  }

  lemma NothingYet(layout: Layout, m: map<nat, Loc>, schema: Schema)
    requires Indexed(layout, m)
    ensures Explains(NewPast(m), [], [], layout, layout, [layout], schema)
  {
    hide Indexed, TableOf, Restores;
    RemembersStart(layout);
    RestoresNothing(TableOf(layout, m));
    assert Changes([])[..0] == [];
  }

  lemma OneMore(p: Past, records: seq<W.Record>, es: seq<Event>, base: Layout, schema: Schema, layout: Layout, seen: seq<Layout>, e: Event, r: W.Record)
    requires Explains(p, records, es, base, layout, seen, schema) && LegalEvent(layout, e, schema) && Carries(r, e.change, schema) && Placed(r, e)
    ensures Explains(p, records + [r], es + [e], base, Effect(layout, e), seen + [Effect(layout, e)], schema)
  {
    hide LayoutAfter, LegalHistory, LegalEvent, Carries, Effect, Remembers, Indexed, TableOf, Restores;
    Grow(p.found + records, es, base, schema, r, e);
    RemembersMore(seen, base, es, e);
    assert (p.found + records) + [r] == p.found + (records + [r]);
    assert Changes(es + [e])[..|p.found|] == Changes(es)[..|p.found|];
  }

  lemma InsertLogged(p: Past, records: seq<W.Record>, es: seq<Event>, base: Layout, schema: Schema, layout: Layout, seen: seq<Layout>, m: map<nat, Loc>, e: Event, r: W.Record)
    requires Explains(p, records, es, base, layout, seen, schema) && Indexed(layout, m)
    requires e.change.Put? && Storable(e.change.row, schema) && e.change.row.id !in m && e.at == Some(Place(layout, e.change.row))
    requires e.at.value.page < 0x1_0000_0000 && e.at.value.slot <= MAX_ROWS_PER_PAGE
    requires r == W.Record(W.INSERT, e.change.row.id, e.at.value.page, e.at.value.slot, EncodeRow(e.change.row))
    ensures W.Framed(r) && Explains(p, records + [r], es + [e], base, Inserted(layout, e.change.row), seen + [Inserted(layout, e.change.row)], schema)
  {
    hide Place, Inserted, EncodeRow, Explains, Indexed;
    AbsentIndexed(layout, m, e.change.row.id);
    OneMore(p, records, es, base, schema, layout, seen, e, r);
  }

  lemma InsertedLength(layout: Layout, row: Row)
    ensures |Inserted(layout, row)| <= |layout| + 1
  {}

  lemma ErasedLength(layout: Layout, at: Loc)
    ensures InLayout(layout, at) ==> |Erased(layout, at)| == |layout|
  {}

  lemma ErasedPage(layout: Layout, at: Loc)
    requires InLayout(layout, at)
    ensures |Erased(layout, at)| == |layout|
  {}

  /** A row of the page other than the erased one is still on it. */
  lemma StillThere(layout: Layout, m: map<nat, Loc>, id: nat, k: nat)
    requires Points(layout, m) && id in m && k in m && k != id && m[k].page == m[id].page
    ensures exists slot :: InLayout(Erased(layout, m[id]), Loc(m[id].page, slot)) && RowIn(Erased(layout, m[id]), Loc(m[id].page, slot)).id == k
  {
    ErasedRows(layout, m[id], m[k]);
    var at := Shifted(m[k], m[id]);
    assert at == Loc(m[id].page, at.slot);
  }

  lemma RepairedKeys(layout: Layout, m: map<nat, Loc>, id: nat, n: map<nat, Loc>)
    requires id in m && InLayout(layout, m[id]) && Repaired(layout, m, id, n)
    ensures n.Keys == m.Keys - {id}
  {}

  lemma DoneRepairing(layout: Layout, m: map<nat, Loc>, id: nat, n: map<nat, Loc>)
    requires id in m && InLayout(layout, m[id]) && Repairing(layout, m, id, n, {})
    ensures Repaired(layout, m, id, n)
  {}

  lemma Located(layout: Layout, m: map<nat, Loc>, id: nat)
    requires Indexed(layout, m) && id in m
    ensures InLayout(layout, m[id]) && RowIn(layout, m[id]).id == id && id < 0x1_0000_0000
    ensures id in TableOf(layout, m) && TableOf(layout, m)[id] == RowIn(layout, m[id])
  {}

  lemma Pointed(layout: Layout, m: map<nat, Loc>, id: nat)
    requires Points(layout, m) && id in m
    ensures InLayout(layout, m[id]) && RowIn(layout, m[id]).id == id
  {}

  /** The byte count of a page read through the cache is that of its rows. */
  lemma PageSize(pager: Pager, f: Frame, pid: nat)
    requires pager.Valid() && pid < |pager.layout| && Holds(f, pager.layout[pid], pager.schema)
    ensures |f.data| == ByteSize(pager.layout[pid]) && f.rowCount == |pager.layout[pid]|
  {
    hide Stored, Cached, Baselined, Traced, RowSize, AllTyped, PageCache.Valid;
    EncodedSize(pager.layout[pid], pager.schema);
  }

  lemma PagerFits(pager: Pager)
    requires pager.Valid()
    ensures PagesFit(pager.layout, pager.schema)
  {
    hide Stored, Cached, Baselined, Traced, PageFits, PageCache.Valid;
  }

  /** The page that takes the row stays within its limits. */
  lemma InsertFitsAt(before: Layout, layout: Layout, pid: nat, row: Row, schema: Schema)
    requires PagesFit(layout, schema) && Storable(row, schema) && pid < |layout| && PagesFit(before, schema)
    requires Inserted(before, row) == layout[pid := layout[pid] + [row]]
    ensures PageFits(layout[pid] + [row], schema)
  {
    hide Inserted, PageFits, Storable;
    InsertFits(before, row, schema);
    assert Inserted(before, row)[pid] == layout[pid] + [row];
  }

  lemma ErasedFits(layout: Layout, at: Loc, schema: Schema)
    requires PagesFit(layout, schema) && InLayout(layout, at)
    ensures PageFits(Without(layout[at.page], at.slot), schema)
  {
    hide PageFits, Without;
    EraseFits(layout, at, schema);
    assert Erased(layout, at)[at.page] == Without(layout[at.page], at.slot);
  }

  lemma PageBound(pager: Pager)
    requires pager.Valid()
    ensures |pager.layout| < 0x1_0000_0000
    ensures forall p :: 0 <= p < |pager.layout| ==> |pager.layout[p]| <= MAX_ROWS_PER_PAGE
  {
    hide AllStorable, ByteSize;
  }

  lemma StorableRow(pager: Pager, at: Loc)
    requires pager.Valid() && InLayout(pager.layout, at)
    ensures Storable(RowIn(pager.layout, at), pager.schema) && |RowIn(pager.layout, at).fields| == |pager.schema|
  {
    hide RowSize, ByteSize;
  }

  lemma EraseLogged(p: Past, records: seq<W.Record>, es: seq<Event>, base: Layout, schema: Schema, layout: Layout, seen: seq<Layout>, e: Event, r: W.Record)
    requires Explains(p, records, es, base, layout, seen, schema)
    requires e.change.Del? && e.at.Some? && InLayout(layout, e.at.value) && RowIn(layout, e.at.value).id == e.change.id
    requires e.at.value.page < 0x1_0000_0000 && e.at.value.slot <= MAX_ROWS_PER_PAGE && e.change.id < 0x1_0000_0000
    requires r == W.Record(W.DELETE, e.change.id, e.at.value.page, e.at.value.slot, [])
    ensures W.Framed(r) && Explains(p, records + [r], es + [e], base, Erased(layout, e.at.value), seen + [Erased(layout, e.at.value)], schema)
  {
    hide Erased, Explains;
    OneMore(p, records, es, base, schema, layout, seen, e, r);
  }

  /** Mid-batch, the next row to update is present and storable. */
  lemma UpdateReady(t: Table, rows: seq<Row>, schema: Schema, i: nat)
    requires i < |rows| && UpdateRule(t, schema)(rows[..i], rows[i]) == Ok
    ensures rows[i].id in PutAll(t, rows[..i]) && Storable(rows[i], schema)
    ensures PutAll(t, rows[..i + 1]) == PutAll(t, rows[..i])[rows[i].id := rows[i]] && rows[i].id !in RowIds(rows[..i])
  {
    hide RowIds, Storable;
    PutAllKeys(t, rows[..i]);
    assert rows[..i + 1][..i] == rows[..i];
  }

  /** Mid-batch, the next row goes from where it was to the end. */
  lemma MovedOne(list: seq<Row>, rows: seq<Row>, i: nat)
    requires i < |rows| && rows[i].id !in RowIds(rows[..i])
    ensures Moved(Lacking(list, RowIds(rows[..i])) + rows[..i], rows[i]) == Lacking(list, RowIds(rows[..i + 1])) + rows[..i + 1]
  {
    hide Lacking;
    var front, ids, id := rows[..i], RowIds(rows[..i]), {rows[i].id as nat};
    LackingConcat(Lacking(list, ids), front, id);
    LackingNone(front, id);
    LackingTwice(list, ids, id);
    MoreRowIds(rows, i);
    assert rows[..i + 1] == front + [rows[i]];
  }

  lemma {:induction false} LackingTwice(rows: seq<Row>, a: set<nat>, b: set<nat>)
    ensures Lacking(Lacking(rows, a), b) == Lacking(rows, a + b)
  {
    if rows != [] {
      var front, last := rows[..|rows| - 1], rows[|rows| - 1];
      LackingTwice(front, a, b);
      assert (Lacking(front, a) + [last])[..|Lacking(front, a)|] == Lacking(front, a);
    }
  }

  lemma {:induction false} LackingEmpty(rows: seq<Row>)
    ensures Lacking(rows, {}) == rows
  {
    LackingNone(rows, {});
  }

  /** Compaction on the page is removal from the list. */
  lemma ListingEmptied(layout: Layout, m: map<nat, Loc>, id: nat, pool: Pool, capacity: nat)
    requires Indexed(layout, m) && id in m && pool.layout == layout
    ensures Listing(Emptied(pool, m[id], capacity).layout) == Lacking(Listing(layout), {id})
  {
    Located(layout, m, id);
    IndexedDiffer(layout, m);
    hide Indexed, Listing, Lacking;
    EmptiedIs(pool, m[id], capacity);
    TouchedKeeps(pool, m[id].page, capacity);
    TouchedKeeps(Rewritten(Touched(pool, m[id].page, capacity), m[id].page, Without(layout[m[id].page], m[id].slot)), m[id].page, capacity);
    ListingErased(layout, m[id]);
  }

  lemma EraseReady(t: Table, ids: seq<nat>, i: nat)
    requires i < |ids| && EraseRule(t)(ids[..i], ids[i]) == Ok
    ensures ids[i] in t - IdSet(ids[..i])
    ensures t - IdSet(ids[..i + 1]) == (t - IdSet(ids[..i])) - {ids[i]}
  {
    hide IdSet;
    MoreIds(ids, i);
  }

  lemma NextNew(before: seq<Row>, rows: seq<Row>, slot: nat)
    requires slot < |rows| && NoRepeats(IdsOf(before + rows))
    ensures rows[slot].id !in IdsOf(before + rows[..slot])
  {
    var all, front := IdsOf(before + rows), IdsOf(before + rows[..slot]);
    assert forall i :: 0 <= i < |front| ==> front[i] == all[i];
    assert all[|before| + slot] == rows[slot].id;
  }

  /** The first pages come first. */
  lemma {:induction false} FlatPrefix(layout: Layout, m: nat, n: nat)
    requires m <= n <= |layout| && NoRepeats(IdsOf(Flat(layout, n)))
    ensures NoRepeats(IdsOf(Flat(layout, m)))
  {
    if m < n {
      var front, all := IdsOf(Flat(layout, n - 1)), IdsOf(Flat(layout, n));
      assert forall i :: 0 <= i < |front| ==> front[i] == all[i];
      FlatPrefix(layout, m, n - 1);
    }
  }

  lemma AddTree(trees: Trees, schema: Schema, rows: seq<Row>, name: string, tree: BPTree)
    requires TreesOk(trees, schema, rows) && name !in trees && tree !in trees.Values
    requires FieldPos(schema, name) >= 0 && TreeOk(tree, name, schema, rows)
    ensures TreesOk(trees[name := tree], schema, rows)
  {
    hide TreeOk, FieldPos;
  }

  /** The rows at the requested places, except on pages still to load. */
  ghost predicate RowsAt(layout: Layout, locs: seq<Loc>, left: set<nat>, rows: seq<Row>) {
    && |rows| == |locs|
    && forall i :: 0 <= i < |locs| && locs[i].page !in left ==> InLayout(layout, locs[i]) && rows[i] == RowIn(layout, locs[i])
  }

  lemma RowsStart(layout: Layout, locs: seq<Loc>, pages: set<nat>, rows: seq<Row>)
    requires |rows| == |locs| && forall i :: 0 <= i < |locs| ==> locs[i].page in pages
    ensures RowsAt(layout, locs, pages, rows)
  {}

  lemma RowsCount(layout: Layout, locs: seq<Loc>, pages: set<nat>, rows: seq<Row>)
    requires RowsAt(layout, locs, pages, rows)
    ensures |rows| == |locs|
  {}

  lemma RowsFilled(layout: Layout, locs: seq<Loc>, pages: set<nat>, before: seq<Row>, rows: seq<Row>, pid: nat)
    requires RowsAt(layout, locs, pages, before) && |rows| == |locs| && forall i :: 0 <= i < |locs| ==> InLayout(layout, locs[i])
    requires forall i :: 0 <= i < |locs| ==> rows[i] == if locs[i].page == pid then RowIn(layout, locs[i]) else before[i]
    ensures RowsAt(layout, locs, pages - {pid}, rows)
  {}

  lemma AcceptsAll(rows: seq<Row>, schema: Schema)
    ensures Select(rows, AcceptRule(map[], schema)) == rows
  {
    hide Select;
    SelectAll(rows, AcceptRule(map[], schema));
  }

  /** How a range scan of a field ends. */
  ghost function RangeVerdict(t: Table, schema: Schema, indexed: bool, name: string, lo: Option<FieldValue>, loInclusive: bool, hi: Option<FieldValue>): Status {
    var fi := FieldPos(schema, name);
    if fi < 0 || fi >= |schema| then UnknownField else RangeStatus(t, indexed, fi, schema[fi].ftype, lo, loInclusive, hi)
  }

  /** A field that is not there is refused. An index refuses a bound of another type than the
      field's whatever the rows; the fallback refuses a lower one if there is a row, and an
      upper one if some row passes the lower. */
  lemma RangeRefuses(t: Table, schema: Schema, name: string, lo: Option<FieldValue>, loInclusive: bool, hi: Option<FieldValue>)
    ensures var fi := FieldPos(schema, name);
            if fi < 0 then forall indexed :: RangeVerdict(t, schema, indexed, name, lo, loInclusive, hi) == UnknownField else
            var other := (b: Option<FieldValue>) => b.Some? && forall w :: Typed(w, schema[fi].ftype) ==> !SameType(w, b.value);
            && RangeVerdict(t, schema, true, name, lo, loInclusive, hi) == (if other(lo) || other(hi) then BadBound else Ok)
            && RangeVerdict(t, schema, false, name, lo, loInclusive, hi)
               == if other(lo) then (if t == map[] then Ok else BadBound)
                  else if other(hi) && exists id :: id in t && AtLeast(KeyAt(t[id], fi), BoundKey(lo), loInclusive) then BadBound else Ok
  {
    hide KeyAt, AtLeast, BoundKey, HasType, FieldPos;
    var fi := FieldPos(schema, name);
    if fi >= 0 {
      if lo.Some? { HasTypeMeans(lo.value, schema[fi].ftype); }
      if hi.Some? { HasTypeMeans(hi.value, schema[fi].ftype); }
      if t != map[] {
        var id :| id in t;
        assert !Fits(lo, schema[fi].ftype) ==> Throws(t[id], fi, schema[fi].ftype, lo, loInclusive, hi);
      }
    }
  }

  ghost predicate SomeThrow(rows: seq<Row>, fi: int, t: FieldType, lo: Option<FieldValue>, loInclusive: bool, hi: Option<FieldValue>) {
    exists r :: r in rows && Throws(r, fi, t, lo, loInclusive, hi)
  }

  lemma ThrowConcat(a: seq<Row>, b: seq<Row>, fi: int, t: FieldType, lo: Option<FieldValue>, loInclusive: bool, hi: Option<FieldValue>)
    ensures SomeThrow(a + b, fi, t, lo, loInclusive, hi) <==> SomeThrow(a, fi, t, lo, loInclusive, hi) || SomeThrow(b, fi, t, lo, loInclusive, hi)
    ensures !SomeThrow([], fi, t, lo, loInclusive, hi)
  {
    hide Throws;
    assert forall r :: r in a + b <==> r in a || r in b;
  }

  lemma ThrowOne(row: Row, fi: int, t: FieldType, lo: Option<FieldValue>, loInclusive: bool, hi: Option<FieldValue>)
    ensures SomeThrow([row], fi, t, lo, loInclusive, hi) <==> Throws(row, fi, t, lo, loInclusive, hi)
  {
    hide Throws;
    assert row in [row];
  }

  lemma ThrowMore(a: seq<Row>, b: seq<Row>, fi: int, t: FieldType, lo: Option<FieldValue>, loInclusive: bool, hi: Option<FieldValue>)
    requires SomeThrow(a, fi, t, lo, loInclusive, hi) && forall r :: r in a ==> r in b
    ensures SomeThrow(b, fi, t, lo, loInclusive, hi)
  {
    hide Throws;
  }

  /** The rows in range of some rows none of which throws. */
  ghost predicate Ranged(rows: seq<Row>, out: seq<Row>, fi: int, t: FieldType, lo: Option<FieldValue>, loInclusive: bool, hi: Option<FieldValue>, hiInclusive: bool) {
    !SomeThrow(rows, fi, t, lo, loInclusive, hi) && out == Select(rows, RangeRule(fi, lo, loInclusive, hi, hiInclusive))
  }

  lemma RangedNone(layout: Layout, fi: int, t: FieldType, lo: Option<FieldValue>, loInclusive: bool, hi: Option<FieldValue>, hiInclusive: bool)
    ensures Ranged(Flat(layout, 0), [], fi, t, lo, loInclusive, hi, hiInclusive)
  {}

  lemma RangedMore(a: seq<Row>, x: seq<Row>, b: seq<Row>, y: seq<Row>, fi: int, t: FieldType, lo: Option<FieldValue>, loInclusive: bool, hi: Option<FieldValue>, hiInclusive: bool)
    requires Ranged(a, x, fi, t, lo, loInclusive, hi, hiInclusive) && Ranged(b, y, fi, t, lo, loInclusive, hi, hiInclusive)
    ensures Ranged(a + b, x + y, fi, t, lo, loInclusive, hi, hiInclusive)
  {
    hide SomeThrow, Select, RangeRule;
    ThrowConcat(a, b, fi, t, lo, loInclusive, hi);
    SelectConcat(a, b, RangeRule(fi, lo, loInclusive, hi, hiInclusive));
  }

  lemma RangedIs(rows: seq<Row>, out: seq<Row>, fi: int, t: FieldType, lo: Option<FieldValue>, loInclusive: bool, hi: Option<FieldValue>, hiInclusive: bool)
    requires Ranged(rows, out, fi, t, lo, loInclusive, hi, hiInclusive)
    ensures !SomeThrow(rows, fi, t, lo, loInclusive, hi) && out == Select(rows, RangeRule(fi, lo, loInclusive, hi, hiInclusive))
  {}

  /** Some stored row throws exactly when some row of the map does. */
  lemma ThrowingRow(layout: Layout, m: map<nat, Loc>, fi: int, t: FieldType, lo: Option<FieldValue>, loInclusive: bool, hi: Option<FieldValue>)
    requires Indexed(layout, m)
    ensures var table := TableOf(layout, m);
            SomeThrow(Flat(layout, |layout|), fi, t, lo, loInclusive, hi) <==> exists id :: id in table && Throws(table[id], fi, t, lo, loInclusive, hi)
  {
    hide Indexed, Flat, Throws, NoDup;
    FlatIsTable(layout, m);
    var table, rows := TableOf(layout, m), Flat(layout, |layout|);
    if r :| r in rows && Throws(r, fi, t, lo, loInclusive, hi) {
      assert r in table.Values;
    }
    if id :| id in table && Throws(table[id], fi, t, lo, loInclusive, hi) {
      assert table[id] in table.Values && table[id] in rows;
    }
  }

  ghost predicate Wide(rows: seq<Row>, n: nat) { forall r :: r in rows ==> |r.fields| == n }

  lemma WideLess(a: seq<Row>, b: seq<Row>, n: nat)
    requires Wide(b, n) && forall r :: r in a ==> r in b
    ensures Wide(a, n)
  {}

  lemma FlatPage(layout: Layout, pid: nat)
    requires pid < |layout|
    ensures Flat(layout, pid + 1) == Flat(layout, pid) + layout[pid]
    ensures forall r :: r in layout[pid] ==> r in Flat(layout, |layout|)
    ensures forall r :: r in Flat(layout, pid + 1) ==> r in Flat(layout, |layout|)
  {
    FlatMore(layout, pid + 1, |layout|);
  }

  lemma {:induction false} FlatMore(layout: Layout, a: nat, b: nat)
    requires a <= b <= |layout|
    ensures forall r :: r in Flat(layout, a) ==> r in Flat(layout, b)
  {
    if a < b { FlatMore(layout, a, b - 1); }
  }

  /** Every stored row has the schema's fields. */
  lemma WideRows(pager: Pager, m: map<nat, Loc>)
    requires pager.Valid() && Indexed(pager.layout, m)
    ensures Wide(Flat(pager.layout, |pager.layout|), |pager.schema|)
  {
    hide Pager.Valid;
    FlatMembers(pager.layout, |pager.layout|);
    hide Flat;
    forall r | Within(pager.layout, |pager.layout|, r) ensures |r.fields| == |pager.schema| {
      var at :| InLayout(pager.layout, at) && RowIn(pager.layout, at) == r;
      StorableRow(pager, at);
    }
  }

  /** How a range scan lists its rows: with an index by key, rows of one key in storage
      order, and without one in storage order. */
  ghost predicate RangeOrder(out: seq<Row>, rows: seq<Row>, indexed: bool, fi: int, lo: Option<FieldValue>, loInclusive: bool, hi: Option<FieldValue>, hiInclusive: bool) {
    var wanted := Select(rows, RangeRule(fi, lo, loInclusive, hi, hiInclusive));
    if indexed then InKeyOrder(out, wanted, fi) else out == wanted
  }

  /** Every id a tree gives is one of the rows'. */
  lemma FiledIds(items: seq<Item>, filed: Filing, rows: seq<Row>, fi: int, lo: Option<Key>, loInclusive: bool, hi: Option<Key>, hiInclusive: bool)
    requires Secondary.Filed(filed, rows, fi)
    requires forall key :: OfKey(items, key) == if InRange(key, lo, loInclusive, hi, hiInclusive) then IdsUnder(filed, key) else []
    ensures forall x :: x in items ==> x.id in IdsOf(rows)
  {
    hide InRange, KeyAt, RowsWith, IdsOf, IdsUnder, OfKey;
    forall x | x in items ensures x.id in IdsOf(rows) {
      OfKeyMembers(items, x);
      RowsWithMembers(rows, fi, x.key);
      IdsMembers(RowsWith(rows, fi, x.key), x.id);
      IdsMembers(rows, x.id);
    }
  }

  lemma LocatedRows(layout: Layout, m: map<nat, Loc>, items: seq<Item>, locs: seq<Loc>, out: seq<Row>)
    requires Indexed(layout, m) && |locs| == |items| && RowsAt(layout, locs, {}, out)
    requires forall i :: 0 <= i < |items| ==> items[i].id in m && locs[i] == m[items[i].id]
    ensures |out| == |items| && forall i :: 0 <= i < |items| ==> out[i] in Listing(layout) && out[i].id == items[i].id
  {
    FlatMembers(layout, |layout|);
    hide Flat;
    forall i | 0 <= i < |items| ensures out[i] in Listing(layout) && out[i].id == items[i].id {
      assert InLayout(layout, locs[i]) && RowIn(layout, locs[i]) == out[i];
      assert Within(layout, |layout|, out[i]);
    }
  }

  lemma RangeTable(layout: Layout, m: map<nat, Loc>, fi: int, out: seq<Row>, lo: Option<FieldValue>, loInclusive: bool, hi: Option<FieldValue>, hiInclusive: bool)
    requires Indexed(layout, m) && InKeyOrder(out, Select(Listing(layout), RangeRule(fi, lo, loInclusive, hi, hiInclusive)), fi)
    ensures RangeOrder(out, Listing(layout), true, fi, lo, loInclusive, hi, hiInclusive)
    ensures multiset(out) == RowsWhere(TableOf(layout, m), RangeRule(fi, lo, loInclusive, hi, hiInclusive))
  {
    hide Indexed, TableOf, RowsWhere, RangeRule, Select, InKeyOrder, Flat;
    InKeyOrderRows(out, Select(Listing(layout), RangeRule(fi, lo, loInclusive, hi, hiInclusive)), fi);
    SelectIsTable(layout, m, RangeRule(fi, lo, loInclusive, hi, hiInclusive));
  }

  lemma IndexedDiffer(layout: Layout, m: map<nat, Loc>)
    requires Indexed(layout, m)
    ensures UniqueIds(layout)
  {}
}
