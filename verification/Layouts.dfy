/** Which row sits in which slot of which page: the engine's state with the bytes,
    the cache and the file abstracted away. */
module Layouts {
  import opened Rows
  import opened Pages
  import opened Index
  import opened Replay
  import opened Contract
  import opened Folds

  type Layout = seq<seq<Row>>

  /** A legal page: storable rows, at most 64 of them, within 8192 bytes. */
  predicate PageFits(rows: seq<Row>, schema: Schema) {
    AllStorable(rows, schema) && |rows| <= MAX_ROWS_PER_PAGE && ByteSize(rows) <= PAGE_SIZE
  }

  predicate PagesFit(layout: Layout, schema: Schema) {
    forall p :: 0 <= p < |layout| ==> PageFits(layout[p], schema)
  }

  predicate InLayout(layout: Layout, at: Loc) { at.page < |layout| && at.slot < |layout[at.page]| }

  function RowIn(layout: Layout, at: Loc): Row
    requires InLayout(layout, at)
  {
    layout[at.page][at.slot]
  }

  /** index[id] = (page, slot) exactly when that slot holds row id. */
  ghost predicate Indexed(layout: Layout, m: map<nat, Loc>) {
    && (forall at :: InLayout(layout, at) ==> RowIn(layout, at).id in m && m[RowIn(layout, at).id] == at)
    && (forall id :: id in m ==> InLayout(layout, m[id]) && RowIn(layout, m[id]).id == id)
  }

  /** Every index entry leads to its row, though some rows may have no entry. */
  ghost predicate Points(layout: Layout, m: map<nat, Loc>) {
    forall id :: id in m ==> InLayout(layout, m[id]) && RowIn(layout, m[id]).id == id
  }

  /** What the index entries lead to: on a sound index, the map. */
  ghost function Entries(layout: Layout, m: map<nat, Loc>): (t: Table)
    requires Points(layout, m)
    ensures t.Keys == m.Keys
  {
    map id | id in m :: RowIn(layout, m[id])
  }

  lemma EntriesAreTable(layout: Layout, m: map<nat, Loc>)
    requires Indexed(layout, m)
    ensures Points(layout, m) && Entries(layout, m) == TableOf(layout, m)
  {}

  lemma IndexedPoints(layout: Layout, m: map<nat, Loc>)
    requires Indexed(layout, m)
    ensures Points(layout, m)
  {}

  /** No id sits in two places. */
  ghost predicate UniqueIds(layout: Layout) {
    forall a, b :: InLayout(layout, a) && InLayout(layout, b) && RowIn(layout, a).id == RowIn(layout, b).id ==> a == b
  }

  /** The map a layout stands for. */
  ghost function TableOf(layout: Layout, m: map<nat, Loc>): (t: Table)
    requires Indexed(layout, m)
    ensures t.Keys == m.Keys
  {
    map id | id in m :: RowIn(layout, m[id])
  }

  /** The last page takes the row: a free slot and enough bytes. */
  predicate HasRoom(layout: Layout, row: Row) {
    && layout != []
    && |layout[|layout| - 1]| < MAX_ROWS_PER_PAGE
    && ByteSize(layout[|layout| - 1]) + RowSize(row) <= PAGE_SIZE
  }

  /** Where the next row goes: the end of the last page, or a new page. */
  function Place(layout: Layout, row: Row): Loc {
    if HasRoom(layout, row) then Loc(|layout| - 1, |layout[|layout| - 1]|) else Loc(|layout|, 0)
  }

  function Inserted(layout: Layout, row: Row): Layout {
    if HasRoom(layout, row) then layout[|layout| - 1 := layout[|layout| - 1] + [row]] else layout + [[row]]
  }

  /** Compaction: later rows of the page move down one slot. */
  function Erased(layout: Layout, at: Loc): Layout
    requires InLayout(layout, at)
  {
    layout[at.page := Without(layout[at.page], at.slot)]
  }

  /** A row goes to the last page unless the page would then hold more than 64 rows or more
      than 8192 bytes. */
  lemma LastPageTakes(layout: Layout, row: Row)
    ensures HasRoom(layout, row) <==> layout != [] && var page := layout[|layout| - 1] + [row]; |page| <= 64 && ByteSize(page) <= 8192
    ensures Place(layout, row).page == if HasRoom(layout, row) then |layout| - 1 else |layout|
  {
    if layout != [] {
      ByteSizeConcat(layout[|layout| - 1], [row]);
      assert ByteSize([row]) == RowSize(row) by { assert [row][1..] == []; }
    }
  }

  lemma InsertFits(layout: Layout, row: Row, schema: Schema)
    requires PagesFit(layout, schema) && Storable(row, schema)
    ensures PagesFit(Inserted(layout, row), schema)
  {
    hide Storable;
    if HasRoom(layout, row) {
      ByteSizeConcat(layout[|layout| - 1], [row]);
    }
    assert ByteSize([row]) == RowSize(row) by { assert [row][1..] == []; }
    assert RowSize(row) <= PAGE_SIZE by { Sized(row, schema); }
  }

  lemma Sized(row: Row, schema: Schema)
    requires Storable(row, schema)
    ensures RowSize(row) <= PAGE_SIZE
  {}

  lemma WithoutSize(rows: seq<Row>, i: nat)
    requires i < |rows|
    ensures ByteSize(Without(rows, i)) <= ByteSize(rows)
  {
    hide ByteSize;
    var tail := [rows[i]] + rows[i + 1..];
    assert rows == rows[..i] + tail;
    ByteSizeConcat(rows[..i], tail);
    ByteSizeConcat([rows[i]], rows[i + 1..]);
    ByteSizeConcat(rows[..i], rows[i + 1..]);
  }

  lemma WithoutFits(rows: seq<Row>, i: nat, schema: Schema)
    requires PageFits(rows, schema) && i < |rows|
    ensures PageFits(Without(rows, i), schema)
  {
    hide Storable, ByteSize;
    WithoutSize(rows, i);
    assert forall r :: r in Without(rows, i) ==> r in rows;
  }

  lemma EraseFits(layout: Layout, at: Loc, schema: Schema)
    requires PagesFit(layout, schema) && InLayout(layout, at)
    ensures PagesFit(Erased(layout, at), schema)
  {
    hide PageFits, Without;
    WithoutFits(layout[at.page], at.slot, schema);
  }

  /** Appending a new row at its place extends the index and the map by it. */
  lemma InsertIndexed(layout: Layout, m: map<nat, Loc>, row: Row)
    requires Indexed(layout, m) && row.id !in m
    ensures var l, n := Inserted(layout, row), m[row.id := Place(layout, row)];
            Indexed(l, n) && TableOf(l, n) == TableOf(layout, m)[row.id := row]
  {
    hide HasRoom;
    var at, l := Place(layout, row), Inserted(layout, row);
    assert InLayout(l, at) && RowIn(l, at) == row;
    forall x | InLayout(l, x) && x != at ensures InLayout(layout, x) && RowIn(l, x) == RowIn(layout, x) {}
    forall x | InLayout(layout, x) ensures InLayout(l, x) && x != at && RowIn(l, x) == RowIn(layout, x) {}
  }

  /** Which slot a row moves to when slot `s` of its page is erased. */
  function Shifted(at: Loc, gone: Loc): Loc {
    if at.page == gone.page && at.slot > gone.slot then Loc(at.page, at.slot - 1) else at
  }

  lemma ErasedRows(layout: Layout, gone: Loc, x: Loc)
    requires InLayout(layout, gone) && InLayout(layout, x) && x != gone
    ensures InLayout(Erased(layout, gone), Shifted(x, gone))
    ensures RowIn(Erased(layout, gone), Shifted(x, gone)) == RowIn(layout, x)
  {}

  lemma ErasedFrom(layout: Layout, gone: Loc, y: Loc) returns (x: Loc)
    requires InLayout(layout, gone) && InLayout(Erased(layout, gone), y)
    ensures InLayout(layout, x) && x != gone && Shifted(x, gone) == y
  {
    x := if y.page == gone.page && y.slot >= gone.slot then Loc(y.page, y.slot + 1) else y;
  }

  /** What slot repair must leave: other pages as they were, this page's ids at slots holding them. */
  ghost predicate Repaired(layout: Layout, m: map<nat, Loc>, id: nat, n: map<nat, Loc>)
    requires id in m && InLayout(layout, m[id])
  {
    var l := Erased(layout, m[id]);
    && n.Keys == m.Keys - {id}
    && (forall k :: k in n && m[k].page != m[id].page ==> n[k] == m[k])
    && (forall k :: k in n && m[k].page == m[id].page ==> n[k].page == m[id].page && InLayout(l, n[k]) && RowIn(l, n[k]).id == k)
  }

  lemma UniqueLoc(layout: Layout, m: map<nat, Loc>, a: Loc, b: Loc)
    requires Indexed(layout, m) && InLayout(layout, a) && InLayout(layout, b) && RowIn(layout, a).id == RowIn(layout, b).id
    ensures a == b
  {}

  /** Compaction followed by slot repair restores the bijection and removes one row from the map. */
  lemma EraseIndexed(layout: Layout, m: map<nat, Loc>, id: nat, n: map<nat, Loc>)
    requires Indexed(layout, m) && id in m && Repaired(layout, m, id, n)
    ensures Indexed(Erased(layout, m[id]), n)
    ensures TableOf(Erased(layout, m[id]), n) == TableOf(layout, m) - {id}
  {
    hide Erased, Shifted, InLayout;
    var gone, l := m[id], Erased(layout, m[id]);
    forall k | k in n ensures n[k] == Shifted(m[k], gone) && InLayout(l, n[k]) && RowIn(l, n[k]) == RowIn(layout, m[k]) {
      RepairedLoc(layout, m, id, n, k);
      ErasedRows(layout, gone, m[k]);
    }
    forall y | InLayout(l, y) ensures RowIn(l, y).id in n && n[RowIn(l, y).id] == y {
      var x := ErasedFrom(layout, gone, y);
      ErasedRows(layout, gone, x);
      var k := RowIn(layout, x).id;
      assert m[k] == x;
      assert k in n;
    }
  }

  /** An insert neither leaves a row without an entry nor helps one that has none. */
  lemma PointsInsert(layout: Layout, m: map<nat, Loc>, row: Row)
    requires Points(layout, m) && row.id !in m
    ensures var l, n := Inserted(layout, row), m[row.id := Place(layout, row)];
            Points(l, n) && (Indexed(l, n) ==> Indexed(layout, m))
  {
    hide HasRoom;
    var at, l := Place(layout, row), Inserted(layout, row);
    forall x | InLayout(layout, x) ensures InLayout(l, x) && x != at && RowIn(l, x) == RowIn(layout, x) {}
  }

  /** Nor does an erase with its slot repair. */
  lemma PointsErase(layout: Layout, m: map<nat, Loc>, id: nat, n: map<nat, Loc>)
    requires Points(layout, m) && id in m && Repaired(layout, m, id, n)
    ensures Points(Erased(layout, m[id]), n) && (Indexed(Erased(layout, m[id]), n) ==> Indexed(layout, m))
  {
    var gone, l := m[id], Erased(layout, m[id]);
    forall k | k in n ensures InLayout(l, n[k]) && RowIn(l, n[k]).id == k {
      if m[k].page != gone.page { ErasedRows(layout, gone, m[k]); }
    }
    if Indexed(l, n) {
      forall x | InLayout(layout, x) ensures RowIn(layout, x).id in m && m[RowIn(layout, x).id] == x {
        if x != gone { StillPointed(layout, m, id, n, x); }
      }
    }
  }

  lemma StillPointed(layout: Layout, m: map<nat, Loc>, id: nat, n: map<nat, Loc>, x: Loc)
    requires Points(layout, m) && id in m && Repaired(layout, m, id, n)
    requires Indexed(Erased(layout, m[id]), n) && InLayout(layout, x) && x != m[id]
    ensures RowIn(layout, x).id in m && m[RowIn(layout, x).id] == x
  {
    hide Erased;
    var gone, k := m[id], RowIn(layout, x).id;
    ErasedRows(layout, gone, x);
    assert k in n && n[k] == Shifted(x, gone);
    ErasedRows(layout, gone, m[k]);
    assert n[k] == Shifted(m[k], gone);
  }

  lemma RepairedLoc(layout: Layout, m: map<nat, Loc>, id: nat, n: map<nat, Loc>, k: nat)
    requires Indexed(layout, m) && id in m && Repaired(layout, m, id, n) && k in n
    ensures m[k] != m[id] && n[k] == Shifted(m[k], m[id])
  {
    if m[k].page == m[id].page {
      var x := ErasedFrom(layout, m[id], n[k]);
      ErasedRows(layout, m[id], x);
      UniqueLoc(layout, m, x, m[k]);
    }
  }

  /** Appending to the page that takes the row is inserting into the layout. */
  lemma PlaceLast(layout: Layout, row: Row)
    requires HasRoom(layout, row)
    ensures var p := |layout| - 1;
            Place(layout, row) == Loc(p, |layout[p]|) && Inserted(layout, row) == layout[p := layout[p] + [row]]
  {}

  lemma PlaceNew(layout: Layout, row: Row)
    requires !HasRoom(layout, row)
    ensures var grown: Layout := layout + [[]];
            Place(layout, row) == Loc(|layout|, 0) && Inserted(layout, row) == grown[|layout| := grown[|layout|] + [row]]
  {
    assert [] + [row] == [row];
  }

  /** The rows of the first `n` pages in storage order. */
  ghost function Flat(layout: Layout, n: nat): seq<Row>
    requires n <= |layout|
  {
    if n == 0 then [] else Flat(layout, n - 1) + layout[n - 1]
  }

  /** Every row in storage order. */
  ghost function Listing(layout: Layout): seq<Row> { Flat(layout, |layout|) }

  lemma {:induction false} FlatSame(a: Layout, b: Layout, n: nat)
    requires n <= |a| && n <= |b| && forall p :: 0 <= p < n ==> a[p] == b[p]
    ensures Flat(a, n) == Flat(b, n)
  {
    if n > 0 { FlatSame(a, b, n - 1); }
  }

  /** An inserted row comes last. */
  lemma ListingInserted(layout: Layout, row: Row)
    ensures Listing(Inserted(layout, row)) == Listing(layout) + [row]
  {
    hide RowSize, ByteSize;
    var after, n := Inserted(layout, row), |layout|;
    if HasRoom(layout, row) {
      FlatSame(layout, after, n - 1);
      assert Flat(after, n) == Flat(layout, n - 1) + (layout[n - 1] + [row]);
    } else {
      FlatSame(layout, after, n);
      assert after[n] == [row];
    }
  }

  lemma {:induction false} LackingConcat(a: seq<Row>, b: seq<Row>, ids: set<nat>)
    ensures Lacking(a + b, ids) == Lacking(a, ids) + Lacking(b, ids)
  {
    if b == [] {
      assert a + b == a;
    } else {
      assert (a + b)[..|a + b| - 1] == a + b[..|b| - 1];
      LackingConcat(a, b[..|b| - 1], ids);
    }
  }

  lemma {:induction false} LackingNone(rows: seq<Row>, ids: set<nat>)
    requires forall r :: r in rows ==> r.id !in ids
    ensures Lacking(rows, ids) == rows
  {
    if rows != [] {
      LackingNone(rows[..|rows| - 1], ids);
      assert rows == rows[..|rows| - 1] + [rows[|rows| - 1]];
    }
  }

  lemma LackingWithout(page: seq<Row>, slot: nat)
    requires slot < |page| && forall i :: 0 <= i < |page| && i != slot ==> page[i].id != page[slot].id
    ensures Lacking(page, {page[slot].id}) == Without(page, slot)
  {
    hide Lacking;
    var ids, front, back := {page[slot].id as nat}, page[..slot], page[slot + 1..];
    forall r | r in front || r in back ensures r.id !in ids { OtherRow(page, slot, r); }
    assert page == front + [page[slot]] + back;
    LackingAround(front, page[slot], back, ids);
  }

  lemma LackingAround(front: seq<Row>, row: Row, back: seq<Row>, ids: set<nat>)
    requires row.id in ids && (forall r :: r in front ==> r.id !in ids) && (forall r :: r in back ==> r.id !in ids)
    ensures Lacking(front + [row] + back, ids) == front + back
  {
    hide Lacking;
    LackingConcat(front + [row], back, ids);
    LackingConcat(front, [row], ids);
    LackingNone(front, ids);
    LackingNone(back, ids);
    LackingOne(row, ids);
    assert front + [] == front;
  }

  lemma OtherRow(page: seq<Row>, slot: nat, r: Row)
    requires slot < |page| && (forall i :: 0 <= i < |page| && i != slot ==> page[i].id != page[slot].id) && (r in page[..slot] || r in page[slot + 1..])
    ensures r.id != page[slot].id
  {
    if i :| 0 <= i < slot && page[..slot][i] == r {
      assert page[i] == r;
    } else {
      var j :| 0 <= j < |page[slot + 1..]| && page[slot + 1..][j] == r;
      assert page[slot + 1 + j] == r;
    }
  }

  lemma LackingOne(row: Row, ids: set<nat>)
    requires row.id in ids
    ensures Lacking([row], ids) == []
  {
    assert [row][..0] == [];
  }

  /** An erased row leaves the others in order. */
  lemma {:induction false} FlatErased(layout: Layout, at: Loc, n: nat)
    requires UniqueIds(layout) && InLayout(layout, at) && n <= |layout|
    ensures Flat(Erased(layout, at), n) == Lacking(Flat(layout, n), {RowIn(layout, at).id})
  {
    hide UniqueIds, Lacking;
    if n == 0 {
      NoneLacking({RowIn(layout, at).id as nat});
    } else {
      FlatErased(layout, at, n - 1);
      ErasedPages(layout, at, n - 1);
      LackingConcat(Flat(layout, n - 1), layout[n - 1], {RowIn(layout, at).id});
    }
  }

  lemma NoneLacking(ids: set<nat>)
    ensures Lacking([], ids) == []
  {}

  lemma ErasedPages(layout: Layout, at: Loc, p: nat)
    requires UniqueIds(layout) && InLayout(layout, at) && p < |layout|
    ensures Erased(layout, at)[p] == Lacking(layout[p], {RowIn(layout, at).id})
  {
    var id := RowIn(layout, at).id;
    forall i | 0 <= i < |layout[p]| && Loc(p, i) != at ensures layout[p][i].id != id {
      assert InLayout(layout, Loc(p, i)) && RowIn(layout, Loc(p, i)) == layout[p][i];
    }
    if p == at.page {
      assert at == Loc(p, at.slot);
      LackingWithout(layout[p], at.slot);
    } else {
      LackingNone(layout[p], {id as nat});
    }
  }

  lemma ListingErased(layout: Layout, at: Loc)
    requires UniqueIds(layout) && InLayout(layout, at)
    ensures Listing(Erased(layout, at)) == Lacking(Listing(layout), {RowIn(layout, at).id})
  {
    hide UniqueIds;
    FlatErased(layout, at, |layout|);
  }

  /** The rows listed are those of the map, and no id is listed twice. */
  lemma ListingIds(layout: Layout, m: map<nat, Loc>)
    requires Indexed(layout, m)
    ensures NoRepeats(IdsOf(Listing(layout))) && (forall id :: id in IdsOf(Listing(layout)) <==> id in m)
    ensures forall r :: r in Listing(layout) ==> r.id in m && TableOf(layout, m)[r.id] == r
  {
    FlatIsTable(layout, m);
    var rows, t := Listing(layout), TableOf(layout, m);
    hide Flat, Listing;
    forall r | r in rows ensures r.id in m && t[r.id] == r {
      assert r in t.Values;
      var id :| id in t && t[id] == r;
    }
    forall i, j | 0 <= i < j < |rows| ensures rows[i].id != rows[j].id {
      assert rows[i] in rows && rows[j] in rows;
    }
    forall id | id in m ensures id in IdsOf(rows) {
      assert t[id] in t.Values;
      var i :| 0 <= i < |rows| && rows[i] == t[id];
      assert IdsOf(rows)[i] == id;
    }
  }

  ghost predicate Within(layout: Layout, n: nat, r: Row) {
    exists at :: InLayout(layout, at) && at.page < n && RowIn(layout, at) == r
  }

  lemma {:induction false} FlatMembers(layout: Layout, n: nat)
    requires n <= |layout|
    ensures forall r :: r in Flat(layout, n) <==> Within(layout, n, r)
  {
    if n > 0 {
      FlatMembers(layout, n - 1);
      forall r | r in Flat(layout, n) ensures Within(layout, n, r) {
        if r in layout[n - 1] {
          var s :| 0 <= s < |layout[n - 1]| && layout[n - 1][s] == r;
          assert InLayout(layout, Loc(n - 1, s)) && RowIn(layout, Loc(n - 1, s)) == r;
        }
      }
      forall r | Within(layout, n, r) ensures r in Flat(layout, n) {
        var at :| InLayout(layout, at) && at.page < n && RowIn(layout, at) == r;
        if at.page < n - 1 { assert Within(layout, n - 1, r); }
      }
    }
  }

  lemma {:induction false} FlatNoDup(layout: Layout, m: map<nat, Loc>, n: nat)
    requires n <= |layout| && Indexed(layout, m)
    ensures NoDup(Flat(layout, n))
  {
    hide Indexed;
    if n > 0 {
      FlatNoDup(layout, m, n - 1);
      FlatMembers(layout, n - 1);
      var front, page := Flat(layout, n - 1), layout[n - 1];
      forall i, j | 0 <= i < j < |front + page| ensures (front + page)[i] != (front + page)[j] {
        if j >= |front| {
          var y := Loc(n - 1, j - |front|);
          assert InLayout(layout, y);
          if i >= |front| {
            var x := Loc(n - 1, i - |front|);
            assert InLayout(layout, x);
            if page[x.slot] == page[y.slot] { UniqueLoc(layout, m, x, y); }
          } else {
            assert front[i] in front;
            var x :| InLayout(layout, x) && x.page < n - 1 && RowIn(layout, x) == front[i];
            if front[i] == page[y.slot] { UniqueLoc(layout, m, x, y); }
          }
        }
      }
    }
  }

  /** Storage order lists each row of the map exactly once. */
  lemma FlatIsTable(layout: Layout, m: map<nat, Loc>)
    requires Indexed(layout, m)
    ensures NoDup(Flat(layout, |layout|))
    ensures forall r :: r in Flat(layout, |layout|) <==> r in TableOf(layout, m).Values
  {
    FlatNoDup(layout, m, |layout|);
    FlatMembers(layout, |layout|);
    hide Flat;
    var t := TableOf(layout, m);
    forall r | Within(layout, |layout|, r) ensures r in t.Values {
      var at :| InLayout(layout, at) && RowIn(layout, at) == r;
      assert r.id in t && t[r.id] == r;
    }
    forall r | r in t.Values ensures Within(layout, |layout|, r) {
      var id :| id in t && t[id] == r;
      assert InLayout(layout, m[id]) && RowIn(layout, m[id]) == r;
    }
  }

  /** Selecting from storage order lists each selected row of the map exactly once. */
  lemma SelectIsTable(layout: Layout, m: map<nat, Loc>, p: Row -> bool)
    requires Indexed(layout, m)
    ensures multiset(Select(Flat(layout, |layout|), p)) == RowsWhere(TableOf(layout, m), p)
  {
    hide Indexed, Select, Flat, NoDup;
    var rows := Flat(layout, |layout|);
    FlatIsTable(layout, m);
    SelectMembers(rows, p);
    SelectNoDup(rows, p);
    NoDupIsMultiset(Select(rows, p), set r | r in TableOf(layout, m).Values && p(r));
  }

  lemma {:induction false} FlatGrows(layout: Layout, p: nat, n: nat)
    requires p < n <= |layout|
    ensures |Flat(layout, p)| + |layout[p]| <= |Flat(layout, n)|
  {
    if p < n - 1 { FlatGrows(layout, p, n - 1); }
  }

  lemma {:induction false} FlatAt(layout: Layout, n: nat, at: Loc)
    requires InLayout(layout, at) && at.page < n <= |layout|
    ensures |Flat(layout, at.page)| + at.slot < |Flat(layout, n)|
    ensures Flat(layout, n)[|Flat(layout, at.page)| + at.slot] == RowIn(layout, at)
  {
    if at.page < n - 1 { FlatAt(layout, n - 1, at); }
  }

  lemma CountTwice<T>(s: seq<T>, i: nat, j: nat)
    requires i < j < |s| && s[i] == s[j]
    ensures multiset(s)[s[i]] >= 2
  {
    assert s == s[..j] + s[j..];
    assert s[..j][i] == s[i] && s[j..][0] == s[j];
  }

  ghost predicate Keyed(t: Table) { forall id :: id in t ==> t[id].id == id }

  lemma ListedRow(rows: seq<Row>, t: Table, i: nat)
    requires Keyed(t) && multiset(rows) == multiset(t.Values) && i < |rows|
    ensures rows[i].id in t && t[rows[i].id] == rows[i] && multiset(rows)[rows[i]] == 1
  {
    assert rows[i] in multiset(rows);
  }

  lemma Apart(layout: Layout, a: Loc, b: Loc)
    requires InLayout(layout, a) && InLayout(layout, b) && a != b
    ensures |Flat(layout, a.page)| + a.slot != |Flat(layout, b.page)| + b.slot
  {
    if a.page < b.page { FlatGrows(layout, a.page, b.page); }
    if b.page < a.page { FlatGrows(layout, b.page, a.page); }
  }

  /** If storage order lists the rows of any map exactly once, no id sits in two places. */
  lemma ListedOnce(layout: Layout, t: Table)
    requires Keyed(t) && multiset(Flat(layout, |layout|)) == multiset(t.Values)
    ensures UniqueIds(layout)
  {
    hide Keyed, Flat;
    var rows := Flat(layout, |layout|);
    forall a, b | InLayout(layout, a) && InLayout(layout, b) && RowIn(layout, a).id == RowIn(layout, b).id ensures a == b {
      FlatAt(layout, |layout|, a);
      FlatAt(layout, |layout|, b);
      var i, j := |Flat(layout, a.page)| + a.slot, |Flat(layout, b.page)| + b.slot;
      ListedRow(rows, t, i);
      ListedRow(rows, t, j);
      if a != b {
        Apart(layout, a, b);
        CountTwice(rows, if i < j then i else j, if i < j then j else i);
      }
    }
  }

  /** An index with the ids of a map is sound if a full scan lists that map. */
  lemma ListedIsSound(layout: Layout, m: map<nat, Loc>, t: Table)
    requires Points(layout, m) && Keyed(t) && m.Keys == t.Keys
    requires multiset(Flat(layout, |layout|)) == multiset(t.Values)
    ensures Indexed(layout, m)
  {
    hide Keyed, Flat, UniqueIds, Points;
    ListedOnce(layout, t);
    forall at | InLayout(layout, at) ensures RowIn(layout, at).id in m && m[RowIn(layout, at).id] == at {
      FlatAt(layout, |layout|, at);
      ListedRow(Flat(layout, |layout|), t, |Flat(layout, at.page)| + at.slot);
      OnlyPlace(layout, m, at);
    }
    PointsAll(layout, m);
  }

  lemma OnlyPlace(layout: Layout, m: map<nat, Loc>, at: Loc)
    requires Points(layout, m) && UniqueIds(layout) && InLayout(layout, at) && RowIn(layout, at).id in m
    ensures m[RowIn(layout, at).id] == at
  {}

  lemma PointsAll(layout: Layout, m: map<nat, Loc>)
    requires Points(layout, m)
    ensures forall id :: id in m ==> InLayout(layout, m[id]) && RowIn(layout, m[id]).id == id
  {}

  /** On a sound index a full scan lists the map. */
  lemma SoundIsListed(layout: Layout, m: map<nat, Loc>)
    requires Indexed(layout, m)
    ensures multiset(Flat(layout, |layout|)) == multiset(TableOf(layout, m).Values)
  {
    hide Indexed, Flat, NoDup;
    FlatIsTable(layout, m);
    NoDupIsMultiset(Flat(layout, |layout|), TableOf(layout, m).Values);
  }

  lemma TableKeyed(layout: Layout, m: map<nat, Loc>)
    requires Indexed(layout, m)
    ensures Keyed(TableOf(layout, m))
  {}
}
