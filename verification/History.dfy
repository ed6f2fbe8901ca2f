/** What the engine did since the file's pages were last read or checkpointed, as
    placements: the log records and the layouts they led through. */
module History {
  import opened Rows
  import opened Index
  import opened Layouts
  import opened Replay
  import opened Bytes
  import W = Wal

  /** A logged change and the slot it happened at; none when replay found nothing to do. */
  datatype Event = Event(change: Change, at: Option<Loc>)

  ghost predicate Absent(layout: Layout, id: nat) {
    forall at :: InLayout(layout, at) ==> RowIn(layout, at).id != id
  }

  /** Inserts are of storable rows, new ones at the place the layout dictates; deletes
      name where the row is; a present insert and an absent delete do nothing. */
  ghost predicate LegalEvent(layout: Layout, e: Event, schema: Schema) {
    match e.change
    case Put(row) => Storable(row, schema) && e.at == if Absent(layout, row.id) then Some(Place(layout, row)) else None
    case Del(id) =>
      if e.at.None? then Absent(layout, id)
      else InLayout(layout, e.at.value) && RowIn(layout, e.at.value).id == id
  }

  ghost function Effect(layout: Layout, e: Event): Layout {
    if e.at.None? then layout else
    match e.change
    case Put(row) => Inserted(layout, row)
    case Del(_) => if InLayout(layout, e.at.value) then Erased(layout, e.at.value) else layout
  }

  /** The layout after the first `n` events. */
  ghost function LayoutAfter(base: Layout, es: seq<Event>, n: nat): Layout
    requires n <= |es|
  {
    if n == 0 then base else Effect(LayoutAfter(base, es, n - 1), es[n - 1])
  }

  ghost predicate LegalHistory(base: Layout, es: seq<Event>, schema: Schema) {
    forall n :: 0 <= n < |es| ==> LegalEvent(LayoutAfter(base, es, n), es[n], schema)
  }

  ghost predicate Moment(layout: Layout, base: Layout, es: seq<Event>) {
    exists k :: 0 <= k <= |es| && layout == LayoutAfter(base, es, k)
  }

  /** Every layout in the list is one of the history. */
  ghost predicate Remembers(seen: seq<Layout>, base: Layout, es: seq<Event>) {
    forall k :: 0 <= k < |seen| ==> Moment(seen[k], base, es)
  }

  lemma RemembersStart(base: Layout)
    ensures Remembers([base], base, []) && LayoutAfter(base, [], 0) == base
  {
    assert LayoutAfter(base, [], 0) == base;
  }

  lemma MomentStays(layout: Layout, base: Layout, es: seq<Event>, e: Event)
    requires Moment(layout, base, es)
    ensures Moment(layout, base, es + [e])
  {
    hide Effect;
    var k :| 0 <= k <= |es| && layout == LayoutAfter(base, es, k);
    PrefixLayout(base, es, es + [e], k);
  }

  lemma RemembersMore(seen: seq<Layout>, base: Layout, es: seq<Event>, e: Event)
    requires Remembers(seen, base, es)
    ensures Remembers(seen, base, es + [e])
    ensures Remembers(seen + [Effect(LayoutAfter(base, es, |es|), e)], base, es + [e])
  {
    hide Effect, Moment;
    forall k | 0 <= k < |seen| ensures Moment(seen[k], base, es + [e]) {
      MomentStays(seen[k], base, es, e);
    }
    LastMoment(base, es, e);
  }

  lemma LastMoment(base: Layout, es: seq<Event>, e: Event)
    ensures LayoutAfter(base, es + [e], |es| + 1) == Effect(LayoutAfter(base, es, |es|), e)
    ensures Moment(Effect(LayoutAfter(base, es, |es|), e), base, es + [e])
  {
    hide Effect;
    PrefixLayout(base, es, es + [e], |es|);
    assert LayoutAfter(base, es + [e], |es| + 1) == Effect(LayoutAfter(base, es, |es|), e);
  }

  /** The record logs this change: an insert carries its row's bytes. */
  ghost predicate Carries(r: W.Record, c: Change, schema: Schema) {
    match c
    case Put(row) => r.kind == W.INSERT && Storable(row, schema) && r.rowId == row.id && r.rowData == EncodeRow(row)
    case Del(id) => r.kind == W.DELETE && r.rowId == id
  }

  /** The records of a history, in order. */
  ghost predicate Logged(rs: seq<W.Record>, es: seq<Event>, base: Layout, schema: Schema) {
    && LegalHistory(base, es, schema)
    && |rs| == |es|
    && forall i :: 0 <= i < |es| ==> Carries(rs[i], es[i].change, schema)
  }

  /** The change happened, at the page and slot the record carries. */
  predicate Placed(r: W.Record, e: Event) { e.at == Some(Loc(r.pageId, r.rowSlot)) }

  /** Every change happened where its record says. */
  ghost predicate Exact(rs: seq<W.Record>, es: seq<Event>) {
    |rs| == |es| && forall i :: 0 <= i < |es| ==> Placed(rs[i], es[i])
  }

  /** From event `n` on nothing was skipped. */
  ghost predicate LiveFrom(es: seq<Event>, n: nat) {
    forall i :: n <= i < |es| ==> es[i].at.Some?
  }

  lemma {:induction false} PrefixLayout(base: Layout, a: seq<Event>, b: seq<Event>, n: nat)
    requires n <= |a| <= |b| && b[..|a|] == a
    ensures LayoutAfter(base, a, n) == LayoutAfter(base, b, n)
  {
    hide Effect;
    if n > 0 {
      PrefixLayout(base, a, b, n - 1);
      assert b[..|a|][n - 1] == b[n - 1];
    }
  }

  /** One more event. */
  lemma Grow(rs: seq<W.Record>, es: seq<Event>, base: Layout, schema: Schema, r: W.Record, e: Event)
    requires Logged(rs, es, base, schema)
    requires LegalEvent(LayoutAfter(base, es, |es|), e, schema) && Carries(r, e.change, schema)
    ensures Logged(rs + [r], es + [e], base, schema)
    ensures LayoutAfter(base, es + [e], |es| + 1) == Effect(LayoutAfter(base, es, |es|), e)
  {
    hide LegalEvent, Carries, Effect;
    var fs := es + [e];
    forall n | 0 <= n <= |es| ensures LayoutAfter(base, fs, n) == LayoutAfter(base, es, n) {
      PrefixLayout(base, es, fs, n);
    }
    forall n | 0 <= n < |fs| ensures LegalEvent(LayoutAfter(base, fs, n), fs[n], schema) {
      if n < |es| { assert fs[n] == es[n]; }
    }
  }

  /** A prefix of a history is a history, logged by the prefix of its records. */
  lemma Prefix(rs: seq<W.Record>, es: seq<Event>, base: Layout, schema: Schema, n: nat)
    requires Logged(rs, es, base, schema) && n <= |es|
    ensures Logged(rs[..n], es[..n], base, schema)
    ensures LayoutAfter(base, es[..n], n) == LayoutAfter(base, es, n)
  {
    hide LegalEvent, Carries, Effect;
    forall k | 0 <= k <= n ensures LayoutAfter(base, es[..n], k) == LayoutAfter(base, es, k) {
      PrefixLayout(base, es[..n], es, k);
    }
  }

  /** An inserted row is where its record says. */
  lemma Lands(rs: seq<W.Record>, es: seq<Event>, base: Layout, schema: Schema, n: nat)
    requires Logged(rs, es, base, schema) && n < |es| && Placed(rs[n], es[n]) && es[n].change.Put?
    ensures InLayout(LayoutAfter(base, es, n + 1), Loc(rs[n].pageId, rs[n].rowSlot))
    ensures RowIn(LayoutAfter(base, es, n + 1), Loc(rs[n].pageId, rs[n].rowSlot)) == es[n].change.row
  {
    hide HasRoom;
    var before := LayoutAfter(base, es, n);
    assert LegalEvent(before, es[n], schema);
    assert LayoutAfter(base, es, n + 1) == Inserted(before, es[n].change.row);
  }

  function Changes(es: seq<Event>): (cs: seq<Change>)
    ensures |cs| == |es| && forall i :: 0 <= i < |es| ==> cs[i] == es[i].change
  {
    seq(|es|, i requires 0 <= i < |es| => es[i].change)
  }

  lemma ChangesPrefix(es: seq<Event>, n: nat)
    requires n <= |es|
    ensures Changes(es[..n]) == Changes(es)[..n]
  {}

  lemma ChangesMore(es: seq<Event>, e: Event)
    ensures Changes(es + [e]) == Changes(es) + [e.change]
  {}

  lemma AbsentIndexed(layout: Layout, m: map<nat, Loc>, id: nat)
    requires Indexed(layout, m)
    ensures Absent(layout, id) <==> id !in m
  {
    if id in m { assert InLayout(layout, m[id]) && RowIn(layout, m[id]).id == id; }
  }

  /** What replay does with a change, by the index. */
  function EventFor(layout: Layout, m: map<nat, Loc>, c: Change): Event {
    match c
    case Put(row) => Event(c, if row.id in m then None else Some(Place(layout, row)))
    case Del(id) => Event(c, if id in m then Some(m[id]) else None)
  }

  /** On a sound index that is the one legal event of the change. */
  lemma OneEvent(layout: Layout, m: map<nat, Loc>, e: Event, schema: Schema)
    requires Indexed(layout, m) && (e.change.Put? ==> Storable(e.change.row, schema))
    ensures LegalEvent(layout, e, schema) <==> e == EventFor(layout, m, e.change)
  {
    hide Place, Storable;
    AbsentIndexed(layout, m, Id(e.change));
  }

  /** One event on an indexed layout acts on the map as replaying its change. */
  lemma EventOnTable(layout: Layout, m: map<nat, Loc>, e: Event, schema: Schema) returns (m': map<nat, Loc>)
    requires Indexed(layout, m) && LegalEvent(layout, e, schema)
    ensures Indexed(Effect(layout, e), m')
    ensures e.at.Some? <==> Legal(TableOf(layout, m), e.change)
    ensures TableOf(Effect(layout, e), m') == ReplayOne(TableOf(layout, m), e.change)
  {
    hide HasRoom, InLayout;
    AbsentIndexed(layout, m, Id(e.change));
    if e.at.None? {
      assert e.change.Del? ==> TableOf(layout, m) - {e.change.id} == TableOf(layout, m);
      return m;
    }
    match e.change {
      case Put(row) =>
        InsertIndexed(layout, m, row);
        m' := m[row.id := Place(layout, row)];
      case Del(id) =>
        var at := e.at.value;
        assert m[id] == at;
        m' := map k | k in m && k != id :: Shifted(m[k], at);
        forall k | k in m' ensures InLayout(Erased(layout, at), m'[k]) && RowIn(Erased(layout, at), m'[k]).id == k {
          ErasedRows(layout, at, m[k]);
        }
        SamePage(m, m', id);
        EraseIndexed(layout, m, id, m');
    }
  }

  lemma SamePage(m: map<nat, Loc>, n: map<nat, Loc>, id: nat)
    requires id in m && n == map k | k in m && k != id :: Shifted(m[k], m[id])
    ensures forall k :: k in n ==> n[k].page == m[k].page && (m[k].page != m[id].page ==> n[k] == m[k])
  {}

  lemma EventLegalAt(base: Layout, es: seq<Event>, schema: Schema, n: nat)
    requires LegalHistory(base, es, schema) && n < |es|
    ensures LegalEvent(LayoutAfter(base, es, n), es[n], schema)
  {}

  /** The layouts a history goes through stand for the replay of its changes. */
  lemma {:induction false} HistoryOnTable(base: Layout, m: map<nat, Loc>, es: seq<Event>, schema: Schema, n: nat) returns (m': map<nat, Loc>)
    requires Indexed(base, m) && LegalHistory(base, es, schema) && n <= |es|
    ensures Indexed(LayoutAfter(base, es, n), m')
    ensures TableOf(LayoutAfter(base, es, n), m') == ReplayAll(TableOf(base, m), Changes(es)[..n])
  {
    hide Indexed, LegalHistory, LegalEvent, Effect, ReplayOne, TableOf;
    if n == 0 {
      m' := m;
    } else {
      var before := HistoryOnTable(base, m, es, schema, n - 1);
      EventLegalAt(base, es, schema, n - 1);
      m' := EventOnTable(LayoutAfter(base, es, n - 1), before, es[n - 1], schema);
      assert Changes(es)[..n][..n - 1] == Changes(es)[..n - 1];
    }
  }

  /** An event that was not skipped is a legal change where it happened. */
  lemma LiveIsLegal(base: Layout, m: map<nat, Loc>, es: seq<Event>, schema: Schema, n: nat)
    requires Indexed(base, m) && LegalHistory(base, es, schema) && n < |es| && es[n].at.Some?
    ensures Legal(ReplayAll(TableOf(base, m), Changes(es)[..n]), Changes(es)[n])
  {
    hide Indexed, LegalHistory, LegalEvent, Effect, Legal, ReplayAll, TableOf;
    var m' := HistoryOnTable(base, m, es, schema, n);
    EventLegalAt(base, es, schema, n);
    var _ := EventOnTable(LayoutAfter(base, es, n), m', es[n], schema);
  }

  /** A history with nothing skipped is a legal run of map changes, replayed as it ran. */
  lemma {:induction false} HistoryIsRun(base: Layout, m: map<nat, Loc>, es: seq<Event>, schema: Schema, n: nat)
    requires Indexed(base, m) && LegalHistory(base, es, schema) && LiveFrom(es, 0) && n <= |es|
    ensures ReplayAll(TableOf(base, m), Changes(es)[..n]) == After(TableOf(base, m), Changes(es), n)
    ensures forall k :: 0 <= k < n ==> Legal(After(TableOf(base, m), Changes(es), k), Changes(es)[k])
  {
    hide Indexed, LegalHistory, TableOf, Legal, ReplayAll, Changes;
    if n > 0 {
      HistoryIsRun(base, m, es, schema, n - 1);
      LiveIsLegal(base, m, es, schema, n - 1);
      RunStep(TableOf(base, m), Changes(es), n);
    } else {
      assert Changes(es)[..0] == [] && ReplayAll(TableOf(base, m), []) == TableOf(base, m) by { ReplayNone(TableOf(base, m)); }
    }
  }

  /** What the log restores at open it restores ever after. */
  lemma {:induction false} RestoresSince(base: Layout, m: map<nat, Loc>, es: seq<Event>, schema: Schema, f: nat, n: nat)
    requires Indexed(base, m) && LegalHistory(base, es, schema) && LiveFrom(es, f) && f <= n <= |es|
    requires Restores(TableOf(base, m), Changes(es)[..f])
    ensures Restores(TableOf(base, m), Changes(es)[..n])
    decreases n - f
  {
    hide Indexed, LegalHistory, TableOf, Restores, ReplayAll, Legal;
    if n > f {
      RestoresSince(base, m, es, schema, f, n - 1);
      LiveIsLegal(base, m, es, schema, n - 1);
      RestoresGrows(TableOf(base, m), Changes(es)[..n - 1], Changes(es)[n - 1]);
      assert Changes(es)[..n - 1] + [Changes(es)[n - 1]] == Changes(es)[..n];
    }
  }

  /** On a given start, the changes determine the history. */
  lemma {:induction false} SameHistory(base: Layout, m: map<nat, Loc>, es: seq<Event>, fs: seq<Event>, schema: Schema, n: nat)
    requires Indexed(base, m) && LegalHistory(base, es, schema) && LegalHistory(base, fs, schema)
    requires Changes(es) == Changes(fs) && n <= |es| == |fs|
    ensures es[..n] == fs[..n] && LayoutAfter(base, es, n) == LayoutAfter(base, fs, n)
  {
    hide Indexed, LegalHistory, Effect, LegalEvent;
    if n > 0 {
      var k := n - 1;
      SameHistory(base, m, es, fs, schema, k);
      var m' := HistoryOnTable(base, m, es, schema, k);
      EventLegalAt(base, es, schema, k);
      EventLegalAt(base, fs, schema, k);
      assert es[k].change == Changes(es)[k] == Changes(fs)[k] == fs[k].change;
      SameEvent(LayoutAfter(base, es, k), m', es[k], fs[k], schema);
    }
  }

  lemma SameEvent(layout: Layout, m: map<nat, Loc>, e: Event, f: Event, schema: Schema)
    requires Indexed(layout, m) && LegalEvent(layout, e, schema) && LegalEvent(layout, f, schema) && e.change == f.change
    ensures e == f
  {
    hide Indexed, Storable, Place;
    StorableEvent(layout, e, schema);
    OneEvent(layout, m, e, schema);
    OneEvent(layout, m, f, schema);
  }

  lemma StorableEvent(layout: Layout, e: Event, schema: Schema)
    requires LegalEvent(layout, e, schema)
    ensures e.change.Put? ==> Storable(e.change.row, schema)
  {}

  /** Two indexings of one layout are the same map. */
  lemma IndexUnique(layout: Layout, m: map<nat, Loc>, n: map<nat, Loc>)
    requires Indexed(layout, m) && Indexed(layout, n)
    ensures m == n
  {
    assert forall id :: id in m ==> id in n && n[id] == m[id];
    assert forall id :: id in n ==> id in m;
  }
}
