/** The primary index of include/xdl/index.h: a sorted vector, an unsorted write
    buffer and a reverse map that together behave as one map from id to location. */
module Index {
  import opened Bytes

  const MERGE_THRESHOLD := 1024

  datatype Loc = Loc(page: nat, slot: nat)

  datatype Pair = Pair(id: nat, loc: Loc)

  ghost predicate Sorted(s: seq<Pair>) {
    forall i, j :: 0 <= i < j < |s| ==> s[i].id < s[j].id
  }

  ghost predicate Distinct(s: seq<Pair>) {
    forall i, j :: 0 <= i < j < |s| ==> s[i].id != s[j].id
  }

  ghost predicate Apart(a: seq<Pair>, b: seq<Pair>) {
    forall p, q :: p in a && q in b ==> p.id != q.id
  }

  /** The pairs of both parts are the map's bindings. */
  ghost predicate Represents(a: seq<Pair>, b: seq<Pair>, m: map<nat, Loc>) {
    && (forall p :: p in a ==> p.id in m && m[p.id] == p.loc)
    && (forall p :: p in b ==> p.id in m && m[p.id] == p.loc)
    && (forall id :: id in m ==> Pair(id, m[id]) in a || Pair(id, m[id]) in b)
  }

  /** Both parts, the id set and the map they stand for. */
  ghost predicate Consistent(entries: seq<Pair>, buf: seq<Pair>, ids: set<nat>, m: map<nat, Loc>) {
    && Sorted(entries) && Distinct(buf) && Apart(entries, buf)
    && Represents(entries, buf, m)
    && Guards(ids, buf, m)
  }

  /** The reverse map is exactly the inverse of the page component. */
  ghost predicate Inverse(pages: map<nat, set<nat>>, m: map<nat, Loc>) {
    && (forall pid, id :: pid in pages && id in pages[pid] ==> id in m && m[id].page == pid)
    && (forall id :: id in m ==> m[id].page in pages && id in pages[m[id].page])
  }

  /** The id set that guards lookups in the buffer. */
  ghost predicate Guards(ids: set<nat>, b: seq<Pair>, m: map<nat, Loc>) {
    && (forall p :: p in b ==> p.id in ids)
    && (forall id :: id in ids ==> id in m && Pair(id, m[id]) in b)
  }

  function Dropped<T>(s: seq<T>, k: nat): seq<T>
    requires k < |s|
  {
    s[..k] + s[k + 1..]
  }

  lemma Parts(entries: seq<Pair>, buf: seq<Pair>, ids: set<nat>, m: map<nat, Loc>)
    requires Consistent(entries, buf, ids, m)
    ensures Sorted(entries) && Distinct(buf) && Apart(entries, buf) && Represents(entries, buf, m) && (buf == [] ==> ids == {})
  {
    hide Sorted, Distinct, Apart, Represents;
  }

  lemma SortedApart(entries: seq<Pair>, buf: seq<Pair>, sorted: seq<Pair>)
    requires Apart(entries, buf) && forall p :: p in sorted <==> p in buf
    ensures Apart(entries, sorted)
  {}

  /** Everything in the sorted part. */
  lemma MergedConsistent(entries: seq<Pair>, buf: seq<Pair>, ids: set<nat>, m: map<nat, Loc>, merged: seq<Pair>)
    requires Consistent(entries, buf, ids, m) && Sorted(merged) && forall p :: p in merged <==> p in entries || p in buf
    ensures Consistent(merged, [], {}, m) && Represents(merged, [], m)
  {
    hide Sorted;
  }

  /** std::lower_bound on the sorted vector. */
  method LowerBound(s: seq<Pair>, id: nat) returns (k: nat)
    requires Sorted(s)
    ensures k <= |s|
    ensures forall i :: 0 <= i < k ==> s[i].id < id
    ensures forall i :: k <= i < |s| ==> s[i].id >= id
  {
    var lo: nat, hi: nat := 0, |s|;
    while lo < hi
      invariant lo <= hi <= |s|
      invariant forall i :: 0 <= i < lo ==> s[i].id < id
      invariant forall i :: hi <= i < |s| ==> s[i].id >= id
    {
      var mid := (lo + hi) / 2;
      if s[mid].id < id { lo := mid + 1; } else { hi := mid; }
    }
    k := lo;
  }

  /** The slot of an id in the sorted vector, if it is there. */
  method Search(s: seq<Pair>, id: nat) returns (found: bool, k: nat)
    requires Sorted(s)
    ensures found ==> k < |s| && s[k].id == id
    ensures !found ==> forall p :: p in s ==> p.id != id
  {
    k := LowerBound(s, id);
    found := k < |s| && s[k].id == id;
  }

  /** std::sort on a buffer of distinct ids: binary insertion. */
  method Sort(b: seq<Pair>) returns (s: seq<Pair>)
    requires Distinct(b)
    ensures Sorted(s) && |s| == |b|
    ensures forall p :: p in s <==> p in b
  {
    s := [];
    for i := 0 to |b|
      invariant |s| == i && Sorted(s)
      invariant forall p :: p in s <==> p in b[..i]
    {
      var k := LowerBound(s, b[i].id);
      InsertAt(s, k, b[i]);
      s := s[..k] + [b[i]] + s[k..];
      assert b[..i + 1] == b[..i] + [b[i]];
    }
    assert b[..|b|] == b;
  }

  lemma InsertAt(s: seq<Pair>, k: nat, p: Pair)
    requires Sorted(s) && k <= |s| && (forall q :: q in s ==> q.id != p.id)
    requires (forall i :: 0 <= i < k ==> s[i].id < p.id) && (forall i :: k <= i < |s| ==> s[i].id >= p.id)
    ensures Sorted(s[..k] + [p] + s[k..])
    ensures forall q :: q in s[..k] + [p] + s[k..] <==> q in s || q == p
  {
    var t := s[..k] + [p] + s[k..];
    assert forall i :: k <= i < |s| ==> s[i] in s;
    InsertedMembers(s, k, p);
  }

  lemma InsertedMembers(s: seq<Pair>, k: nat, p: Pair)
    requires k <= |s|
    ensures forall q :: q in s[..k] + [p] + s[k..] <==> q in s || q == p
  {
    assert s == s[..k] + s[k..];
    assert forall q :: q in s <==> q in s[..k] || q in s[k..];
  }

  /** std::merge of two sorted vectors without common ids. */
  method Merge(a: seq<Pair>, b: seq<Pair>) returns (m: seq<Pair>)
    requires Sorted(a) && Sorted(b) && Apart(a, b)
    ensures Sorted(m) && |m| == |a| + |b|
    ensures forall p :: p in m <==> p in a || p in b
  {
    hide Sorted, Apart, Merged;
    m := [];
    MergedNone(a, b);
    var i: nat, j: nat := 0, 0;
    while i < |a| || j < |b|
      invariant i <= |a| && j <= |b| && |m| == i + j
      invariant Sorted(m) && Merged(m, a[..i], b[..j])
      invariant i < |a| ==> Below(m, a[i].id)
      invariant j < |b| ==> Below(m, b[j].id)
      decreases |a| - i + |b| - j
    {
      if j == |b| || (i < |a| && a[i].id < b[j].id) {
        Climbs(a, i);
        Extend(m, a[i]);
        MergedLeft(m, a, i, b[..j]);
        m := m + [a[i]];
        i := i + 1;
      } else {
        Climbs(b, j);
        Extend(m, b[j]);
        if i < |a| { NotEqual(a, b, i, j); }
        MergedRight(m, a[..i], b, j);
        m := m + [b[j]];
        j := j + 1;
      }
    }
    MergedAll(m, a, b);
  }

  ghost predicate Merged(m: seq<Pair>, x: seq<Pair>, y: seq<Pair>) {
    forall p :: p in m <==> p in x || p in y
  }

  lemma MergedNone(a: seq<Pair>, b: seq<Pair>)
    ensures Sorted([]) && Merged([], a[..0], b[..0])
  {}

  lemma MergedLeft(m: seq<Pair>, a: seq<Pair>, i: nat, y: seq<Pair>)
    requires i < |a| && Merged(m, a[..i], y)
    ensures Merged(m + [a[i]], a[..i + 1], y)
  {
    assert a[..i + 1] == a[..i] + [a[i]];
  }

  lemma MergedRight(m: seq<Pair>, x: seq<Pair>, b: seq<Pair>, j: nat)
    requires j < |b| && Merged(m, x, b[..j])
    ensures Merged(m + [b[j]], x, b[..j + 1])
  {
    assert b[..j + 1] == b[..j] + [b[j]];
  }

  lemma MergedAll(m: seq<Pair>, a: seq<Pair>, b: seq<Pair>)
    requires Merged(m, a[..|a|], b[..|b|])
    ensures forall p :: p in m <==> p in a || p in b
  {
    assert a[..|a|] == a && b[..|b|] == b;
  }

  lemma Extend(m: seq<Pair>, p: Pair)
    requires Sorted(m) && Below(m, p.id)
    ensures Sorted(m + [p])
  {}

  lemma NotEqual(a: seq<Pair>, b: seq<Pair>, i: nat, j: nat)
    requires Apart(a, b) && i < |a| && j < |b|
    ensures a[i].id != b[j].id
  {
    assert a[i] in a && b[j] in b;
  }

  ghost predicate Below(m: seq<Pair>, id: nat) {
    m != [] ==> m[|m| - 1].id < id
  }

  lemma Climbs(a: seq<Pair>, i: nat)
    requires i < |a| && Sorted(a)
    ensures i + 1 < |a| ==> a[i].id < a[i + 1].id
  {}

  function PageIds(pages: map<nat, set<nat>>, pid: nat): set<nat> { if pid in pages then pages[pid] else {} }

  function Filed(pages: map<nat, set<nat>>, pid: nat, id: nat): map<nat, set<nat>> {
    pages[pid := PageIds(pages, pid) + {id}]
  }

  function Unfiled(pages: map<nat, set<nat>>, pid: nat, id: nat): map<nat, set<nat>> {
    pages[pid := PageIds(pages, pid) - {id}]
  }

  lemma Pushed(b: seq<Pair>, id: nat, loc: Loc)
    ensures forall p :: p in b + [Pair(id, loc)] <==> p in b || p == Pair(id, loc)
  {}

  lemma PushedInverse(pages: map<nat, set<nat>>, m: map<nat, Loc>, id: nat, loc: Loc)
    requires Inverse(pages, m) && id !in m
    ensures Inverse(Filed(pages, loc.page, id), m[id := loc])
  {}

  lemma RemovedInverse(pages: map<nat, set<nat>>, m: map<nat, Loc>, id: nat)
    requires Inverse(pages, m) && id in m
    ensures Inverse(Unfiled(pages, m[id].page, id), m - {id})
  {}

  /** Dropping position `k` of a vector with distinct ids removes exactly that pair. */
  lemma DroppedPairs(s: seq<Pair>, k: nat)
    requires k < |s| && Distinct(s)
    ensures forall p :: p in Dropped(s, k) <==> p in s && p.id != s[k].id
  {
    var t := Dropped(s, k);
    forall p | p in s && p.id != s[k].id ensures p in t {
      var i :| 0 <= i < |s| && s[i] == p;
      assert p == if i < k then t[i] else t[i - 1];
    }
  }

  /** Replacing the location at position `k` leaves every other pair. */
  lemma ReplacedPairs(s: seq<Pair>, k: nat, loc: Loc)
    requires k < |s| && Distinct(s)
    ensures var q := Pair(s[k].id, loc);
            forall p :: p in s[k := q] <==> (p in s && p.id != s[k].id) || p == q
  {
    var q := Pair(s[k].id, loc);
    var t := s[k := q];
    assert t[k] == q;
    forall p | p in s && p.id != s[k].id ensures p in t {
      var i :| 0 <= i < |s| && s[i] == p;
      assert t[i] == p;
    }
  }

  lemma EntryDropped(entries: seq<Pair>, buf: seq<Pair>, ids: set<nat>, m: map<nat, Loc>, k: nat)
    requires Consistent(entries, buf, ids, m) && k < |entries|
    ensures entries[k].id in m && m[entries[k].id] == entries[k].loc
    ensures Consistent(Dropped(entries, k), buf, ids, m - {entries[k].id})
  {
    assert entries[k] in entries;
    DroppedPairs(entries, k);
    DroppedSorted(entries, k);
  }

  lemma DroppedSorted(s: seq<Pair>, k: nat)
    requires k < |s| && Sorted(s)
    ensures Sorted(Dropped(s, k))
  {}

  lemma BufferedDropped(entries: seq<Pair>, buf: seq<Pair>, ids: set<nat>, m: map<nat, Loc>, k: nat)
    requires Consistent(entries, buf, ids, m) && k < |buf|
    ensures buf[k].id in m && m[buf[k].id] == buf[k].loc
    ensures Consistent(entries, Dropped(buf, k), ids - {buf[k].id}, m - {buf[k].id})
  {
    assert buf[k] in buf;
    DroppedPairs(buf, k);
  }

  lemma EntryMoved(entries: seq<Pair>, buf: seq<Pair>, ids: set<nat>, m: map<nat, Loc>, k: nat, loc: Loc)
    requires Consistent(entries, buf, ids, m) && k < |entries|
    ensures entries[k].id in m && m[entries[k].id] == entries[k].loc
    ensures Consistent(entries[k := Pair(entries[k].id, loc)], buf, ids, m[entries[k].id := loc])
  {
    assert entries[k] in entries;
    ReplacedPairs(entries, k, loc);
    var es, n := entries[k := Pair(entries[k].id, loc)], m[entries[k].id := loc];
    assert Sorted(es) && Apart(es, buf);
    assert Represents(es, buf, n);
    assert Guards(ids, buf, n);
    hide Represents, Guards, Sorted, Apart, Distinct;
  }

  lemma BufferedMoved(entries: seq<Pair>, buf: seq<Pair>, ids: set<nat>, m: map<nat, Loc>, k: nat, loc: Loc)
    requires Consistent(entries, buf, ids, m) && k < |buf|
    ensures buf[k].id in m && m[buf[k].id] == buf[k].loc
    ensures Consistent(entries, buf[k := Pair(buf[k].id, loc)], ids, m[buf[k].id := loc])
  {
    assert buf[k] in buf;
    ReplacedPairs(buf, k, loc);
  }

  lemma BufferedPushed(entries: seq<Pair>, buf: seq<Pair>, ids: set<nat>, m: map<nat, Loc>, p: Pair)
    requires Consistent(entries, buf, ids, m) && p.id !in m
    ensures Consistent(entries, buf + [p], ids + {p.id}, m[p.id := p.loc])
  {
    Pushed(buf, p.id, p.loc);
    assert forall i :: 0 <= i < |buf| ==> buf[i] in buf;
  }

  lemma Absent(entries: seq<Pair>, buf: seq<Pair>, ids: set<nat>, m: map<nat, Loc>, id: nat)
    requires Consistent(entries, buf, ids, m)
    requires (forall p :: p in entries ==> p.id != id) && (forall p :: p in buf ==> p.id != id)
    ensures id !in m
  {}

  lemma MovedInverse(pages: map<nat, set<nat>>, m: map<nat, Loc>, id: nat, slot: nat)
    requires Inverse(pages, m) && id in m
    ensures Inverse(pages, m[id := Loc(m[id].page, slot)])
  {}

  class Manager {
    var entries: seq<Pair>
    var buf: seq<Pair>
    var bufIds: set<nat>
    var pageToIds: map<nat, set<nat>>
    var prepared: bool
    ghost var contents: map<nat, Loc>

    ghost predicate Valid()
      reads this
    {
      && Consistent(entries, buf, bufIds, contents)
      && (!prepared ==> entries == [])
      && Inverse(pageToIds, contents)
    }

    constructor ()
      ensures Valid() && contents == map[] && !prepared
    {
      entries, buf, bufIds, pageToIds, prepared := [], [], {}, map[], false;
      contents := map[];
    }

    /** Duplicate keys are refused and change nothing a caller can see. */
    method Insert(id: nat, loc: Loc) returns (ok: bool)
      requires Valid()
      modifies this
      ensures Valid() && prepared == old(prepared)
      ensures ok == (id !in old(contents))
      ensures contents == if ok then old(contents)[id := loc] else old(contents)
    {
      if prepared && |buf| >= MERGE_THRESHOLD {
        MergeBuffer();
      }
      var known := Find(id);
      ok := known.None?;
      if ok {
        Push(id, loc);
      }
    }

    method Push(id: nat, loc: Loc)
      requires Valid() && id !in contents
      modifies this`buf, this`bufIds, this`pageToIds, this`contents
      ensures Valid() && contents == old(contents)[id := loc]
    {
      hide Consistent, Inverse;
      BufferedPushed(entries, buf, bufIds, contents, Pair(id, loc));
      PushedInverse(pageToIds, contents, id, loc);
      buf := buf + [Pair(id, loc)];
      bufIds := bufIds + {id};
      pageToIds := Filed(pageToIds, loc.page, id);
      contents := contents[id := loc];
    }

    /** find: sorted part first, then the buffer behind its id set. */
    method Find(id: nat) returns (r: Option<Loc>)
      requires Valid()
      ensures r == if id in contents then Some(contents[id]) else None
    {
      if prepared {
        var found, k := Search(entries, id);
        if found {
          assert entries[k] in entries;
          return Some(entries[k].loc);
        }
      }
      if id !in bufIds {
        return None;
      }
      for i := 0 to |buf|
        invariant forall k :: 0 <= k < i ==> buf[k].id != id
      {
        if buf[i].id == id {
          assert buf[i] in buf;
          return Some(buf[i].loc);
        }
      }
      r := None;
    }

    method MergeBuffer()
      requires Valid()
      modifies this`entries, this`buf, this`bufIds
      ensures prepared || old(buf) == [] ==> Valid()
      ensures Sorted(entries) && buf == [] && bufIds == {} && Represents(entries, buf, contents)
    {
      hide Sorted, Distinct, Apart, Represents, Guards, Inverse, Consistent;
      Parts(entries, buf, bufIds, contents);
      if buf == [] {
        return;
      }
      var sorted := Sort(buf);
      SortedApart(entries, buf, sorted);
      var merged := Merge(entries, sorted);
      MergedConsistent(entries, buf, bufIds, contents, merged);
      entries, buf, bufIds := merged, [], {};
    }

    method Prepare()
      requires Valid()
      modifies this`entries, this`buf, this`bufIds, this`prepared
      ensures Valid() && prepared
    {
      if buf != [] {
        MergeBuffer();
      }
      prepared := true;
    }

    /** The position of an id in the buffer, or its length. */
    method BufferSlot(id: nat) returns (k: nat)
      requires Valid()
      ensures k <= |buf| && (k < |buf| ==> buf[k].id == id)
      ensures k == |buf| ==> forall p :: p in buf ==> p.id != id
    {
      hide Consistent, Inverse;
      for i := 0 to |buf|
        invariant forall k :: 0 <= k < i ==> buf[k].id != id
      {
        if buf[i].id == id {
          return i;
        }
      }
      k := |buf|;
    }

    /** remove: true when the id was present; it is then gone from every part. */
    method Remove(id: nat) returns (ok: bool)
      requires Valid()
      modifies this
      ensures Valid() && prepared == old(prepared)
      ensures ok == (id in old(contents)) && contents == old(contents) - {id}
    {
      if prepared {
        var found, k := Search(entries, id);
        if found {
          RemoveEntry(k);
          return true;
        }
      }
      var k := BufferSlot(id);
      ok := k < |buf|;
      if ok {
        RemoveBuffered(k);
      } else {
        assert contents - {id} == contents;
      }
    }

    method RemoveEntry(k: nat)
      requires Valid() && k < |entries|
      modifies this`entries, this`pageToIds, this`contents
      ensures Valid() && contents == old(contents) - {old(entries)[k].id} && old(entries)[k].id in old(contents)
    {
      hide Consistent, Inverse;
      var p := entries[k];
      EntryDropped(entries, buf, bufIds, contents, k);
      RemovedInverse(pageToIds, contents, p.id);
      pageToIds := Unfiled(pageToIds, p.loc.page, p.id);
      entries := Dropped(entries, k);
      contents := contents - {p.id};
    }

    method RemoveBuffered(k: nat)
      requires Valid() && k < |buf|
      modifies this`buf, this`bufIds, this`pageToIds, this`contents
      ensures Valid() && contents == old(contents) - {old(buf)[k].id} && old(buf)[k].id in old(contents)
    {
      hide Consistent, Inverse;
      var p := buf[k];
      BufferedDropped(entries, buf, bufIds, contents, k);
      RemovedInverse(pageToIds, contents, p.id);
      pageToIds := Unfiled(pageToIds, p.loc.page, p.id);
      bufIds := bufIds - {p.id};
      buf := Dropped(buf, k);
      contents := contents - {p.id};
    }

    /** update_slot: same page, new slot; an absent id changes nothing. */
    method UpdateSlot(id: nat, slot: nat)
      requires Valid()
      modifies this
      ensures Valid() && prepared == old(prepared) && pageToIds == old(pageToIds)
      ensures contents == if id in old(contents) then old(contents)[id := Loc(old(contents)[id].page, slot)] else old(contents)
    {
      hide Represents, Guards, Inverse, Apart, Sorted, Distinct;
      if id in contents { MovedInverse(pageToIds, contents, id, slot); }
      if prepared {
        var found, k := Search(entries, id);
        if found {
          var loc := Loc(entries[k].loc.page, slot);
          EntryMoved(entries, buf, bufIds, contents, k, loc);
          entries := entries[k := Pair(id, loc)];
          contents := contents[id := loc];
          return;
        }
      }
      var k := BufferSlot(id);
      if k < |buf| {
        var loc := Loc(buf[k].loc.page, slot);
        BufferedMoved(entries, buf, bufIds, contents, k, loc);
        buf := buf[k := Pair(id, loc)];
        contents := contents[id := loc];
      } else {
        Absent(entries, buf, bufIds, contents, id);
      }
    }

    /** ids_for_page: exactly the ids whose location is on the page. */
    method IdsForPage(pid: nat) returns (ids: set<nat>)
      requires Valid()
      ensures forall id :: id in ids <==> id in contents && contents[id].page == pid
    {
      ids := PageIds(pageToIds, pid);
    }
  }
}
