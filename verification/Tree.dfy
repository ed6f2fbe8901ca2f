/** BPTree of src/bptree.cpp: a sorted vector of keys, each with its row ids in the order
    they were filed. */
module Tree {
  import opened Bytes
  import opened Keys
  import opened Folds

  datatype Entry = Entry(key: Key, ids: seq<nat>)

  datatype Item = Item(key: Key, id: nat)

  ghost predicate Sorted(s: seq<Entry>) {
    forall i, j :: 0 <= i < j < |s| ==> Less(s[i].key, s[j].key)
  }

  /** The ids filed under each key, in order. */
  type Filing = map<Key, seq<nat>>

  ghost function IdsUnder(filed: Filing, key: Key): seq<nat> { if key in filed then filed[key] else [] }

  /** The entries are the filing: one for each key, none empty, no id twice. */
  ghost predicate Lists(s: seq<Entry>, filed: Filing) {
    && (forall i :: 0 <= i < |s| ==> s[i].ids != [] && NoDup(s[i].ids))
    && (forall i :: 0 <= i < |s| ==> s[i].key in filed && filed[s[i].key] == s[i].ids)
    && (forall key :: key in filed ==> HasKey(s, key))
  }

  ghost predicate HasKey(s: seq<Entry>, key: Key) {
    exists i :: 0 <= i < |s| && s[i].key == key
  }

  /** std::lower_bound with bptree_key_compare. */
  method LowerBound(s: seq<Entry>, key: Key) returns (k: nat)
    requires Sorted(s)
    ensures k <= |s|
    ensures forall i :: 0 <= i < k ==> Less(s[i].key, key)
    ensures forall i :: k <= i < |s| ==> !Less(s[i].key, key)
  {
    hide Compare;
    var lo: nat, hi: nat := 0, |s|;
    while lo < hi
      invariant lo <= hi <= |s|
      invariant forall i :: 0 <= i < lo ==> Less(s[i].key, key)
      invariant forall i :: hi <= i < |s| ==> !Less(s[i].key, key)
    {
      var mid := (lo + hi) / 2;
      var c := KeyCompare(s[mid].key, key);
      if c < 0 {
        forall i | 0 <= i < mid ensures Less(s[i].key, key) { LessTransitive(s[i].key, s[mid].key, key); }
        lo := mid + 1;
      } else {
        forall i | mid < i < |s| ensures !Less(s[i].key, key) {
          if Less(s[i].key, key) { LessTransitive(s[mid].key, s[i].key, key); }
        }
        hi := mid;
      }
    }
    k := lo;
  }

  /** find_entry: where the key is, or where it would go. */
  method Search(s: seq<Entry>, key: Key) returns (found: bool, k: nat)
    requires Sorted(s)
    ensures k <= |s|
    ensures forall i :: 0 <= i < k ==> Less(s[i].key, key)
    ensures found ==> k < |s| && s[k].key == key
    ensures !found ==> !HasKey(s, key) && forall i :: k <= i < |s| ==> Less(key, s[i].key)
  {
    hide Compare;
    k := LowerBound(s, key);
    found := false;
    if k < |s| {
      var c := KeyCompare(s[k].key, key);
      CompareEqual(s[k].key, key);
      found := c == 0;
    }
    if !found {
      forall i | k <= i < |s| ensures Less(key, s[i].key) {
        LessTotal(key, s[k].key);
        if i > k { LessTransitive(key, s[k].key, s[i].key); }
      }
      forall i | 0 <= i < |s| ensures s[i].key != key {
        LessTotal(s[i].key, key);
      }
    }
  }

  /** A vector with a new key in its place. */
  function Opened(s: seq<Entry>, k: nat, e: Entry): seq<Entry>
    requires k <= |s|
  {
    s[..k] + [e] + s[k..]
  }

  function Closed(s: seq<Entry>, k: nat): seq<Entry>
    requires k < |s|
  {
    s[..k] + s[k + 1..]
  }

  lemma OpenedSorted(s: seq<Entry>, k: nat, e: Entry)
    requires Sorted(s) && k <= |s|
    requires (forall i :: 0 <= i < k ==> Less(s[i].key, e.key)) && (forall i :: k <= i < |s| ==> Less(e.key, s[i].key))
    ensures Sorted(Opened(s, k, e))
  {
    hide Less;
  }

  lemma ClosedSorted(s: seq<Entry>, k: nat)
    requires Sorted(s) && k < |s|
    ensures Sorted(Closed(s, k))
  {
    hide Less;
  }

  lemma SortedKeys(s: seq<Entry>, i: nat, j: nat)
    requires Sorted(s) && i < |s| && j < |s| && i != j
    ensures s[i].key != s[j].key
  {
    hide Compare;
    LessTotal(s[i].key, s[j].key);
    if i < j { assert Less(s[i].key, s[j].key); } else { assert Less(s[j].key, s[i].key); }
  }

  lemma OpenedLists(s: seq<Entry>, filed: Filing, k: nat, key: Key, id: nat)
    requires Sorted(s) && Lists(s, filed) && k <= |s| && !HasKey(s, key)
    ensures Lists(Opened(s, k, Entry(key, [id])), filed[key := [id]]) && key !in filed
  {
    hide Less, Sorted;
    var t := Opened(s, k, Entry(key, [id]));
    assert t[k] == Entry(key, [id]);
    assert forall i :: 0 <= i < |t| && i != k ==> t[i] == s[if i < k then i else i - 1];
    forall other | other in filed ensures HasKey(t, other) {
      var i :| 0 <= i < |s| && s[i].key == other;
      assert t[if i < k then i else i + 1].key == other;
    }
  }

  /** Changing the ids of one entry. */
  lemma RelistedLists(s: seq<Entry>, filed: Filing, k: nat, ids: seq<nat>)
    requires Sorted(s) && Lists(s, filed) && k < |s| && ids != [] && NoDup(ids)
    ensures Lists(s[k := Entry(s[k].key, ids)], filed[s[k].key := ids])
    ensures Sorted(s[k := Entry(s[k].key, ids)])
  {
    hide Less;
    var t := s[k := Entry(s[k].key, ids)];
    assert forall i :: 0 <= i < |t| ==> t[i].key == s[i].key;
    forall i | 0 <= i < |s| && i != k ensures s[i].key != s[k].key { SortedKeys(s, i, k); }
    forall key | key in filed ensures HasKey(t, key) {
      var i :| 0 <= i < |s| && s[i].key == key;
      assert t[i].key == key;
    }
    assert t[k].key == s[k].key;
  }

  lemma ClosedLists(s: seq<Entry>, filed: Filing, k: nat)
    requires Sorted(s) && Lists(s, filed) && k < |s|
    ensures Lists(Closed(s, k), filed - {s[k].key})
  {
    hide Less;
    var t := Closed(s, k);
    assert forall i :: 0 <= i < |t| ==> t[i] == s[if i < k then i else i + 1];
    forall i | 0 <= i < |s| && i != k ensures s[i].key != s[k].key { SortedKeys(s, i, k); }
    forall key | key in filed - {s[k].key} ensures HasKey(t, key) {
      var i :| 0 <= i < |s| && s[i].key == key;
      assert t[if i < k then i else i - 1].key == key;
    }
  }

  /** The ids other than one, in order. */
  function Others(ids: seq<nat>, id: nat): seq<nat> {
    if ids == [] then [] else
    var front, last := ids[..|ids| - 1], ids[|ids| - 1];
    if last == id then Others(front, id) else Others(front, id) + [last]
  }

  lemma {:induction false} OthersMembers(ids: seq<nat>, id: nat)
    requires NoDup(ids)
    ensures NoDup(Others(ids, id)) && forall x :: x in Others(ids, id) <==> x in ids && x != id
  {
    if ids != [] {
      var front, last := ids[..|ids| - 1], ids[|ids| - 1];
      OthersMembers(front, id);
      assert ids == front + [last] && last !in front;
    }
  }

  /** std::remove of one value. */
  method RemoveId(ids: seq<nat>, id: nat) returns (r: seq<nat>)
    ensures r == Others(ids, id)
  {
    r := [];
    for i := 0 to |ids|
      invariant r == Others(ids[..i], id)
    {
      assert ids[..i + 1][..i] == ids[..i];
      if ids[i] != id {
        r := r + [ids[i]];
      }
    }
    assert ids[..|ids|] == ids;
  }

  predicate AtLeast(key: Key, lo: Option<Key>, inclusive: bool) {
    lo.Some? ==> Less(lo.value, key) || (inclusive && key == lo.value)
  }

  predicate AtMost(key: Key, hi: Option<Key>, inclusive: bool) {
    hi.Some? ==> Less(key, hi.value) || (inclusive && key == hi.value)
  }

  /** A key lies between optional bounds, each inclusive or not. */
  predicate InRange(key: Key, lo: Option<Key>, loInclusive: bool, hi: Option<Key>, hiInclusive: bool) {
    AtLeast(key, lo, loInclusive) && AtMost(key, hi, hiInclusive)
  }

  function ItemsOf(e: Entry): seq<Item> {
    seq(|e.ids|, i requires 0 <= i < |e.ids| => Item(e.key, e.ids[i]))
  }

  /** The ids that come with a key, in order. */
  ghost function OfKey(out: seq<Item>, key: Key): seq<nat> {
    if out == [] then [] else
    var last := out[|out| - 1];
    OfKey(out[..|out| - 1], key) + (if last.key == key then [last.id] else [])
  }

  ghost predicate Ascending(out: seq<Item>) {
    forall i, j :: 0 <= i < j < |out| ==> out[i].key == out[j].key || Less(out[i].key, out[j].key)
  }

  lemma {:induction false} OfKeyConcat(a: seq<Item>, b: seq<Item>, key: Key)
    ensures OfKey(a + b, key) == OfKey(a, key) + OfKey(b, key)
  {
    if b == [] {
      assert a + b == a;
    } else {
      assert (a + b)[..|a + b| - 1] == a + b[..|b| - 1];
      OfKeyConcat(a, b[..|b| - 1], key);
    }
  }

  lemma {:induction false} OfKeyMembers(out: seq<Item>, x: Item)
    ensures x in out <==> x.id in OfKey(out, x.key)
  {
    if out != [] {
      var front, last := out[..|out| - 1], out[|out| - 1];
      assert out == front + [last];
      OfKeyMembers(front, x);
    }
  }

  lemma {:induction false} OfEntry(e: Entry, n: nat, key: Key)
    requires n <= |e.ids|
    ensures OfKey(ItemsOf(e)[..n], key) == if key == e.key then e.ids[..n] else []
  {
    if n > 0 {
      OfEntry(e, n - 1, key);
      assert ItemsOf(e)[..n][..n - 1] == ItemsOf(e)[..n - 1];
      assert e.ids[..n] == e.ids[..n - 1] + [e.ids[n - 1]];
    }
  }

  /** The ids of a key among entries[from..to]. */
  ghost function Between(s: seq<Entry>, from: nat, to: nat, key: Key): seq<nat>
    requires to <= |s|
  {
    if to <= from then [] else if s[to - 1].key == key then s[to - 1].ids else Between(s, from, to - 1, key)
  }

  lemma {:induction false} BetweenAt(s: seq<Entry>, from: nat, to: nat, k: nat)
    requires Sorted(s) && from <= k < to <= |s|
    ensures Between(s, from, to, s[k].key) == s[k].ids
  {
    if k < to - 1 {
      SortedKeys(s, k, to - 1);
      BetweenAt(s, from, to - 1, k);
    }
  }

  lemma {:induction false} BetweenNone(s: seq<Entry>, from: nat, to: nat, key: Key)
    requires to <= |s| && forall k :: from <= k < to ==> s[k].key != key
    ensures Between(s, from, to, key) == []
  {
    if from < to { BetweenNone(s, from, to - 1, key); }
  }

  /** What has been visited: entries[from..to], in order. */
  ghost predicate Visited(s: seq<Entry>, from: nat, to: nat, out: seq<Item>) {
    && to <= |s| && Ascending(out)
    && (forall key :: OfKey(out, key) == Between(s, from, to, key))
    && (forall i :: 0 <= i < |out| ==> exists k :: from <= k < to && s[k].key == out[i].key)
  }

  lemma VisitOne(s: seq<Entry>, from: nat, to: nat, out: seq<Item>)
    requires Sorted(s) && from <= to < |s| && Visited(s, from, to, out)
    ensures Visited(s, from, to + 1, out + ItemsOf(s[to]))
  {
    hide Less, Sorted, Ascending, OfKey, Between;
    var more := ItemsOf(s[to]);
    forall key ensures OfKey(out + more, key) == Between(s, from, to + 1, key) { VisitKey(s, from, to, out, key); }
    forall i | 0 <= i < |out + more| ensures exists k :: from <= k < to + 1 && s[k].key == (out + more)[i].key {
      if i >= |out| { assert s[to].key == (out + more)[i].key; }
    }
    forall i | 0 <= i < |out| ensures Less(out[i].key, s[to].key) {
      var k := FoundIn(s, from, to, out, i);
      SortedLess(s, k, to);
    }
    AscendingMore(out, s[to]);
  }

  lemma FoundIn(s: seq<Entry>, from: nat, to: nat, out: seq<Item>, i: nat) returns (k: nat)
    requires Visited(s, from, to, out) && i < |out|
    ensures from <= k < to && s[k].key == out[i].key
  {
    assert out[i] in out;
    var j :| from <= j < to && s[j].key == out[i].key;
    k := j;
  }

  lemma SortedLess(s: seq<Entry>, i: nat, j: nat)
    requires Sorted(s) && i < j < |s|
    ensures Less(s[i].key, s[j].key)
  {}

  lemma VisitKey(s: seq<Entry>, from: nat, to: nat, out: seq<Item>, key: Key)
    requires Sorted(s) && from <= to < |s| && OfKey(out, key) == Between(s, from, to, key)
    ensures OfKey(out + ItemsOf(s[to]), key) == Between(s, from, to + 1, key)
  {
    hide Less;
    var more := ItemsOf(s[to]);
    OfKeyConcat(out, more, key);
    OfEntry(s[to], |s[to].ids|, key);
    assert more[..|more|] == more && s[to].ids[..|s[to].ids|] == s[to].ids;
    if key == s[to].key {
      forall k | from <= k < to ensures s[k].key != key { SortedKeys(s, k, to); }
      BetweenNone(s, from, to, key);
    }
  }

  lemma AscendingMore(out: seq<Item>, e: Entry)
    requires Ascending(out) && forall i :: 0 <= i < |out| ==> Less(out[i].key, e.key)
    ensures Ascending(out + ItemsOf(e))
  {
    hide Less;
  }

  class BPTree {
    var entries: seq<Entry>
    ghost var filed: Filing

    ghost predicate Valid()
      reads this
    {
      Sorted(entries) && Lists(entries, filed)
    }

    constructor ()
      ensures Valid() && filed == map[]
    {
      entries, filed := [], map[];
    }

    /** The id goes behind those filed under its key before, unless it is one of them. */
    method Insert(key: Key, id: nat)
      requires Valid()
      modifies this
      ensures Valid()
      ensures IdsUnder(filed, key) == IdsUnder(old(filed), key) + (if id in IdsUnder(old(filed), key) then [] else [id])
      ensures forall other :: other != key ==> IdsUnder(filed, other) == IdsUnder(old(filed), other)
    {
      hide Less, NoDup;
      var found, k := Search(entries, key);
      if found {
        var ids := entries[k].ids;
        if id !in ids {
          Appended(ids, id);
          RelistedLists(entries, filed, k, ids + [id]);
          entries := entries[k := Entry(key, ids + [id])];
          filed := filed[key := ids + [id]];
        }
      } else {
        OpenedSorted(entries, k, Entry(key, [id]));
        OpenedLists(entries, filed, k, key, id);
        entries := Opened(entries, k, Entry(key, [id]));
        filed := filed[key := [id]];
      }
    }

    /** The id leaves its key; the others keep their order. */
    method Erase(key: Key, id: nat)
      requires Valid()
      modifies this
      ensures Valid()
      ensures IdsUnder(filed, key) == Others(IdsUnder(old(filed), key), id)
      ensures forall other :: other != key ==> IdsUnder(filed, other) == IdsUnder(old(filed), other)
    {
      hide Less, NoDup;
      var found, k := Search(entries, key);
      if found {
        var ids := RemoveId(entries[k].ids, id);
        OthersMembers(entries[k].ids, id);
        if ids == [] {
          ClosedSorted(entries, k);
          ClosedLists(entries, filed, k);
          entries := Closed(entries, k);
          filed := filed - {key};
        } else {
          RelistedLists(entries, filed, k, ids);
          entries := entries[k := Entry(key, ids)];
          filed := filed[key := ids];
        }
      }
    }

    /** range_scan: the pairs between the bounds, keys ascending, and the ids of one key in
        the order they were filed. */
    method RangeScan(lo: Option<Key>, loInclusive: bool, hi: Option<Key>, hiInclusive: bool) returns (out: seq<Item>)
      requires Valid()
      ensures Ascending(out)
      ensures forall key :: OfKey(out, key) == if InRange(key, lo, loInclusive, hi, hiInclusive) then IdsUnder(filed, key) else []
    {
      hide Compare, Lists, NoDup, Visited, Ascending, OfKey;
      var start := 0;
      if lo.Some? {
        start := FirstInside(lo.value, loInclusive);
      }
      var stop := start;
      out := [];
      StartVisit(entries, start);
      while stop < |entries|
        invariant start <= stop <= |entries|
        invariant Visited(entries, start, stop, out)
        invariant forall k :: start <= k < stop ==> AtMost(entries[k].key, hi, hiInclusive)
      {
        if hi.Some? {
          var c := KeyCompare(entries[stop].key, hi.value);
          CompareEqual(entries[stop].key, hi.value);
          if c > 0 || (c == 0 && !hiInclusive) {
            break;
          }
        }
        VisitOne(entries, start, stop, out);
        out := out + ItemsOf(entries[stop]);
        stop := stop + 1;
      }
      assert stop < |entries| ==> !AtMost(entries[stop].key, hi, hiInclusive) by {
        if stop < |entries| && hi.Some? {
          LessTotal(entries[stop].key, hi.value);
          CompareFlips(entries[stop].key, hi.value);
        }
      }
      Bounded(entries, filed, start, stop, lo, loInclusive, hi, hiInclusive, out);
    }

    /** Where the scan starts: lower bound, one further past an excluded bound. */
    method FirstInside(lo: Key, inclusive: bool) returns (start: nat)
      requires Valid()
      ensures start <= |entries|
      ensures forall i :: 0 <= i < |entries| ==> (AtLeast(entries[i].key, Some(lo), inclusive) <==> start <= i)
    {
      hide Compare, Lists;
      var found;
      found, start := Search(entries, lo);
      forall i | 0 <= i < |entries| ensures AtLeast(entries[i].key, Some(lo), inclusive) <==> (if found && !inclusive then start + 1 else start) <= i {
        LessTotal(entries[i].key, lo);
        if found && i > start { assert Less(entries[start].key, entries[i].key); }
      }
      if found && !inclusive {
        start := start + 1;
      }
    }
  }

  lemma StartVisit(s: seq<Entry>, from: nat)
    requires from <= |s|
    ensures Visited(s, from, from, [])
  {}

  /** Keys past the first one beyond the upper bound are beyond it too. */
  lemma BeyondStays(s: seq<Entry>, stop: nat, i: nat, hi: Option<Key>, inclusive: bool)
    requires Sorted(s) && stop <= i < |s| && !AtMost(s[stop].key, hi, inclusive)
    ensures !AtMost(s[i].key, hi, inclusive)
  {
    hide Compare;
    if i > stop {
      assert Less(s[stop].key, s[i].key);
      if Less(s[i].key, hi.value) { LessTransitive(s[stop].key, s[i].key, hi.value); }
    }
  }

  lemma Bounded(s: seq<Entry>, filed: Filing, start: nat, stop: nat, lo: Option<Key>, loInclusive: bool,
                hi: Option<Key>, hiInclusive: bool, out: seq<Item>)
    requires Sorted(s) && Lists(s, filed) && start <= stop <= |s| && Visited(s, start, stop, out)
    requires forall i :: 0 <= i < |s| ==> (AtLeast(s[i].key, lo, loInclusive) <==> start <= i)
    requires forall k :: start <= k < stop ==> AtMost(s[k].key, hi, hiInclusive)
    requires stop < |s| ==> !AtMost(s[stop].key, hi, hiInclusive)
    ensures Ascending(out)
    ensures forall key :: OfKey(out, key) == if InRange(key, lo, loInclusive, hi, hiInclusive) then IdsUnder(filed, key) else []
  {
    hide Less, NoDup, Sorted, Ascending;
    forall key ensures OfKey(out, key) == if InRange(key, lo, loInclusive, hi, hiInclusive) then IdsUnder(filed, key) else [] {
      if k :| start <= k < stop && s[k].key == key {
        BetweenAt(s, start, stop, k);
      } else {
        BetweenNone(s, start, stop, key);
        if key in filed {
          var i :| 0 <= i < |s| && s[i].key == key;
          if i >= stop { BeyondStays(s, stop, i, hi, hiInclusive); }
        }
      }
    }
  }

  lemma Appended(ids: seq<nat>, id: nat)
    requires NoDup(ids) && id !in ids
    ensures NoDup(ids + [id]) && forall x :: x in ids + [id] <==> x in ids || x == id
  {}
}
