/** PageCache of src/cache.cpp: a most-recently-used-first list of page ids and the
    pages they name. */
module Cache {
  import opened Bytes
  import opened Folds
  import opened Pages

  /** std::list::splice to the front. */
  function ToFront(s: seq<nat>, k: nat): seq<nat>
    requires k < |s|
  {
    [s[k]] + (s[..k] + s[k + 1..])
  }

  lemma FrontKeeps(s: seq<nat>, k: nat)
    requires k < |s| && NoDup(s)
    ensures NoDup(ToFront(s, k)) && forall x :: x in ToFront(s, k) <==> x in s
  {
    var t := ToFront(s, k);
    forall x | x in s ensures x in t {
      var i :| 0 <= i < |s| && s[i] == x;
      assert t[if i < k then i + 1 else if i == k then 0 else i] == x;
    }
  }

  lemma DropLastKeeps(s: seq<nat>)
    requires s != [] && NoDup(s)
    ensures NoDup(s[..|s| - 1]) && forall x :: x in s[..|s| - 1] <==> x in s && x != s[|s| - 1]
  {
    forall x | x in s && x != s[|s| - 1] ensures x in s[..|s| - 1] {
      var i :| 0 <= i < |s| && s[i] == x;
      assert s[..|s| - 1][i] == x;
    }
  }

  /** The list without one id. */
  function Removed(s: seq<nat>, x: nat): seq<nat> {
    if s == [] then [] else if s[0] == x then Removed(s[1..], x) else [s[0]] + Removed(s[1..], x)
  }

  /** One use of a page: a hit moves to the front, a miss enters there and may push the last out. */
  function Used(lru: seq<nat>, id: nat, capacity: nat): seq<nat> {
    if id in lru then [id] + Removed(lru, id)
    else [id] + if lru != [] && |lru| >= capacity then lru[..|lru| - 1] else lru
  }

  /** The pages of an access history, most recently used first. */
  function Recent(history: seq<nat>): seq<nat> {
    if history == [] then []
    else var n := |history| - 1; [history[n]] + Removed(Recent(history[..n]), history[n])
  }

  function Take(s: seq<nat>, n: nat): seq<nat> { if |s| <= n then s else s[..n] }

  lemma {:induction false} RemovedIsSplice(s: seq<nat>, k: nat)
    requires NoDup(s) && k < |s|
    ensures Removed(s, s[k]) == s[..k] + s[k + 1..]
  {
    if k == 0 {
      RemovedAbsent(s[1..], s[0]);
    } else {
      assert s[1..][k - 1] == s[k];
      RemovedIsSplice(s[1..], k - 1);
    }
  }

  lemma {:induction false} RemovedAbsent(s: seq<nat>, x: nat)
    requires x !in s
    ensures Removed(s, x) == s
  {
    if s != [] { RemovedAbsent(s[1..], x); }
  }

  lemma ConsNoDup(x: nat, s: seq<nat>)
    requires NoDup(s) && x !in s
    ensures NoDup([x] + s)
  {}

  lemma {:induction false} RemovedNoDup(s: seq<nat>, x: nat)
    requires NoDup(s)
    ensures NoDup(Removed(s, x)) && x !in Removed(s, x)
    ensures forall y :: y in Removed(s, x) ==> y in s
  {
    if s != [] {
      assert NoDup(s[1..]) && s[0] !in s[1..];
      hide NoDup;
      RemovedNoDup(s[1..], x);
      if s[0] != x { ConsNoDup(s[0], Removed(s[1..], x)); }
    }
  }

  lemma {:induction false} RecentNoDup(history: seq<nat>)
    ensures NoDup(Recent(history))
  {
    if history != [] {
      var n := |history| - 1;
      RecentNoDup(history[..n]);
      RemovedNoDup(Recent(history[..n]), history[n]);
    }
  }

  /** Some use of `x` comes after every use of `y`. */
  ghost predicate LaterUse(history: seq<nat>, x: nat, y: nat) {
    exists k :: 0 <= k < |history| && history[k] == x && forall l :: k <= l < |history| ==> history[l] != y
  }

  lemma {:induction false} RemovedFrom(s: seq<nat>, x: nat, i: nat, j: nat) returns (p: nat, q: nat)
    requires i < j < |Removed(s, x)|
    ensures p < q < |s| && s[p] == Removed(s, x)[i] != x && s[q] == Removed(s, x)[j] != x
  {
    if s[0] == x {
      p, q := RemovedFrom(s[1..], x, i, j);
      p, q := p + 1, q + 1;
    } else if i > 0 {
      p, q := RemovedFrom(s[1..], x, i - 1, j - 1);
      p, q := p + 1, q + 1;
    } else {
      p := 0;
      q := RemovedAt(s[1..], x, j - 1);
      q := q + 1;
    }
  }

  lemma {:induction false} RemovedAt(s: seq<nat>, x: nat, j: nat) returns (q: nat)
    requires j < |Removed(s, x)|
    ensures q < |s| && s[q] == Removed(s, x)[j] != x
  {
    if s[0] == x || j > 0 {
      q := RemovedAt(s[1..], x, if s[0] == x then j else j - 1);
      q := q + 1;
    } else {
      q := 0;
    }
  }

  /** Most recently used first means: each page of the list has been used since the last use
      of every page behind it. */
  lemma {:induction false} RecentOrder(history: seq<nat>, i: nat, j: nat)
    requires i < j < |Recent(history)|
    ensures LaterUse(history, Recent(history)[i], Recent(history)[j])
  {
    var n := |history| - 1;
    var last, before := history[n], Recent(history[..n]);
    if i == 0 {
      var q := RemovedAt(before, last, j - 1);
      assert forall l :: n <= l < |history| ==> history[l] != Recent(history)[j];
    } else {
      var p, q := RemovedFrom(before, last, i - 1, j - 1);
      RecentOrder(history[..n], p, q);
      var k :| 0 <= k < n && history[..n][k] == before[p] && forall l :: k <= l < n ==> history[..n][l] != before[q];
      assert forall l :: k <= l < |history| ==> history[l] != before[q] by {
        assert forall l :: k <= l < n ==> history[..n][l] == history[l];
      }
      assert history[k] == before[p];
    }
  }

  lemma TakeHit(s: seq<nat>, k: nat, id: nat, n: nat)
    requires k < |s| && k < n
    ensures [id] + (Take(s, n)[..k] + Take(s, n)[k + 1..]) == Take([id] + (s[..k] + s[k + 1..]), n)
  {}

  lemma TakeMiss(s: seq<nat>, d: seq<nat>, id: nat, n: nat)
    requires n >= 1 && Take(s, n - 1) == Take(d, n - 1)
    ensures [id] + Take(s, n - 1) == Take([id] + d, n)
  {}

  /** Least-recently-used replacement: after any accesses the cache holds the `capacity`
      most recently used pages, in order of use. */
  lemma HoldsMostRecent(history: seq<nat>, id: nat, capacity: nat)
    requires capacity >= 1
    ensures Used(Take(Recent(history), capacity), id, capacity) == Take(Recent(history + [id]), capacity)
  {
    var s := Recent(history);
    assert (history + [id])[..|history|] == history;
    RecentNoDup(history);
    if k :| 0 <= k < |s| && s[k] == id {
      if k < capacity { UsedNear(s, k, capacity); } else { UsedFar(s, k, capacity); }
    } else {
      UsedNew(s, id, capacity);
    }
  }

  lemma TakeNoDup(s: seq<nat>, n: nat)
    requires NoDup(s)
    ensures NoDup(Take(s, n))
  {}

  lemma UsedNear(s: seq<nat>, k: nat, capacity: nat)
    requires NoDup(s) && k < |s| && k < capacity
    ensures Used(Take(s, capacity), s[k], capacity) == Take([s[k]] + Removed(s, s[k]), capacity)
  {
    hide NoDup, Removed;
    var t := Take(s, capacity);
    assert t[k] == s[k];
    TakeNoDup(s, capacity);
    RemovedIsSplice(s, k);
    RemovedIsSplice(t, k);
    TakeHit(s, k, s[k], capacity);
  }

  lemma UsedFar(s: seq<nat>, k: nat, capacity: nat)
    requires NoDup(s) && 1 <= capacity <= k < |s|
    ensures Used(Take(s, capacity), s[k], capacity) == Take([s[k]] + Removed(s, s[k]), capacity)
  {
    hide NoDup, Removed;
    RemovedIsSplice(s, k);
    NotBefore(s, k, capacity);
    TakeMiss(s, Removed(s, s[k]), s[k], capacity);
  }

  lemma UsedNew(s: seq<nat>, id: nat, capacity: nat)
    requires id !in s && 1 <= capacity
    ensures Used(Take(s, capacity), id, capacity) == Take([id] + Removed(s, id), capacity)
  {
    hide Removed;
    RemovedAbsent(s, id);
    TakeMiss(s, s, id, capacity);
  }

  lemma NotBefore(s: seq<nat>, k: nat, n: nat)
    requires NoDup(s) && n <= k < |s|
    ensures s[k] !in Take(s, n)
  {}

  class PageCache {
    const capacity: nat
    var lru: seq<nat>
    var frames: map<nat, Frame>
    ghost var history: seq<nat>

    /** Over the whole history of accesses the cache holds the most recently used pages. */
    ghost predicate Valid()
      reads this
    {
      && 1 <= capacity && |lru| <= capacity && NoDup(lru)
      && lru == Take(Recent(history), capacity)
      && (forall id :: id in lru <==> id in frames)
      && (forall id :: id in frames ==> frames[id].id == id)
    }

    /** A capacity of zero is raised to one. */
    constructor (cap: nat)
      ensures Valid() && lru == [] && frames == map[] && history == [] && capacity == if cap == 0 then 1 else cap
    {
      capacity := if cap == 0 then 1 else cap;
      lru, frames, history := [], map[], [];
    }

    lemma Positive()
      requires Valid()
      ensures 1 <= capacity
    {}

    lemma Listed(id: nat)
      requires Valid()
      ensures id in lru <==> id in frames
    {}

    /** get_shared and get_mut: a hit becomes most recently used. */
    method Get(id: nat) returns (f: Option<Frame>)
      requires Valid()
      modifies this`lru, this`history
      ensures Valid() && f == if id in frames then Some(frames[id]) else None
      ensures f.Some? ==> lru == Used(old(lru), id, capacity) && history == old(history) + [id]
      ensures f.None? ==> lru == old(lru) && history == old(history)
    {
      hide NoDup, Recent;
      if id !in frames {
        return None;
      }
      var k := Position(id);
      FrontKeeps(lru, k);
      RemovedIsSplice(lru, k);
      HoldsMostRecent(history, id, capacity);
      lru, history := ToFront(lru, k), history + [id];
      f := Some(frames[id]);
    }

    method Position(id: nat) returns (k: nat)
      requires id in lru
      ensures k < |lru| && lru[k] == id
    {
      k := 0;
      while lru[k] != id
        invariant k < |lru| && id !in lru[..k]
        decreases |lru| - k
      {
        assert lru[..k + 1] == lru[..k] + [lru[k]];
        assert lru[..|lru|] == lru;
        k := k + 1;
      }
    }

    /** The least recently used page. */
    method Victim() returns (id: nat)
      requires Valid() && lru != []
      ensures id in frames && id == lru[|lru| - 1]
    {
      id := lru[|lru| - 1];
    }

    /** put_shared's tail: a full cache drops its victim, then the page enters at the front. */
    method Put(f: Frame)
      requires Valid() && f.id !in frames
      modifies this
      ensures Valid() && history == old(history) + [f.id] && lru == Used(old(lru), f.id, capacity)
      ensures frames == Spared(old(lru), old(frames), capacity)[f.id := f]
    {
      hide Recent;
      HoldsMostRecent(history, f.id, capacity);
      PutKeeps(lru, frames, f, capacity);
      frames := Spared(lru, frames, capacity)[f.id := f];
      lru := [f.id] + (if |lru| >= capacity then lru[..|lru| - 1] else lru);
      history := history + [f.id];
    }

    /** The contents of a resident page after its holder changed it. */
    method Replace(f: Frame)
      requires Valid() && f.id in frames
      modifies this`frames
      ensures Valid() && frames == old(frames)[f.id := f]
    {
      hide NoDup, Recent;
      frames := frames[f.id := f];
    }
  }

  /** The pages left when room is made for one more. */
  function Spared(lru: seq<nat>, frames: map<nat, Frame>, capacity: nat): map<nat, Frame> {
    if lru != [] && |lru| >= capacity then frames - {lru[|lru| - 1]} else frames
  }

  lemma PutKeeps(lru: seq<nat>, frames: map<nat, Frame>, f: Frame, capacity: nat)
    requires 1 <= capacity && |lru| <= capacity && NoDup(lru) && f.id !in frames
    requires forall id :: id in lru <==> id in frames
    requires forall id :: id in frames ==> frames[id].id == id
    ensures var after, left := [f.id] + (if |lru| >= capacity then lru[..|lru| - 1] else lru), Spared(lru, frames, capacity)[f.id := f];
            && |after| <= capacity && NoDup(after) && (forall id :: id in after <==> id in left) && (forall id :: id in left ==> left[id].id == id)
  {
    var left := if |lru| >= capacity then lru[..|lru| - 1] else lru;
    if |lru| >= capacity { DropLastKeeps(lru); }
    assert NoDup(left) && f.id !in left && forall id :: id in left <==> id in Spared(lru, frames, capacity);
    ConsNoDup(f.id, left);
    hide NoDup;
    assert forall id :: id in [f.id] + left <==> id == f.id || id in left;
  }
}
