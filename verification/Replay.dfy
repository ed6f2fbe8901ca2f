/** Logical replay at the level of the id-to-row map (src/db.cpp:692-767): inserts
    of present ids and deletes of absent ids are skipped. */
module Replay {
  import opened Bytes
  import opened Rows

  type Table = map<nat, Row>

  datatype Change = Put(row: Row) | Del(id: nat)

  function Id(c: Change): nat { if c.Put? then c.row.id else c.id }

  function Lookup(t: Table, id: nat): Option<Row> { if id in t then Some(t[id]) else None }

  /** The rows of a map that satisfy `p`, each exactly once. */
  ghost function RowsWhere(t: Table, p: Row -> bool): multiset<Row> {
    multiset(set r | r in t.Values && p(r))
  }

  /** The live effect of a change. */
  function Apply(t: Table, c: Change): Table {
    match c
    case Put(row) => t[row.id := row]
    case Del(id) => t - {id}
  }

  /** A change the running engine can make: inserts are new, deletes are of present ids. */
  predicate Legal(t: Table, c: Change) { if c.Put? then c.row.id !in t else c.id in t }

  /** The state after the first `n` changes. */
  function After(t: Table, cs: seq<Change>, n: nat): Table
    requires n <= |cs|
  {
    if n == 0 then t else Apply(After(t, cs, n - 1), cs[n - 1])
  }

  predicate LegalRun(t: Table, cs: seq<Change>) {
    forall n :: 0 <= n < |cs| ==> Legal(After(t, cs, n), cs[n])
  }

  /** One replayed record: a present id is not inserted again. */
  function ReplayOne(t: Table, c: Change): Table {
    if c.Put? && c.row.id in t then t else Apply(t, c)
  }

  function ReplayAll(t: Table, cs: seq<Change>): Table {
    if cs == [] then t else ReplayOne(ReplayAll(t, cs[..|cs| - 1]), cs[|cs| - 1])
  }

  /** The ids after one replayed change depend on the ids before alone. */
  function KeysAfter(ids: set<nat>, c: Change): set<nat> { if c.Put? then ids + {c.row.id} else ids - {c.id} }

  lemma ReplayKeys(t: Table, c: Change)
    ensures ReplayOne(t, c).Keys == KeysAfter(t.Keys, c)
  {}

  /** A logged insert of a present id and a logged delete of an absent one change nothing;
      the others change their id alone. */
  lemma ReplayMeans(t: Table, c: Change, id: nat)
    ensures Lookup(ReplayOne(t, c), id)
         == match c
            case Put(row) => if id == row.id && id !in t then Some(row) else Lookup(t, id)
            case Del(gone) => if id == gone then None else Lookup(t, id)
  {}

  /** What replay does to one id, whatever the others do. */
  function ReplayId(v: Option<Row>, cs: seq<Change>, id: nat): Option<Row> {
    if cs == [] then v else
    var before, c := ReplayId(v, cs[..|cs| - 1], id), cs[|cs| - 1];
    if Id(c) != id then before
    else if c.Del? then None
    else if before.Some? then before
    else Some(c.row)
  }

  lemma {:induction false} ReplaysEachId(t: Table, cs: seq<Change>, id: nat)
    ensures Lookup(ReplayAll(t, cs), id) == ReplayId(Lookup(t, id), cs, id)
  {
    if cs != [] {
      ReplaysEachId(t, cs[..|cs| - 1], id);
    }
  }

  predicate Deletes(cs: seq<Change>, id: nat) {
    exists i :: 0 <= i < |cs| && cs[i] == Del(id)
  }

  /** A delete forgets where replay started; without one, a present id is left alone
      and an absent id ends the same from every absent start. */
  lemma {:induction false} ReplayShape(v: Option<Row>, w: Option<Row>, cs: seq<Change>, id: nat)
    ensures Deletes(cs, id) ==> ReplayId(v, cs, id) == ReplayId(w, cs, id)
    ensures !Deletes(cs, id) && v.Some? ==> ReplayId(v, cs, id) == v
  {
    if cs != [] {
      var n := |cs| - 1;
      var front, c := cs[..n], cs[n];
      ReplayShape(v, w, front, id);
      assert Deletes(front, id) ==> Deletes(cs, id) by {
        if Deletes(front, id) {
          var i :| 0 <= i < |front| && front[i] == Del(id);
          assert cs[i] == Del(id);
        }
      }
      assert c == Del(id) ==> Deletes(cs, id);
      if Deletes(cs, id) && c != Del(id) {
        var i :| 0 <= i < |cs| && cs[i] == Del(id);
        assert front[i] == Del(id);
      }
    }
  }

  lemma SameTable(a: Table, b: Table)
    requires forall id :: Lookup(a, id) == Lookup(b, id)
    ensures a == b
  {
    assert forall id :: id in a <==> Lookup(a, id).Some?;
    assert forall id :: id in b <==> Lookup(b, id).Some?;
    forall id | id in a ensures a[id] == b[id] {
      assert Lookup(a, id) == Lookup(b, id);
    }
  }

  /** Replaying any log twice is replaying it once, from any state. */
  lemma ReplayIdempotent(t: Table, cs: seq<Change>)
    ensures ReplayAll(ReplayAll(t, cs), cs) == ReplayAll(t, cs)
  {
    hide ReplayAll, ReplayId;
    var once := ReplayAll(t, cs);
    forall id ensures Lookup(ReplayAll(once, cs), id) == Lookup(once, id) {
      ReplaysEachId(t, cs, id);
      ReplaysEachId(once, cs, id);
      ReplayShape(Lookup(once, id), Lookup(t, id), cs, id);
      if !Deletes(cs, id) && Lookup(once, id).None? {
        AbsentStays(Lookup(t, id), cs, id);
      }
    }
    SameTable(ReplayAll(once, cs), once);
  }

  /** An id that ends absent without a delete was absent, and still ends absent. */
  lemma {:induction false} AbsentStays(v: Option<Row>, cs: seq<Change>, id: nat)
    requires !Deletes(cs, id) && ReplayId(v, cs, id).None?
    ensures v.None?
  {
    if v.Some? { ReplayShape(v, v, cs, id); }
  }

  /** On a legal run replay does exactly what the live engine did. */
  lemma {:induction false} LegalReplay(t: Table, cs: seq<Change>, n: nat)
    requires LegalRun(t, cs) && n <= |cs|
    ensures ReplayAll(t, cs[..n]) == After(t, cs, n)
  {
    hide LegalRun, Legal;
    if n > 0 {
      LegalReplay(t, cs, n - 1);
      LegalAt(t, cs, n - 1);
      RunStep(t, cs, n);
    }
  }

  lemma ReplayNone(t: Table)
    ensures ReplayAll(t, []) == t
  {}

  lemma ReplayMore(t: Table, cs: seq<Change>, i: nat)
    requires i < |cs|
    ensures ReplayAll(t, cs[..i + 1]) == ReplayOne(ReplayAll(t, cs[..i]), cs[i])
    ensures ReplayAll(t, cs[..i + 1]).Keys == KeysAfter(ReplayAll(t, cs[..i]).Keys, cs[i])
  {
    assert cs[..i + 1][..i] == cs[..i];
    ReplayKeys(ReplayAll(t, cs[..i]), cs[i]);
  }

  lemma RunStep(t: Table, cs: seq<Change>, n: nat)
    requires 0 < n <= |cs| && ReplayAll(t, cs[..n - 1]) == After(t, cs, n - 1) && Legal(After(t, cs, n - 1), cs[n - 1])
    ensures ReplayAll(t, cs[..n]) == After(t, cs, n)
  {
    assert cs[..n][..n - 1] == cs[..n - 1];
  }

  lemma LegalAt(t: Table, cs: seq<Change>, n: nat)
    requires LegalRun(t, cs) && n < |cs|
    ensures Legal(After(t, cs, n), cs[n])
  {}

  /** Replay of a log is replay of a prefix, then of the rest. */
  lemma {:induction false} ReplaySplit(v: Option<Row>, cs: seq<Change>, id: nat, i: nat)
    requires i <= |cs|
    ensures ReplayId(v, cs, id) == ReplayId(ReplayId(v, cs[..i], id), cs[i..], id)
  {
    if i == |cs| {
      assert cs[..i] == cs;
    } else {
      var n := |cs| - 1;
      ReplaySplit(v, cs[..n], id, i);
      assert cs[..n][..i] == cs[..i] && cs[..n][i..] == cs[i..][..n - i];
    }
  }

  lemma DeletesSplit(cs: seq<Change>, id: nat, i: nat)
    requires i <= |cs|
    ensures Deletes(cs, id) <==> Deletes(cs[..i], id) || Deletes(cs[i..], id)
  {
    if Deletes(cs, id) {
      var k :| 0 <= k < |cs| && cs[k] == Del(id);
      assert if k < i then cs[..i][k] == Del(id) else cs[i..][k - i] == Del(id);
    }
  }

  /** `t` holds for this id what the run held after `i` changes. */
  ghost predicate Agrees(t: Table, start: Table, cs: seq<Change>, id: nat, i: nat) {
    i <= |cs| && Lookup(t, id) == Lookup(ReplayAll(start, cs[..i]), id)
  }

  /** A mixture of the run's states: each row was there at some moment, and only a
      deleted id of the start is missing. */
  ghost predicate Mixed(t: Table, start: Table, cs: seq<Change>) {
    && (forall id :: id in t ==> exists i :: Agrees(t, start, cs, id, i))
    && (forall id :: id in start && id !in t ==> Deletes(cs, id))
  }

  /** An undeleted id present at some moment is as it was then ever after. */
  lemma PresentStays(start: Table, cs: seq<Change>, id: nat, i: nat)
    requires i <= |cs| && id in ReplayAll(start, cs[..i]) && !Deletes(cs[i..], id)
    ensures Lookup(ReplayAll(start, cs), id) == Lookup(ReplayAll(start, cs[..i]), id)
  {
    hide ReplayAll, ReplayId;
    ReplaysEachId(start, cs, id);
    ReplaysEachId(start, cs[..i], id);
    ReplaySplit(Lookup(start, id), cs, id, i);
    var v := Lookup(ReplayAll(start, cs[..i]), id);
    ReplayShape(v, v, cs[i..], id);
  }

  /** Replay of a run's log, its own skipped records included, ends in the run's last
      state from any mixture of its states. */
  lemma ReplayConverges(t: Table, start: Table, cs: seq<Change>)
    requires Mixed(t, start, cs)
    ensures ReplayAll(t, cs) == ReplayAll(start, cs)
  {
    hide ReplayAll, ReplayId, Deletes;
    forall id ensures Lookup(ReplayAll(t, cs), id) == Lookup(ReplayAll(start, cs), id) {
      ReplaysEachId(t, cs, id);
      ReplaysEachId(start, cs, id);
      ReplayShape(Lookup(t, id), Lookup(start, id), cs, id);
      if !Deletes(cs, id) && id in t {
        var i: nat :| Agrees(t, start, cs, id, i);
        DeletesSplit(cs, id, i);
        PresentStays(start, cs, id, i);
      }
    }
    SameTable(ReplayAll(t, cs), ReplayAll(start, cs));
  }

  /** Replay of a legal run's log ends in the run's last state from any state whose value
      for each id is one the run gave it. */
  lemma LegalConverges(t: Table, start: Table, cs: seq<Change>)
    requires LegalRun(start, cs) && forall id :: AgreesRun(t, start, cs, id)
    ensures ReplayAll(t, cs) == After(start, cs, |cs|)
  {
    hide LegalRun, ReplayAll, Deletes, AgreesRun;
    forall id | id in t ensures exists i :: Agrees(t, start, cs, id, i) {
      var i := AgreedAt(t, start, cs, id);
    }
    forall id | id in start && id !in t ensures Deletes(cs, id) {
      var i := AgreedAt(t, start, cs, id);
      MustDelete(start, cs, id, i);
    }
    ReplayConverges(t, start, cs);
    LegalReplay(start, cs, |cs|);
    assert cs[..|cs|] == cs;
  }

  /** The run gave this id the value `t` has, at some moment. */
  ghost predicate AgreesRun(t: Table, start: Table, cs: seq<Change>, id: nat) {
    exists i :: 0 <= i <= |cs| && Lookup(t, id) == Lookup(After(start, cs, i), id)
  }

  lemma AgreedAt(t: Table, start: Table, cs: seq<Change>, id: nat) returns (i: nat)
    requires LegalRun(start, cs) && AgreesRun(t, start, cs, id)
    ensures Agrees(t, start, cs, id, i)
  {
    hide LegalRun, ReplayAll, After;
    i :| 0 <= i <= |cs| && Lookup(t, id) == Lookup(After(start, cs, i), id);
    LegalReplay(start, cs, i);
  }

  /** An id of the start that is missing at some moment has been deleted. */
  lemma MustDelete(start: Table, cs: seq<Change>, id: nat, i: nat)
    requires i <= |cs| && id in start && id !in ReplayAll(start, cs[..i])
    ensures Deletes(cs, id)
  {
    hide ReplayAll, ReplayId, Deletes;
    DeletesSplit(cs, id, i);
    if !Deletes(cs[..i], id) {
      ReplaysEachId(start, cs[..i], id);
      ReplayShape(Lookup(start, id), Lookup(start, id), cs[..i], id);
    }
  }

  /** An id of the start that the log does not delete comes back from the log alone, if at
      all, as it was in the start. */
  ghost predicate Restores(start: Table, cs: seq<Change>) {
    forall id :: id in start && !Deletes(cs, id) ==> RestoresId(start, cs, id)
  }

  ghost predicate RestoresId(start: Table, cs: seq<Change>, id: nat)
    requires id in start
  {
    ReplayId(None, cs, id).Some? ==> ReplayId(None, cs, id) == Some(start[id])
  }

  lemma RestoresNothing(start: Table)
    ensures Restores(start, [])
  {}

  lemma RestoresGrows(start: Table, cs: seq<Change>, c: Change)
    requires Restores(start, cs) && Legal(ReplayAll(start, cs), c)
    ensures Restores(start, cs + [c])
  {
    hide Deletes, ReplayAll;
    var ds := cs + [c];
    assert ds[..|cs|] == cs;
    forall id | id in start && !Deletes(ds, id) ensures RestoresId(start, ds, id) {
      DeletesSplit(ds, id, |cs|);
      NotDeleted(ds, id, |cs|);
      StartStays(start, cs, id);
    }
  }

  /** An undeleted id of the start is as it was. */
  lemma StartStays(start: Table, cs: seq<Change>, id: nat)
    requires id in start && !Deletes(cs, id)
    ensures Lookup(ReplayAll(start, cs), id) == Some(start[id])
  {
    hide ReplayAll, ReplayId, Deletes;
    ReplaysEachId(start, cs, id);
    ReplayShape(Lookup(start, id), Lookup(start, id), cs, id);
  }

  /** Replayed on a mixture, the log restores that mixture too. */
  lemma RestoresReplayed(t: Table, start: Table, cs: seq<Change>)
    requires Mixed(t, start, cs) && Restores(start, cs)
    ensures Restores(t, cs)
  {
    hide Deletes, ReplayAll, ReplayId;
    forall id | id in t && !Deletes(cs, id) ensures RestoresId(t, cs, id) {
      var i: nat :| Agrees(t, start, cs, id, i);
      DeletesSplit(cs, id, i);
      PresentStays(start, cs, id, i);
      ReplaysEachId(start, cs, id);
      if id in start { StartStays(start, cs, id); }
    }
  }

  lemma NotDeleted(cs: seq<Change>, id: nat, i: nat)
    requires !Deletes(cs, id) && i < |cs|
    ensures cs[i] != Del(id)
  {}

  /** The value of one id is the one the run had at moment `k`, at or after moment `n`. */
  ghost predicate NoOlder(now: Table, start: Table, cs: seq<Change>, n: nat, id: nat, k: nat) {
    n <= k <= |cs| && Lookup(now, id) == Lookup(ReplayAll(start, cs[..k]), id)
  }

  ghost predicate Dated(now: Table, start: Table, cs: seq<Change>, n: nat, id: nat) {
    exists k :: NoOlder(now, start, cs, n, id, k)
  }

  /** Only part of the log survived, and the mixture may hold later moments: each id is
      as it was at some moment at or after the last surviving record. */
  lemma CutConverges(t: Table, start: Table, cs: seq<Change>, n: nat, id: nat)
    requires n <= |cs| && Mixed(t, start, cs) && Restores(start, cs[..n])
    ensures Dated(ReplayAll(t, cs[..n]), start, cs, n, id)
  {
    hide ReplayAll, ReplayId, Deletes, Restores;
    var front := cs[..n];
    ReplaysEachId(t, front, id);
    ReplaysEachId(start, front, id);
    ReplayShape(Lookup(t, id), Lookup(start, id), front, id);
    var k: nat := n;
    if !Deletes(front, id) {
      if id in t {
        k := PresentCut(t, start, cs, n, id);
      } else if id in start {
        k := AbsentCut(t, start, cs, n, id);
      }
    }
    assert NoOlder(ReplayAll(t, front), start, cs, n, id, k);
  }

  lemma PresentCut(t: Table, start: Table, cs: seq<Change>, n: nat, id: nat) returns (k: nat)
    requires n <= |cs| && Mixed(t, start, cs) && id in t && !Deletes(cs[..n], id)
    ensures NoOlder(ReplayAll(t, cs[..n]), start, cs, n, id, k)
  {
    hide ReplayAll, ReplayId, Deletes;
    ReplaysEachId(t, cs[..n], id);
    ReplayShape(Lookup(t, id), Lookup(t, id), cs[..n], id);
    var i: nat :| Agrees(t, start, cs, id, i);
    if i >= n {
      k := i;
    } else {
      k := n;
      assert cs[..n][..i] == cs[..i];
      DeletesSplit(cs[..n], id, i);
      PresentStays(start, cs[..n], id, i);
    }
  }

  lemma AbsentCut(t: Table, start: Table, cs: seq<Change>, n: nat, id: nat) returns (k: nat)
    requires n <= |cs| && Mixed(t, start, cs) && Restores(start, cs[..n]) && id !in t && id in start && !Deletes(cs[..n], id)
    ensures NoOlder(ReplayAll(t, cs[..n]), start, cs, n, id, k)
  {
    hide ReplayAll, ReplayId;
    ReplaysEachId(t, cs[..n], id);
    if ReplayId(None, cs[..n], id).Some? {
      assert RestoresId(start, cs[..n], id);
      StartStays(start, cs[..n], id);
      k := n;
    } else {
      var d :| 0 <= d < |cs| && cs[d] == Del(id);
      DeletedLater(cs, id, n, d);
      k := d + 1;
      JustDeleted(start, cs[..d + 1], id);
    }
  }

  lemma DeletedLater(cs: seq<Change>, id: nat, n: nat, d: nat)
    requires n <= |cs| && d < |cs| && cs[d] == Del(id) && !Deletes(cs[..n], id)
    ensures n <= d
  {
    hide Deletes;
    if d < n { DeletedBy(cs, id, n, d); }
  }

  lemma DeletedBy(cs: seq<Change>, id: nat, n: nat, d: nat)
    requires d < n <= |cs| && cs[d] == Del(id)
    ensures Deletes(cs[..n], id)
  {
    assert cs[..n][d] == Del(id);
  }

  lemma JustDeleted(start: Table, cs: seq<Change>, id: nat)
    requires cs != [] && cs[|cs| - 1] == Del(id)
    ensures id !in ReplayAll(start, cs)
  {}

  /** Whatever is logged later and lost, and whatever is on file, no id ends up older than
      the surviving log. */
  ghost predicate NeverOlder(start: Table, front: seq<Change>) {
    forall t, more, id :: Mixed(t, start, front + more) ==> Dated(ReplayAll(t, front), start, front + more, |front|, id)
  }

  /** Exactly when that can be promised. */
  lemma CutExactly(start: Table, front: seq<Change>)
    ensures NeverOlder(start, front) <==> Restores(start, front)
  {
    hide ReplayAll, ReplayId, Deletes, Mixed, Dated;
    if Restores(start, front) {
      forall t, more, id | Mixed(t, start, front + more) ensures Dated(ReplayAll(t, front), start, front + more, |front|, id) {
        assert (front + more)[..|front|] == front;
        CutConverges(t, start, front + more, |front|, id);
      }
    } else {
      var id :| id in start && !Deletes(front, id) && !RestoresId(start, front, id);
      OldReturns(start, front, id);
    }
  }

  /** Otherwise: the row is deleted, the delete reaches the file but not the log, and an
      older insert in the log brings back another row. */
  lemma OldReturns(start: Table, front: seq<Change>, id: nat)
    requires id in start && !Deletes(front, id) && !RestoresId(start, front, id)
    ensures var t := ReplayAll(start, front) - {id};
            Mixed(t, start, front + [Del(id)]) && !Dated(ReplayAll(t, front), start, front + [Del(id)], |front|, id)
  {
    hide ReplayAll, ReplayId, Deletes;
    var now, cs, n := ReplayAll(start, front), front + [Del(id)], |front|;
    var t := now - {id};
    assert cs[..n] == front && cs[..n + 1] == cs && cs[n] == Del(id);
    forall k | k in t ensures Agrees(t, start, cs, k, n) {}
    forall k | k in start && k !in t ensures Deletes(cs, k) {
      if k == id { DeletedBy(cs, id, n + 1, n); } else { MustDelete(start, cs, k, n); }
    }
    ReplaysEachId(t, front, id);
    StartStays(start, front, id);
    JustDeleted(start, cs, id);
    forall k ensures !NoOlder(ReplayAll(t, front), start, cs, n, id, k) {}
  }
}
