/** What DB's operations promise, said of the id-to-row map alone. */
module Contract {
  import opened Rows
  import opened Replay

  /** The errors the engine throws. Two are the model's own: Fault for a write that overruns
      its page slot or page ids exhausted, Damaged for a file with unreadable slots. */
  datatype Status = Ok | BadRow | DuplicateKey | NotFound | UnknownField | BadBound | Damaged | Fault

  /** insert, with the ids `seen` earlier in the same batch. */
  function InsertCheck(t: Table, seen: set<nat>, row: Row, schema: Schema): Status {
    if |row.fields| != |schema| then BadRow
    else if row.id in t || row.id in seen then DuplicateKey
    else if !Storable(row, schema) then BadRow
    else Ok
  }

  function UpdateCheck(t: Table, row: Row, schema: Schema): Status {
    if row.id !in t then NotFound else if !Storable(row, schema) then BadRow else Ok
  }

  function UpdateBatchCheck(t: Table, seen: set<nat>, row: Row, schema: Schema): Status {
    if |row.fields| != |schema| then BadRow
    else if row.id in seen then DuplicateKey
    else if row.id !in t then NotFound
    else if !Storable(row, schema) then BadRow
    else Ok
  }

  function EraseCheck(t: Table, seen: set<nat>, id: nat): Status {
    if id in seen then DuplicateKey else if id !in t then NotFound else Ok
  }

  function RowIds(rows: seq<Row>): set<nat> { set i | 0 <= i < |rows| :: rows[i].id }

  function IdSet(ids: seq<nat>): set<nat> { set i | 0 <= i < |ids| :: ids[i] }

  /** The first error met going through a batch, Ok if none; `check` sees the
      elements before the one it judges. */
  function BatchStatus<X>(xs: seq<X>, check: (seq<X>, X) -> Status): Status {
    if xs == [] then Ok else
    var front := xs[..|xs| - 1];
    var s := BatchStatus(front, check);
    if s != Ok then s else check(front, xs[|xs| - 1])
  }

  function InsertRule(t: Table, schema: Schema): (seq<Row>, Row) -> Status {
    (front, row) => InsertCheck(t, RowIds(front), row, schema)
  }

  function UpdateRule(t: Table, schema: Schema): (seq<Row>, Row) -> Status {
    (front, row) => UpdateBatchCheck(t, RowIds(front), row, schema)
  }

  function EraseRule(t: Table): (seq<nat>, nat) -> Status {
    (front: seq<nat>, id: nat) => EraseCheck(t, IdSet(front), id)
  }

  /** The map with every row of a batch put in. */
  function PutAll(t: Table, rows: seq<Row>): Table {
    if rows == [] then t else PutAll(t, rows[..|rows| - 1])[rows[|rows| - 1].id := rows[|rows| - 1]]
  }

  /** The rows whose ids are not among these, in order. */
  function Lacking(rows: seq<Row>, ids: set<nat>): seq<Row> {
    if rows == [] then [] else
    var front, last := rows[..|rows| - 1], rows[|rows| - 1];
    if last.id in ids then Lacking(front, ids) else Lacking(front, ids) + [last]
  }

  /** A row taken out, if it is there, and put at the end. */
  function Moved(rows: seq<Row>, row: Row): seq<Row> { Lacking(rows, {row.id as nat}) + [row] }

  /** A passed batch has passed at every element. */
  lemma {:induction false} BatchPrefix<X>(xs: seq<X>, check: (seq<X>, X) -> Status, n: nat)
    requires BatchStatus(xs, check) == Ok && n < |xs|
    ensures BatchStatus(xs[..n], check) == Ok && check(xs[..n], xs[n]) == Ok
  {
    var front := xs[..|xs| - 1];
    if n < |xs| - 1 {
      BatchPrefix(front, check, n);
      assert front[..n] == xs[..n];
    }
  }

  lemma BatchStep<X>(xs: seq<X>, check: (seq<X>, X) -> Status, n: nat)
    requires n < |xs| && BatchStatus(xs[..n], check) == Ok
    ensures BatchStatus(xs[..n + 1], check) == check(xs[..n], xs[n])
  {
    assert xs[..n + 1][..n] == xs[..n];
  }

  /** The first error of a prefix is the first error of the batch. */
  lemma {:induction false} BatchFails<X>(xs: seq<X>, check: (seq<X>, X) -> Status, n: nat)
    requires n <= |xs| && BatchStatus(xs[..n], check) != Ok
    ensures BatchStatus(xs, check) == BatchStatus(xs[..n], check)
  {
    if n < |xs| {
      var front := xs[..|xs| - 1];
      assert front[..n] == xs[..n];
      BatchFails(front, check, n);
    } else {
      assert xs[..n] == xs;
    }
  }

  /** The keys of a batch put in. */
  lemma {:induction false} PutAllKeys(t: Table, rows: seq<Row>)
    ensures PutAll(t, rows).Keys == t.Keys + RowIds(rows)
  {
    if rows != [] {
      var front := rows[..|rows| - 1];
      PutAllKeys(t, front);
      assert RowIds(rows) == RowIds(front) + {rows[|rows| - 1].id} by {
        assert forall i :: 0 <= i < |front| ==> front[i] == rows[i];
      }
    }
  }

  /** A batch insert passes exactly when its rows could be inserted one after the
      other, and has then the same effect. */
  lemma BatchIsSequence(t: Table, rows: seq<Row>, schema: Schema, n: nat)
    requires n < |rows|
    ensures InsertRule(t, schema)(rows[..n], rows[n]) == InsertCheck(PutAll(t, rows[..n]), {}, rows[n], schema)
    ensures PutAll(t, rows[..n + 1]) == PutAll(t, rows[..n])[rows[n].id := rows[n]]
  {
    hide RowIds;
    PutAllKeys(t, rows[..n]);
    assert rows[..n + 1][..n] == rows[..n];
  }

  /** The ids of a batch differ from each other. */
  ghost predicate NoRepeats(ids: seq<nat>) {
    forall i, j :: 0 <= i < j < |ids| ==> ids[i] != ids[j]
  }

  /** An id that is in the batch before position `n` as well. */
  ghost predicate Repeated(ids: seq<nat>, n: nat) {
    n < |ids| && exists i :: 0 <= i < n && ids[i] == ids[n]
  }

  function IdsOf(rows: seq<Row>): (ids: seq<nat>)
    ensures |ids| == |rows| && forall i :: 0 <= i < |rows| ==> ids[i] == rows[i].id
  {
    seq(|rows|, i requires 0 <= i < |rows| => rows[i].id)
  }

  /** Ok exactly when every element passes where it stands. */
  lemma {:induction false} BatchMeans<X>(xs: seq<X>, check: (seq<X>, X) -> Status)
    ensures BatchStatus(xs, check) == Ok <==> forall n :: 0 <= n < |xs| ==> check(xs[..n], xs[n]) == Ok
  {
    if xs != [] {
      var front := xs[..|xs| - 1];
      BatchMeans(front, check);
      assert forall n :: 0 <= n < |front| ==> front[..n] == xs[..n] && front[n] == xs[n];
    }
  }

  /** Otherwise the first element that does not pass decides. */
  lemma BatchFirst<X>(xs: seq<X>, check: (seq<X>, X) -> Status, n: nat)
    requires n < |xs| && BatchStatus(xs[..n], check) == Ok && check(xs[..n], xs[n]) != Ok
    ensures BatchStatus(xs, check) == check(xs[..n], xs[n])
  {
    BatchStep(xs, check, n);
    BatchFails(xs, check, n + 1);
  }

  lemma RepeatedSeen(rows: seq<Row>, n: nat)
    requires n < |rows|
    ensures Repeated(IdsOf(rows), n) <==> rows[n].id in RowIds(rows[..n])
  {
    assert forall i :: 0 <= i < n ==> rows[..n][i].id == IdsOf(rows)[i];
  }

  lemma RepeatedId(ids: seq<nat>, n: nat)
    requires n < |ids|
    ensures Repeated(ids, n) <==> ids[n] in IdSet(ids[..n])
  {
    assert forall i :: 0 <= i < n ==> ids[..n][i] == ids[i];
  }

  /** The error of one row of insert_batch: for its field count, then for its id, then for
      its values. */
  lemma InsertFault(t: Table, rows: seq<Row>, schema: Schema, n: nat)
    requires n < |rows|
    ensures InsertRule(t, schema)(rows[..n], rows[n])
         == if |rows[n].fields| != |schema| then BadRow else if rows[n].id in t || Repeated(IdsOf(rows), n) then DuplicateKey
            else if !Storable(rows[n], schema) then BadRow else Ok
  {
    hide Repeated, RowIds;
    RepeatedSeen(rows, n);
  }

  /** insert_batch accepts exactly new, distinct, storable rows. */
  lemma InsertVerdict(t: Table, rows: seq<Row>, schema: Schema)
    ensures BatchStatus(rows, InsertRule(t, schema)) == Ok
        <==> NoRepeats(IdsOf(rows)) && forall i :: 0 <= i < |rows| ==> rows[i].id !in t && Storable(rows[i], schema)
  {
    hide RowSize, Typed;
    BatchMeans(rows, InsertRule(t, schema));
    forall n | 0 <= n < |rows| ensures InsertRule(t, schema)(rows[..n], rows[n]) == Ok <==> rows[n].id !in t && !Repeated(IdsOf(rows), n) && Storable(rows[n], schema) {
      InsertFault(t, rows, schema, n);
    }
    Distinguishes(IdsOf(rows));
  }

  lemma Distinguishes(ids: seq<nat>)
    ensures NoRepeats(ids) <==> forall n :: 0 <= n < |ids| ==> !Repeated(ids, n)
  {
    if forall n :: 0 <= n < |ids| ==> !Repeated(ids, n) {
      forall i, j | 0 <= i < j < |ids| ensures ids[i] != ids[j] { assert !Repeated(ids, j); }
    }
  }

  /** The error of one row of update_batch: field count, repeated id, unknown id, values. */
  lemma UpdateFault(t: Table, rows: seq<Row>, schema: Schema, n: nat)
    requires n < |rows|
    ensures UpdateRule(t, schema)(rows[..n], rows[n])
         == if |rows[n].fields| != |schema| then BadRow else if Repeated(IdsOf(rows), n) then DuplicateKey
            else if rows[n].id !in t then NotFound else if !Storable(rows[n], schema) then BadRow else Ok
  {
    hide Repeated, RowIds;
    RepeatedSeen(rows, n);
  }

  /** update_batch accepts exactly present, distinct ids and storable rows. */
  lemma UpdateVerdict(t: Table, rows: seq<Row>, schema: Schema)
    ensures BatchStatus(rows, UpdateRule(t, schema)) == Ok
        <==> NoRepeats(IdsOf(rows)) && forall i :: 0 <= i < |rows| ==> rows[i].id in t && Storable(rows[i], schema)
  {
    hide RowSize, Typed;
    BatchMeans(rows, UpdateRule(t, schema));
    forall n | 0 <= n < |rows| ensures UpdateRule(t, schema)(rows[..n], rows[n]) == Ok <==> rows[n].id in t && !Repeated(IdsOf(rows), n) && Storable(rows[n], schema) {
      UpdateFault(t, rows, schema, n);
    }
    Distinguishes(IdsOf(rows));
  }

  /** The error of one id of erase_batch: repeated, then unknown. */
  lemma EraseFault(t: Table, ids: seq<nat>, n: nat)
    requires n < |ids|
    ensures EraseRule(t)(ids[..n], ids[n]) == if Repeated(ids, n) then DuplicateKey else if ids[n] !in t then NotFound else Ok
  {
    hide Repeated, IdSet;
    RepeatedId(ids, n);
  }

  /** erase_batch accepts exactly present, distinct ids. */
  lemma EraseVerdict(t: Table, ids: seq<nat>)
    ensures BatchStatus(ids, EraseRule(t)) == Ok <==> NoRepeats(ids) && forall i :: 0 <= i < |ids| ==> ids[i] in t
  {
    BatchMeans(ids, EraseRule(t));
    forall n | 0 <= n < |ids| ensures EraseRule(t)(ids[..n], ids[n]) == Ok <==> ids[n] in t && !Repeated(ids, n) {
      EraseFault(t, ids, n);
    }
    Distinguishes(ids);
  }

  /** The single operations are batches of one, but update looks for the row first. */
  lemma SingleVerdicts(t: Table, row: Row, id: nat, schema: Schema)
    ensures InsertCheck(t, {}, row, schema) == BatchStatus([row], InsertRule(t, schema))
    ensures EraseCheck(t, {}, id) == BatchStatus([id], EraseRule(t))
    ensures UpdateCheck(t, row, schema) == if row.id !in t then NotFound else BatchStatus([row], UpdateRule(t, schema))
  {
    hide RowSize, Typed;
    EmptyIds();
    BatchStep([row], InsertRule(t, schema), 0);
    BatchStep([row], UpdateRule(t, schema), 0);
    BatchStep([id], EraseRule(t), 0);
    assert [row][..0] == [] && [row][..1] == [row] && [id][..0] == [] && [id][..1] == [id];
  }

  /** A batch of distinct ids puts each of its rows in and leaves the other ids alone. */
  lemma {:induction false} PutAllRows(t: Table, rows: seq<Row>)
    requires NoRepeats(IdsOf(rows))
    ensures forall i :: 0 <= i < |rows| ==> rows[i].id in PutAll(t, rows) && PutAll(t, rows)[rows[i].id] == rows[i]
    ensures forall id :: id !in IdsOf(rows) ==> (id in PutAll(t, rows) <==> id in t) && (id in t ==> PutAll(t, rows)[id] == t[id])
  {
    if rows != [] {
      var n := |rows| - 1;
      var front := rows[..n];
      assert forall i :: 0 <= i < n ==> IdsOf(front)[i] == IdsOf(rows)[i];
      assert IdsOf(rows)[n] == rows[n].id;
      PutAllRows(t, front);
    }
  }

  lemma EmptyIds()
    ensures RowIds([]) == {} && IdSet([]) == {}
  {}

  lemma MoreRowIds(rows: seq<Row>, i: nat)
    requires i < |rows|
    ensures RowIds(rows[..i + 1]) == RowIds(rows[..i]) + {rows[i].id}
  {
    var a, b := rows[..i], rows[..i + 1];
    assert forall k :: 0 <= k < i ==> a[k] == b[k];
    assert b[i] == rows[i];
  }

  lemma MoreIds(ids: seq<nat>, i: nat)
    requires i < |ids|
    ensures IdSet(ids[..i + 1]) == IdSet(ids[..i]) + {ids[i]}
  {
    var a, b := ids[..i], ids[..i + 1];
    assert forall k :: 0 <= k < i ==> a[k] == b[k];
    assert b[i] == ids[i];
  }
}
