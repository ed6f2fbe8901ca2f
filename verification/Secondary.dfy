/** The secondary indexes of a database: one tree per indexed field, kept equal to
    the keys of the live rows. */
module Secondary {
  import opened Bytes
  import opened Rows
  import opened Floats
  import opened Keys
  import opened Tree
  import opened Folds
  import opened Contract
  import opened Filter
  import opened Replay

  type Trees = map<string, BPTree>

  function KeyAt(row: Row, fi: int): Key {
    if 0 <= fi < |row.fields| then EncodeKey(row.fields[fi]) else []
  }

  /** The rows with a key, in order. */
  ghost function RowsWith(rows: seq<Row>, fi: int, key: Key): seq<Row> {
    if rows == [] then [] else
    var last := rows[|rows| - 1];
    RowsWith(rows[..|rows| - 1], fi, key) + (if KeyAt(last, fi) == key then [last] else [])
  }

  /** A tree files each row under its key, in the order of the rows. */
  ghost predicate Filed(filed: Filing, rows: seq<Row>, fi: int) {
    forall key :: IdsUnder(filed, key) == IdsOf(RowsWith(rows, fi, key))
  }

  ghost predicate Separate(trees: Trees) {
    forall a, b :: a in trees && b in trees && a != b ==> trees[a] != trees[b]
  }

  ghost predicate TreeOk(tree: BPTree, name: string, schema: Schema, rows: seq<Row>)
    reads tree
  {
    tree.Valid() && Filed(tree.filed, rows, FieldPos(schema, name))
  }

  ghost predicate TreesOk(trees: Trees, schema: Schema, rows: seq<Row>)
    reads trees.Values
  {
    && Separate(trees)
    && forall name :: name in trees ==> FieldPos(schema, name) >= 0 && TreeOk(trees[name], name, schema, rows)
  }

  lemma {:induction false} RowsWithMembers(rows: seq<Row>, fi: int, key: Key)
    ensures forall r :: r in RowsWith(rows, fi, key) <==> r in rows && KeyAt(r, fi) == key
  {
    hide KeyAt;
    if rows != [] {
      RowsWithMembers(rows[..|rows| - 1], fi, key);
      assert rows == rows[..|rows| - 1] + [rows[|rows| - 1]];
    }
  }

  lemma IdsMembers(rows: seq<Row>, id: nat)
    ensures id in IdsOf(rows) <==> exists r :: r in rows && r.id == id
  {
    if id in IdsOf(rows) {
      var i :| 0 <= i < |rows| && IdsOf(rows)[i] == id;
      assert rows[i] in rows;
    }
    if r :| r in rows && r.id == id {
      var i :| 0 <= i < |rows| && rows[i] == r;
      assert IdsOf(rows)[i] == id;
    }
  }

  lemma RowsWithOne(rows: seq<Row>, row: Row, fi: int, key: Key)
    ensures RowsWith(rows + [row], fi, key) == RowsWith(rows, fi, key) + (if KeyAt(row, fi) == key then [row] else [])
    ensures IdsOf(RowsWith(rows + [row], fi, key)) == IdsOf(RowsWith(rows, fi, key)) + (if KeyAt(row, fi) == key then [row.id] else [])
  {
    hide KeyAt;
    assert (rows + [row])[..|rows|] == rows;
  }

  lemma {:induction false} LackingWith(rows: seq<Row>, id: nat, fi: int, key: Key)
    ensures IdsOf(RowsWith(Lacking(rows, {id}), fi, key)) == Others(IdsOf(RowsWith(rows, fi, key)), id)
  {
    hide KeyAt, RowsWith, IdsOf, Others, Lacking;
    if rows == [] {
      LackingNothing(id, fi, key);
    } else {
      LackingWith(rows[..|rows| - 1], id, fi, key);
      LackingStep(rows[..|rows| - 1], rows[|rows| - 1], id, fi, key);
      assert rows == rows[..|rows| - 1] + [rows[|rows| - 1]];
    }
  }

  lemma LackingNothing(id: nat, fi: int, key: Key)
    ensures IdsOf(RowsWith(Lacking([], {id}), fi, key)) == Others(IdsOf(RowsWith([], fi, key)), id)
  {}

  lemma LackingStep(front: seq<Row>, last: Row, id: nat, fi: int, key: Key)
    requires IdsOf(RowsWith(Lacking(front, {id}), fi, key)) == Others(IdsOf(RowsWith(front, fi, key)), id)
    ensures IdsOf(RowsWith(Lacking(front + [last], {id}), fi, key)) == Others(IdsOf(RowsWith(front + [last], fi, key)), id)
  {
    hide KeyAt, RowsWith, IdsOf, Others;
    assert (front + [last])[..|front|] == front;
    RowsWithOne(Lacking(front, {id}), last, fi, key);
    RowsWithOne(front, last, fi, key);
    var all, left := IdsOf(RowsWith(front, fi, key)), Lacking(front, {id});
    OthersMore(all, last.id, id);
    assert all + [] == all && IdsOf(RowsWith(left, fi, key)) + [] == IdsOf(RowsWith(left, fi, key));
    assert Lacking(front + [last], {id}) == if last.id == id then left else left + [last];
  }

  lemma OthersMore(ids: seq<nat>, last: nat, id: nat)
    ensures Others(ids + [last], id) == Others(ids, id) + (if last == id then [] else [last])
  {
    assert (ids + [last])[..|ids|] == ids;
  }

  lemma {:induction false} OthersAll(ids: seq<nat>, id: nat)
    requires id !in ids
    ensures Others(ids, id) == ids
  {
    if ids != [] {
      OthersAll(ids[..|ids| - 1], id);
      assert ids == ids[..|ids| - 1] + [ids[|ids| - 1]];
    }
  }

  /** A row of a new id is filed behind the others of its key. */
  lemma FiledPut(was: Filing, now: Filing, rows: seq<Row>, fi: int, row: Row)
    requires Filed(was, rows, fi) && row.id !in IdsOf(rows)
    requires var key := KeyAt(row, fi);
             IdsUnder(now, key) == IdsUnder(was, key) + (if row.id in IdsUnder(was, key) then [] else [row.id])
    requires forall other :: other != KeyAt(row, fi) ==> IdsUnder(now, other) == IdsUnder(was, other)
    ensures Filed(now, rows + [row], fi)
  {
    hide KeyAt, RowsWith, IdsUnder, IdsOf;
    forall key ensures IdsUnder(now, key) == IdsOf(RowsWith(rows + [row], fi, key)) {
      RowsWithOne(rows, row, fi, key);
      NotAmong(rows, fi, key, row.id);
    }
  }

  lemma NotAmong(rows: seq<Row>, fi: int, key: Key, id: nat)
    requires id !in IdsOf(rows)
    ensures id !in IdsOf(RowsWith(rows, fi, key))
  {
    hide KeyAt, RowsWith, IdsOf;
    RowsWithMembers(rows, fi, key);
    IdsMembers(rows, id);
    IdsMembers(RowsWith(rows, fi, key), id);
  }

  lemma FiledDel(was: Filing, now: Filing, rows: seq<Row>, fi: int, row: Row)
    requires Filed(was, rows, fi) && forall r :: r in rows && r.id == row.id ==> r == row
    requires IdsUnder(now, KeyAt(row, fi)) == Others(IdsUnder(was, KeyAt(row, fi)), row.id)
    requires forall other :: other != KeyAt(row, fi) ==> IdsUnder(now, other) == IdsUnder(was, other)
    ensures Filed(now, Lacking(rows, {row.id}), fi)
  {
    hide KeyAt, RowsWith, IdsUnder, IdsOf, Others, Lacking;
    forall key ensures IdsUnder(now, key) == IdsOf(RowsWith(Lacking(rows, {row.id}), fi, key)) {
      LackingWith(rows, row.id, fi, key);
      if key != KeyAt(row, fi) {
        RowsWithMembers(rows, fi, key);
        IdsMembers(RowsWith(rows, fi, key), row.id);
        OthersAll(IdsOf(RowsWith(rows, fi, key)), row.id);
      }
    }
  }

  /** The rows after one more insert or erase. */
  ghost function After(rows: seq<Row>, row: Row, put: bool): seq<Row> {
    if put then rows + [row] else Lacking(rows, {row.id})
  }

  /** One tree's share of an insert or an erase. */
  method FileOne(tree: BPTree, name: string, schema: Schema, row: Row, put: bool, ghost rows: seq<Row>)
    requires TreeOk(tree, name, schema, rows) && FieldPos(schema, name) >= 0 && |row.fields| == |schema|
    requires if put then row.id !in IdsOf(rows) else forall r :: r in rows && r.id == row.id ==> r == row
    modifies tree
    ensures TreeOk(tree, name, schema, After(rows, row, put))
  {
    hide Filed, EncodeKey, FieldPos, IdsUnder, IdsOf, Lacking;
    var fi := FieldIndex(schema, name);
    var key := KeyOf(row.fields[fi]);
    ghost var was := tree.filed;
    if put {
      tree.Insert(key, row.id);
      FiledPut(was, tree.filed, rows, fi, row);
    } else {
      tree.Erase(key, row.id);
      FiledDel(was, tree.filed, rows, fi, row);
    }
  }

  /** The loop over all indexes, in whatever order the map yields them. */
  method FileRow(trees: Trees, schema: Schema, row: Row, put: bool, ghost rows: seq<Row>)
    requires TreesOk(trees, schema, rows) && |row.fields| == |schema|
    requires if put then row.id !in IdsOf(rows) else forall r :: r in rows && r.id == row.id ==> r == row
    modifies trees.Values
    ensures TreesOk(trees, schema, After(rows, row, put))
  {
    hide TreeOk, FieldPos, After;
    ghost var after := After(rows, row, put);
    var names := trees.Keys;
    while names != {}
      invariant names <= trees.Keys
      invariant forall name :: name in trees ==> TreeOk(trees[name], name, schema, if name in names then rows else after)
      decreases names
    {
      var name :| name in names;
      assert trees[name] in trees.Values;
      FileOne(trees[name], name, schema, row, put, rows);
      names := names - {name};
    }
  }

  lemma FiledNone(fi: int)
    ensures Filed(map[], [], fi)
  {}

  /** Filing one more row, in order: what a backfill builds is the tree the rows need. */
  method FileNext(tree: BPTree, fi: nat, row: Row, ghost rows: seq<Row>)
    requires tree.Valid() && Filed(tree.filed, rows, fi) && row.id !in IdsOf(rows) && fi < |row.fields|
    modifies tree
    ensures tree.Valid() && Filed(tree.filed, rows + [row], fi)
  {
    hide Filed, EncodeKey, IdsUnder, IdsOf, BPTree.Valid;
    var key := KeyOf(row.fields[fi]);
    ghost var was := tree.filed;
    tree.Insert(key, row.id);
    FiledPut(was, tree.filed, rows, fi, row);
  }

  /** Keys never decrease, and rows of one key are in the order of `rows`: a stable sort. */
  ghost predicate InKeyOrder(out: seq<Row>, rows: seq<Row>, fi: int) {
    && (forall i, j :: 0 <= i < j < |out| ==> !Less(KeyAt(out[j], fi), KeyAt(out[i], fi)))
    && (forall key :: RowsWith(out, fi, key) == RowsWith(rows, fi, key))
  }

  lemma {:induction false} CountWith(rows: seq<Row>, fi: int, r: Row)
    ensures multiset(rows)[r] == multiset(RowsWith(rows, fi, KeyAt(r, fi)))[r]
  {
    hide KeyAt;
    if rows != [] {
      var front, last := rows[..|rows| - 1], rows[|rows| - 1];
      CountWith(front, fi, r);
      assert rows == front + [last];
      RowsWithOne(front, last, fi, KeyAt(r, fi));
    }
  }

  /** The same rows, each as often. */
  lemma InKeyOrderRows(out: seq<Row>, rows: seq<Row>, fi: int)
    requires InKeyOrder(out, rows, fi)
    ensures multiset(out) == multiset(rows)
  {
    hide KeyAt, RowsWith, Less;
    forall r ensures multiset(out)[r] == multiset(rows)[r] {
      CountWith(out, fi, r);
      CountWith(rows, fi, r);
    }
  }

  /** The optional bound of a range scan as a key. */
  function BoundKey(v: Option<FieldValue>): Option<Key> {
    if v.Some? then Some(EncodeKey(v.value)) else None
  }

  /** What a range scan on a field promises to return. */
  ghost predicate Selected(row: Row, fi: int, lo: Option<FieldValue>, loInclusive: bool, hi: Option<FieldValue>, hiInclusive: bool) {
    InRange(KeyAt(row, fi), BoundKey(lo), loInclusive, BoundKey(hi), hiInclusive)
  }

  ghost function RangeRule(fi: int, lo: Option<FieldValue>, loInclusive: bool, hi: Option<FieldValue>, hiInclusive: bool): Row -> bool {
    r => Selected(r, fi, lo, loInclusive, hi, hiInclusive)
  }

  lemma {:induction false} RangeWith(rows: seq<Row>, fi: int, key: Key, lo: Option<FieldValue>, loInclusive: bool, hi: Option<FieldValue>, hiInclusive: bool)
    ensures RowsWith(Select(rows, RangeRule(fi, lo, loInclusive, hi, hiInclusive)), fi, key)
         == if InRange(key, BoundKey(lo), loInclusive, BoundKey(hi), hiInclusive) then RowsWith(rows, fi, key) else []
  {
    hide KeyAt, InRange, BoundKey, RangeRule;
    if rows != [] {
      RangeWith(rows[..|rows| - 1], fi, key, lo, loInclusive, hi, hiInclusive);
      RangeStep(rows[..|rows| - 1], rows[|rows| - 1], fi, key, lo, loInclusive, hi, hiInclusive);
      assert rows == rows[..|rows| - 1] + [rows[|rows| - 1]];
    }
  }

  lemma RangeStep(front: seq<Row>, last: Row, fi: int, key: Key, lo: Option<FieldValue>, loInclusive: bool, hi: Option<FieldValue>, hiInclusive: bool)
    requires RowsWith(Select(front, RangeRule(fi, lo, loInclusive, hi, hiInclusive)), fi, key)
          == if InRange(key, BoundKey(lo), loInclusive, BoundKey(hi), hiInclusive) then RowsWith(front, fi, key) else []
    ensures RowsWith(Select(front + [last], RangeRule(fi, lo, loInclusive, hi, hiInclusive)), fi, key)
         == if InRange(key, BoundKey(lo), loInclusive, BoundKey(hi), hiInclusive) then RowsWith(front + [last], fi, key) else []
  {
    hide KeyAt, InRange, BoundKey, RowsWith, Select;
    var p := RangeRule(fi, lo, loInclusive, hi, hiInclusive);
    SelectOne(front, last, p);
    assert Select(front, p) + [] == Select(front, p);
    WithStep(front, Select(front, p), last, Selected(last, fi, lo, loInclusive, hi, hiInclusive),
             InRange(key, BoundKey(lo), loInclusive, BoundKey(hi), hiInclusive), fi, key);
  }

  lemma WithStep(front: seq<Row>, chosen: seq<Row>, last: Row, take: bool, inside: bool, fi: int, key: Key)
    requires RowsWith(chosen, fi, key) == (if inside then RowsWith(front, fi, key) else []) && (KeyAt(last, fi) == key ==> take == inside)
    ensures RowsWith(if take then chosen + [last] else chosen, fi, key) == if inside then RowsWith(front + [last], fi, key) else []
  {
    hide KeyAt, RowsWith;
    RowsWithOne(chosen, last, fi, key);
    RowsWithOne(front, last, fi, key);
    assert chosen + [] == chosen && RowsWith(front, fi, key) + [] == RowsWith(front, fi, key);
  }

  lemma {:induction false} SameIds(items: seq<Item>, out: seq<Row>, fi: int, key: Key)
    requires |out| == |items| && forall i :: 0 <= i < |items| ==> out[i].id == items[i].id && KeyAt(out[i], fi) == items[i].key
    ensures IdsOf(RowsWith(out, fi, key)) == OfKey(items, key)
  {
    hide KeyAt;
    if out != [] {
      var n := |out| - 1;
      SameIds(items[..n], out[..n], fi, key);
      RowsWithOne(out[..n], out[n], fi, key);
      assert out == out[..n] + [out[n]];
    }
  }

  lemma SameRows(a: seq<Row>, b: seq<Row>, rows: seq<Row>)
    requires IdsOf(a) == IdsOf(b) && NoRepeats(IdsOf(rows)) && (forall r :: r in a ==> r in rows) && (forall r :: r in b ==> r in rows)
    ensures a == b
  {
    assert |a| == |IdsOf(a)| == |IdsOf(b)| == |b|;
    forall i | 0 <= i < |a| ensures a[i] == b[i] {
      assert a[i] in rows && b[i] in rows && IdsOf(a)[i] == IdsOf(b)[i];
      OneRow(rows, a[i], b[i]);
    }
  }

  lemma OneRow(rows: seq<Row>, a: Row, b: Row)
    requires NoRepeats(IdsOf(rows)) && a in rows && b in rows && a.id == b.id
    ensures a == b
  {
    var i :| 0 <= i < |rows| && rows[i] == a;
    var j :| 0 <= j < |rows| && rows[j] == b;
    assert IdsOf(rows)[i] == IdsOf(rows)[j];
  }

  /** The pairs a tree gives between two bounds lead to the rows in range, sorted by key and
      in storage order where keys are equal. */
  lemma FetchedRows(items: seq<Item>, filed: Filing, rows: seq<Row>, fi: int, out: seq<Row>,
                    lo: Option<FieldValue>, loInclusive: bool, hi: Option<FieldValue>, hiInclusive: bool)
    requires Filed(filed, rows, fi) && NoRepeats(IdsOf(rows)) && Ascending(items)
    requires forall key :: OfKey(items, key) == if InRange(key, BoundKey(lo), loInclusive, BoundKey(hi), hiInclusive) then IdsUnder(filed, key) else []
    requires |out| == |items| && forall i :: 0 <= i < |items| ==> out[i] in rows && out[i].id == items[i].id
    ensures InKeyOrder(out, Select(rows, RangeRule(fi, lo, loInclusive, hi, hiInclusive)), fi)
  {
    hide InRange, BoundKey, KeyAt, RangeRule, Select, RowsWith, OfKey, IdsUnder, NoRepeats, Less, IdsOf;
    forall i | 0 <= i < |items| ensures KeyAt(out[i], fi) == items[i].key {
      FetchedKey(items, rows, fi, out[i], i);
    }
    forall i, j | 0 <= i < j < |out| ensures !Less(KeyAt(out[j], fi), KeyAt(out[i], fi)) {
      LessTotal(items[i].key, items[j].key);
    }
    var wanted := Select(rows, RangeRule(fi, lo, loInclusive, hi, hiInclusive));
    forall key ensures RowsWith(out, fi, key) == RowsWith(wanted, fi, key) {
      SameIds(items, out, fi, key);
      RangeWith(rows, fi, key, lo, loInclusive, hi, hiInclusive);
      RowsWithMembers(out, fi, key);
      RowsWithMembers(rows, fi, key);
      NoIds();
      SameRows(RowsWith(out, fi, key), RowsWith(wanted, fi, key), rows);
    }
  }

  lemma NoIds()
    ensures IdsOf([]) == []
  {}

  lemma FetchedKey(items: seq<Item>, rows: seq<Row>, fi: int, row: Row, i: nat)
    requires NoRepeats(IdsOf(rows)) && i < |items| && row in rows && row.id == items[i].id
    requires OfKey(items, items[i].key) == IdsOf(RowsWith(rows, fi, items[i].key)) || OfKey(items, items[i].key) == []
    ensures KeyAt(row, fi) == items[i].key
  {
    hide KeyAt, RowsWith, OfKey, NoRepeats, IdsOf;
    var x, key := items[i], items[i].key;
    OfKeyMembers(items, x);
    IdsMembers(RowsWith(rows, fi, key), x.id);
    var r :| r in RowsWith(rows, fi, key) && r.id == x.id;
    RowsWithMembers(rows, fi, key);
    OneRow(rows, row, r);
  }

  /** On bounds of the field's type, key order is the type's own order. */
  lemma RangeIsNatural(row: Row, fi: int, lo: Option<FieldValue>, loInclusive: bool, hi: Option<FieldValue>, hiInclusive: bool)
    requires 0 <= fi < |row.fields|
    requires lo.Some? ==> SameType(lo.value, row.fields[fi])
    requires hi.Some? ==> SameType(row.fields[fi], hi.value)
    ensures var v := row.fields[fi];
            Selected(row, fi, lo, loInclusive, hi, hiInclusive)
            <==> && (lo.Some? ==> NaturalOrder(lo.value, v) < 0 || (loInclusive && v == lo.value))
                 && (hi.Some? ==> NaturalOrder(v, hi.value) < 0 || (hiInclusive && v == hi.value))
  {
    hide EncodeKey, Compare, NaturalOrder;
    var v := row.fields[fi];
    if lo.Some? {
      OrderPreserving(lo.value, v);
      if EncodeKey(lo.value) == EncodeKey(v) { KeyInjective(lo.value, v); }
    }
    if hi.Some? {
      OrderPreserving(v, hi.value);
      if EncodeKey(v) == EncodeKey(hi.value) { KeyInjective(v, hi.value); }
    }
  }

  function UintBound(x: Option<u32>): Option<FieldValue> { if x.Some? then Some(Uint(x.value)) else None }
  function Int64Bound(x: Option<i64>): Option<FieldValue> { if x.Some? then Some(Int64(x.value)) else None }
  function FloatBound(x: Option<u32>): Option<FieldValue> { if x.Some? then Some(Float(x.value)) else None }

  /** A filter with a minimum and a maximum selects what the range scan between them does,
      both inclusive. */
  lemma FilterIsRange(c: Constraint, row: Row, fi: int)
    requires 0 <= fi < |row.fields|
    ensures row.fields[fi].Uint? && c.eqUint.None? ==>
              (Satisfies(c, row.fields[fi]) <==> Selected(row, fi, UintBound(c.minUint), true, UintBound(c.maxUint), true))
    ensures row.fields[fi].Int64? && c.eqInt64.None? ==>
              (Satisfies(c, row.fields[fi]) <==> Selected(row, fi, Int64Bound(c.minInt64), true, Int64Bound(c.maxInt64), true))
  {
    hide Selected, Equal, Smaller;
    match row.fields[fi]
    case Uint(u) => RangeIsNatural(row, fi, UintBound(c.minUint), true, UintBound(c.maxUint), true);
    case Int64(i) => RangeIsNatural(row, fi, Int64Bound(c.minInt64), true, Int64Bound(c.maxInt64), true);
    case _ =>
  }

  /** So do floats, for numbers other than zero; the two zeros are equal to a filter and
      apart in an index. */
  lemma FloatFilterIsRange(c: Constraint, row: Row, fi: int)
    requires 0 <= fi < |row.fields| && row.fields[fi].Float? && c.eqFloat.None?
    requires !IsNaN(row.fields[fi].bits) && Number(row.fields[fi].bits) != 0
    requires (c.minFloat.Some? ==> !IsNaN(c.minFloat.value)) && (c.maxFloat.Some? ==> !IsNaN(c.maxFloat.value))
    ensures Satisfies(c, row.fields[fi]) <==> Selected(row, fi, FloatBound(c.minFloat), true, FloatBound(c.maxFloat), true)
  {
    hide Selected, Number, IsNaN;
    var f := row.fields[fi].bits;
    RangeIsNatural(row, fi, FloatBound(c.minFloat), true, FloatBound(c.maxFloat), true);
    if c.minFloat.Some? { FloatsDiffer(c.minFloat.value, f); }
    if c.maxFloat.Some? { FloatsDiffer(f, c.maxFloat.value); }
  }

  lemma FloatsDiffer(a: u32, b: u32)
    requires Number(a) != 0 || Number(b) != 0
    ensures Number(a) < Number(b) <==> TotalRank(a) < TotalRank(b)
    ensures Number(a) == Number(b) <==> a == b
  {
    hide Number;
    RankIsNumber(a, b);
    RankIsNumber(a, 0);
    RankIsNumber(b, 0);
    assert Number(0) == 0 by { ZeroNumber(); }
  }

  lemma ZeroNumber()
    ensures Number(0) == 0
  {}

  /** An equality filter selects what a range scan from the value to itself does. */
  lemma EqualityIsPoint(row: Row, fi: int, v: FieldValue)
    requires 0 <= fi < |row.fields| && SameType(v, row.fields[fi]) && SameType(row.fields[fi], v)
    ensures Selected(row, fi, Some(v), true, Some(v), true) <==> row.fields[fi] == v
  {
    hide Selected, NaturalOrder;
    RangeIsNatural(row, fi, Some(v), true, Some(v), true);
    Antisymmetric(v, row.fields[fi]);
  }

  lemma Antisymmetric(a: FieldValue, b: FieldValue)
    requires SameType(a, b) && SameType(b, a)
    ensures !(NaturalOrder(a, b) < 0 && NaturalOrder(b, a) < 0)
  {
    hide NaturalOrder;
    OrderPreserving(a, b);
    OrderPreserving(b, a);
    CompareFlips(EncodeKey(a), EncodeKey(b));
  }

  /** The value is of the alternative the encoder asks for; otherwise std::get throws. */
  predicate HasType(v: FieldValue, t: FieldType) {
    match t
    case UINT32 => v.Uint?
    case STRING => v.Str?
    case FLOAT32 => v.Float?
    case BOOL => v.Bool?
    case INT64 => v.Int64?
  }

  /** That is, it could be stored in the field if short enough. */
  lemma HasTypeMeans(v: FieldValue, t: FieldType)
    ensures HasType(v, t) <==> exists w :: Typed(w, t) && SameType(w, v)
  {
    var w := match t case UINT32 => Uint(0) case STRING => Str([]) case FLOAT32 => Float(0) case BOOL => Bool(false) case INT64 => Int64(0);
    assert Typed(w, t);
  }

  predicate Fits(bound: Option<FieldValue>, t: FieldType) { bound.Some? ==> HasType(bound.value, t) }

  /** Comparing this row throws: the lower bound is of another type, or the row passes it
      and the upper bound is. */
  ghost predicate Throws(row: Row, fi: int, t: FieldType, lo: Option<FieldValue>, loInclusive: bool, hi: Option<FieldValue>) {
    !Fits(lo, t) || (!Fits(hi, t) && AtLeast(KeyAt(row, fi), BoundKey(lo), loInclusive))
  }

  /** How a range scan ends: an index encodes both bounds at once, the fallback each bound
      only when a row is compared with it. */
  ghost function RangeStatus(table: Table, indexed: bool, fi: int, t: FieldType, lo: Option<FieldValue>, loInclusive: bool, hi: Option<FieldValue>): Status {
    if indexed then (if Fits(lo, t) && Fits(hi, t) then Ok else BadBound)
    else if exists id :: id in table && Throws(table[id], fi, t, lo, loInclusive, hi) then BadBound
    else Ok
  }

  /** Index and fallback end the same way on every table exactly when the bounds are of the
      field's type: on an empty table the fallback never looks at them. */
  lemma RangeAgreement(fi: int, t: FieldType, lo: Option<FieldValue>, loInclusive: bool, hi: Option<FieldValue>)
    ensures (forall table :: RangeStatus(table, true, fi, t, lo, loInclusive, hi) == RangeStatus(table, false, fi, t, lo, loInclusive, hi))
        <==> Fits(lo, t) && Fits(hi, t)
  {
    assert RangeStatus(map[], false, fi, t, lo, loInclusive, hi) == Ok;
  }

  /** The fallback's test of one row, with compare_field_values. */
  method Compares(row: Row, fi: nat, t: FieldType, lo: Option<FieldValue>, loInclusive: bool, hi: Option<FieldValue>, hiInclusive: bool)
    returns (threw: bool, ok: bool)
    requires fi < |row.fields|
    ensures threw <==> Throws(row, fi, t, lo, loInclusive, hi)
    ensures !threw ==> (ok <==> Selected(row, fi, lo, loInclusive, hi, hiInclusive))
  {
    hide EncodeKey, Compare, HasType;
    threw, ok := false, false;
    var key := KeyOf(row.fields[fi]);
    if lo.Some? {
      if !HasType(lo.value, t) {
        threw := true;
        return;
      }
      var bound := KeyOf(lo.value);
      var c := KeyCompare(key, bound);
      CompareFlips(key, bound);
      CompareEqual(key, bound);
      if c < 0 || (c == 0 && !loInclusive) {
        return;
      }
    }
    if hi.Some? {
      if !HasType(hi.value, t) {
        threw := true;
        return;
      }
      var bound := KeyOf(hi.value);
      var c := KeyCompare(key, bound);
      CompareEqual(key, bound);
      if c > 0 || (c == 0 && !hiInclusive) {
        return;
      }
    }
    ok := true;
  }
}
