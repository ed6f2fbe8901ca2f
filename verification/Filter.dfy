/** ScanFilter of src/db.cpp: the same verdict from a decoded row and from its bytes. */
module Filter {
  import opened Bytes
  import opened Rows
  import opened Floats

  datatype Constraint = Constraint(
    eqUint: Option<u32>, eqStr: Option<seq<byte>>, eqFloat: Option<u32>, eqBool: Option<bool>, eqInt64: Option<i64>,
    minUint: Option<u32>, maxUint: Option<u32>, minInt64: Option<i64>, maxInt64: Option<i64>,
    minFloat: Option<u32>, maxFloat: Option<u32>, prefix: Option<seq<byte>>)

  type Constraints = map<string, Constraint>

  /** What a constraint asks of a value: each bound that is set and is of the value's type.
      Floats compare as IEEE numbers, so a NaN is within every range and equal to nothing. */
  ghost predicate Satisfies(c: Constraint, v: FieldValue) {
    match v
    case Uint(u) => (c.eqUint.Some? ==> u == c.eqUint.value) && (c.minUint.Some? ==> c.minUint.value <= u) && (c.maxUint.Some? ==> u <= c.maxUint.value)
    case Int64(i) => (c.eqInt64.Some? ==> i == c.eqInt64.value) && (c.minInt64.Some? ==> c.minInt64.value <= i) && (c.maxInt64.Some? ==> i <= c.maxInt64.value)
    case Float(f) =>
      && (c.eqFloat.Some? ==> Equal(f, c.eqFloat.value))
      && (c.minFloat.Some? ==> !Smaller(f, c.minFloat.value))
      && (c.maxFloat.Some? ==> !Smaller(c.maxFloat.value, f))
    case Bool(b) => c.eqBool.Some? ==> b == c.eqBool.value
    case Str(s) => (c.eqStr.Some? ==> s == c.eqStr.value) && (c.prefix.Some? ==> c.prefix.value <= s)
  }

  /** The per-type switch of ScanFilter::matches on a decoded value. */
  method CheckValue(c: Constraint, v: FieldValue, t: FieldType) returns (ok: bool)
    requires Typed(v, t)
    ensures ok <==> Satisfies(c, v)
  {
    hide FloatEq, FloatLess, Equal, Smaller;
    match t {
      case UINT32 =>
        if c.eqUint.Some? && v.uint != c.eqUint.value { return false; }
        if c.minUint.Some? && v.uint < c.minUint.value { return false; }
        if c.maxUint.Some? && v.uint > c.maxUint.value { return false; }
      case INT64 =>
        if c.eqInt64.Some? && v.int64 != c.eqInt64.value { return false; }
        if c.minInt64.Some? && v.int64 < c.minInt64.value { return false; }
        if c.maxInt64.Some? && v.int64 > c.maxInt64.value { return false; }
      case FLOAT32 =>
        var good := CheckFloat(c, v.bits);
        if !good { return false; }
      case BOOL =>
        if c.eqBool.Some? && v.flag != c.eqBool.value { return false; }
      case STRING =>
        if c.eqStr.Some? && v.str != c.eqStr.value { return false; }
        if c.prefix.Some? {
          if |v.str| < |c.prefix.value| { return false; }
          if v.str[..|c.prefix.value|] != c.prefix.value { return false; }
        }
    }
    ok := true;
  }

  method CheckFloat(c: Constraint, f: u32) returns (ok: bool)
    ensures ok <==> Satisfies(c, Float(f))
  {
    hide FloatEq, FloatLess, Equal, Smaller;
    if c.eqFloat.Some? {
      HardwareCompares(f, c.eqFloat.value);
      if !FloatEq(f, c.eqFloat.value) { return false; }
    }
    if c.minFloat.Some? {
      HardwareCompares(f, c.minFloat.value);
      if FloatLess(f, c.minFloat.value) { return false; }
    }
    if c.maxFloat.Some? {
      HardwareCompares(c.maxFloat.value, f);
      if FloatLess(c.maxFloat.value, f) { return false; }
    }
    ok := true;
  }

  /** The same switch of ScanFilter::matches_raw, which reads the value where it lies. */
  method CheckBytes(c: Constraint, b: seq<byte>, src: nat, t: FieldType, ghost fields: seq<FieldValue>) returns (ok: bool)
    requires fields != [] && Typed(fields[0], t) && At(b, src, EncodeFields(fields))
    ensures ok <==> Satisfies(c, fields[0])
  {
    hide FloatEq, FloatLess, Equal, Smaller, At, EncodeFields;
    FieldAt(b, src, fields, t);
    match t {
      case UINT32 =>
        var v := ReadLe32(b[src..]);
        if c.eqUint.Some? && v != c.eqUint.value { return false; }
        if c.minUint.Some? && v < c.minUint.value { return false; }
        if c.maxUint.Some? && v > c.maxUint.value { return false; }
      case INT64 =>
        var v := AsSigned(ReadLe64(b[src..]));
        if c.eqInt64.Some? && v != c.eqInt64.value { return false; }
        if c.minInt64.Some? && v < c.minInt64.value { return false; }
        if c.maxInt64.Some? && v > c.maxInt64.value { return false; }
      case FLOAT32 =>
        var good := CheckFloat(c, ReadLe32(b[src..]));
        if !good { return false; }
      case BOOL =>
        var v := b[src] != 0;
        if c.eqBool.Some? && v != c.eqBool.value { return false; }
      case STRING =>
        var len := ReadLe16(b[src..]);
        var v := b[src..][2..2 + len];
        if c.eqStr.Some? && v != c.eqStr.value { return false; }
        if c.prefix.Some? {
          if |v| < |c.prefix.value| { return false; }
          if v[..|c.prefix.value|] != c.prefix.value { return false; }
        }
    }
    ok := true;
  }

  predicate UniqueNames(schema: Schema) {
    forall i, j :: 0 <= i < j < |schema| ==> schema[i].name != schema[j].name
  }

  /** Every constraint on a field of the schema is satisfied; others are ignored. */
  ghost predicate Accepts(constraints: Constraints, schema: Schema, row: Row) {
    forall i :: 0 <= i < |schema| && i < |row.fields| && schema[i].name in constraints ==> Satisfies(constraints[schema[i].name], row.fields[i])
  }

  /** The filter as a predicate on rows. */
  ghost function AcceptRule(constraints: Constraints, schema: Schema): Row -> bool {
    r => Accepts(constraints, schema, r)
  }

  /** The first field of this name, or -1. */
  function FieldPos(schema: Schema, name: string): (idx: int)
    ensures -1 <= idx < |schema|
    ensures idx >= 0 ==> schema[idx].name == name
    ensures forall i :: 0 <= i < (if idx == -1 then |schema| else idx) ==> schema[i].name != name
  {
    if schema == [] then -1
    else if schema[0].name == name then 0
    else var rest := FieldPos(schema[1..], name);
         if rest == -1 then -1 else rest + 1
  }

  /** Schema::field_index. */
  method FieldIndex(schema: Schema, name: string) returns (idx: int)
    ensures idx == FieldPos(schema, name)
  {
    for i := 0 to |schema|
      invariant forall k :: 0 <= k < i ==> schema[k].name != name
    {
      if schema[i].name == name {
        return i;
      }
    }
    idx := -1;
  }

  /** ScanFilter::matches walks the constraints and looks each field up. */
  method Matches(constraints: Constraints, row: Row, schema: Schema) returns (ok: bool)
    requires AllTyped(row.fields, schema) && UniqueNames(schema)
    ensures ok <==> Accepts(constraints, schema, row)
  {
    var names := constraints.Keys;
    while names != {}
      invariant names <= constraints.Keys
      invariant forall i :: 0 <= i < |schema| && schema[i].name in constraints.Keys - names ==> Satisfies(constraints[schema[i].name], row.fields[i])
      decreases names
    {
      var name :| name in names;
      var idx := FieldIndex(schema, name);
      if idx >= 0 {
        ok := CheckValue(constraints[name], row.fields[idx], schema[idx].ftype);
        if !ok {
          return;
        }
      }
      names := names - {name};
    }
    ok := true;
  }

  /** skip_field. */
  method SkipField(b: seq<byte>, src: nat, t: FieldType, ghost fields: seq<FieldValue>) returns (next: nat)
    requires fields != [] && Typed(fields[0], t) && At(b, src, EncodeFields(fields))
    ensures At(b, next, EncodeFields(fields[1..]))
  {
    hide At, EncodeFields;
    FieldAt(b, src, fields, t);
    next := src + FieldWidth(b[src..], t);
  }

  /** One field of the walk: its constraint, if there is one, and the next field. */
  method StepRaw(constraints: Constraints, b: seq<byte>, src: nat, def: FieldDef, ghost fields: seq<FieldValue>) returns (ok: bool, next: nat)
    requires fields != [] && Typed(fields[0], def.ftype) && At(b, src, EncodeFields(fields))
    ensures ok <==> (def.name in constraints ==> Satisfies(constraints[def.name], fields[0]))
    ensures At(b, next, EncodeFields(fields[1..]))
  {
    hide EncodeFields, At, Satisfies, Typed;
    ok := true;
    if def.name in constraints {
      ok := CheckBytes(constraints[def.name], b, src, def.ftype, fields);
    }
    next := SkipField(b, src, def.ftype, fields);
  }

  /** ScanFilter::matches_raw walks the serialised fields and looks each constraint up. */
  method MatchesRaw(constraints: Constraints, b: seq<byte>, pos: nat, schema: Schema, ghost row: Row) returns (ok: bool)
    requires Storable(row, schema) && At(b, pos, EncodeRow(row))
    ensures ok <==> Accepts(constraints, schema, row)
  {
    hide EncodeFields, EncodeRow, At, Satisfies, Typed, RowSize;
    if constraints == map[] {
      return true;
    }
    HeaderAt(b, pos, row);
    var src: nat := pos + 8;
    ghost var rest := row.fields;
    for i := 0 to |schema|
      invariant rest == row.fields[i..] && At(b, src, EncodeFields(rest))
      invariant forall k :: 0 <= k < i && schema[k].name in constraints ==> Satisfies(constraints[schema[k].name], row.fields[k])
    {
      ok, src := StepRaw(constraints, b, src, schema[i], rest);
      if !ok {
        return;
      }
      rest := rest[1..];
    }
    ok := true;
  }
}
