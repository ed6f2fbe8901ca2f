/** Schemas, rows and the row wire format of src/page.cpp. */
module Rows {
  import opened Bytes

  const PAGE_SIZE := 8192
  const MAX_ROWS_PER_PAGE := 64

  datatype FieldType = UINT32 | STRING | FLOAT32 | BOOL | INT64

  /** Floats are their 32-bit patterns, strings their bytes. */
  datatype FieldValue = Uint(uint: u32) | Str(str: seq<byte>) | Float(bits: u32) | Bool(flag: bool) | Int64(int64: i64)

  datatype FieldDef = FieldDef(name: string, ftype: FieldType)

  type Schema = seq<FieldDef>

  datatype Row = Row(id: u32, fields: seq<FieldValue>)

  /** The value holds the alternative the schema names, and a string fits its 16-bit length. */
  predicate Typed(v: FieldValue, t: FieldType) {
    match t
    case UINT32 => v.Uint?
    case STRING => v.Str? && |v.str| <= 65535
    case FLOAT32 => v.Float?
    case BOOL => v.Bool?
    case INT64 => v.Int64?
  }

  predicate AllTyped(fields: seq<FieldValue>, schema: Schema) {
    |fields| == |schema| && forall i :: 0 <= i < |fields| ==> Typed(fields[i], schema[i].ftype)
  }

  function EncodeField(v: FieldValue): seq<byte> {
    match v
    case Uint(u) => Le32(u)
    case Str(s) => if |s| <= 65535 then Le16(|s|) + s else []
    case Float(bits) => Le32(bits)
    case Bool(b) => [if b then 1 else 0]
    case Int64(i) => Le64(AsUnsigned(i))
  }

  function EncodeFields(fields: seq<FieldValue>): seq<byte> {
    if fields == [] then [] else EncodeField(fields[0]) + EncodeFields(fields[1..])
  }

  function RowSize(row: Row): nat { 8 + |EncodeFields(row.fields)| }

  /** A row the engine accepts: the schema's fields in order, within a page. */
  predicate Storable(row: Row, schema: Schema) {
    AllTyped(row.fields, schema) && RowSize(row) <= PAGE_SIZE
  }

  /** [total length:4][row id:4][fields...] */
  function EncodeRow(row: Row): (r: seq<byte>)
    requires RowSize(row) <= PAGE_SIZE
    ensures |r| == RowSize(row)
  {
    Le32(RowSize(row)) + (Le32(row.id) + EncodeFields(row.fields))
  }

  /** Enough bytes are left to read a field of this type. */
  predicate Readable(b: seq<byte>, t: FieldType) {
    match t
    case UINT32 => |b| >= 4
    case STRING => |b| >= 2 && |b| >= 2 + ReadLe16(b)
    case FLOAT32 => |b| >= 4
    case BOOL => |b| >= 1
    case INT64 => |b| >= 8
  }

  function ReadField(b: seq<byte>, t: FieldType): FieldValue
    requires Readable(b, t)
  {
    match t
    case UINT32 => Uint(ReadLe32(b))
    case STRING => Str(b[2..2 + ReadLe16(b)])
    case FLOAT32 => Float(ReadLe32(b))
    case BOOL => Bool(b[0] != 0)
    case INT64 => Int64(AsSigned(ReadLe64(b)))
  }

  /** skip_field: bytes from one field to the next. */
  function FieldWidth(b: seq<byte>, t: FieldType): nat
    requires Readable(b, t)
  {
    match t
    case UINT32 => 4
    case STRING => 2 + ReadLe16(b)
    case FLOAT32 => 4
    case BOOL => 1
    case INT64 => 8
  }

  /** Reading a field inverts writing it and moves past exactly its bytes. */
  lemma ReadFieldOf(v: FieldValue, t: FieldType, tail: seq<byte>)
    requires Typed(v, t)
    ensures Readable(EncodeField(v) + tail, t)
    ensures ReadField(EncodeField(v) + tail, t) == v
    ensures FieldWidth(EncodeField(v) + tail, t) == |EncodeField(v)|
  {
    match v
    case Uint(u) => ReadLe32Of(u, tail);
    case Str(s) =>
      assert EncodeField(v) + tail == Le16(|s|) + (s + tail);
      ReadLe16Of(|s|, s + tail);
      assert (Le16(|s|) + (s + tail))[2..2 + |s|] == s;
    case Float(bits) => ReadLe32Of(bits, tail);
    case Bool(b) =>
    case Int64(i) => ReadLe64Of(AsUnsigned(i), tail);
  }

  /** `b` at `pos` continues with `bytes`. */
  predicate At(b: seq<byte>, pos: nat, bytes: seq<byte>) {
    pos <= |b| && bytes <= b[pos..]
  }

  lemma AtSplit(b: seq<byte>, pos: nat, x: seq<byte>, y: seq<byte>)
    requires At(b, pos, x + y)
    ensures At(b, pos, x) && At(b, pos + |x|, y)
    ensures b[pos..] == x + b[pos + |x|..]
  {
    assert b[pos..][..|x|] == (x + y)[..|x|] == x;
    assert b[pos + |x|..] == b[pos..][|x|..];
    assert b[pos..][|x|..|x| + |y|] == (x + y)[|x|..] == y;
  }

  /** The field under a cursor and the cursor after it. */
  lemma FieldAt(b: seq<byte>, pos: nat, fields: seq<FieldValue>, t: FieldType)
    requires fields != [] && Typed(fields[0], t) && At(b, pos, EncodeFields(fields))
    ensures Readable(b[pos..], t) && ReadField(b[pos..], t) == fields[0]
    ensures At(b, pos + FieldWidth(b[pos..], t), EncodeFields(fields[1..]))
  {
    AtSplit(b, pos, EncodeField(fields[0]), EncodeFields(fields[1..]));
    ReadFieldOf(fields[0], t, b[pos + |EncodeField(fields[0])|..]);
  }

  /** The header of an encoded row: its length, its id, and where its fields start. */
  lemma HeaderAt(b: seq<byte>, pos: nat, row: Row)
    requires RowSize(row) <= PAGE_SIZE && At(b, pos, EncodeRow(row))
    ensures pos + 8 <= |b|
    ensures ReadLe32(b[pos..]) == RowSize(row) && ReadLe32(b[pos + 4..]) == row.id
    ensures At(b, pos + 8, EncodeFields(row.fields))
  {
    AtSplit(b, pos, Le32(RowSize(row)), Le32(row.id) + EncodeFields(row.fields));
    AtSplit(b, pos + 4, Le32(row.id), EncodeFields(row.fields));
    ReadLe32Of(RowSize(row), b[pos + 4..]);
    ReadLe32Of(row.id, b[pos + 8..]);
  }

  /** row_byte_size: the exact encoded length, or None for a row the schema rejects. */
  method RowByteSize(row: Row, schema: Schema) returns (size: Option<nat>)
    requires |row.fields| == |schema|
    ensures size == if AllTyped(row.fields, schema) then Some(RowSize(row)) else None
  {
    var total := 8;
    ghost var rest := row.fields;
    for i := 0 to |schema|
      invariant rest == row.fields[i..]
      invariant total + |EncodeFields(rest)| == RowSize(row)
      invariant forall k :: 0 <= k < i ==> Typed(row.fields[k], schema[k].ftype)
    {
      var width := FieldByteSize(row.fields[i], schema[i].ftype);
      if width.None? {
        return None;
      }
      total := total + width.value;
      rest := rest[1..];
    }
    size := Some(total);
  }

  /** field_byte_size: None stands for the XDLError it throws. */
  function FieldByteSize(v: FieldValue, t: FieldType): (r: Option<nat>)
    ensures r == if Typed(v, t) then Some(|EncodeField(v)|) else None
  {
    match t
    case UINT32 => if v.Uint? then Some(4) else None
    case STRING => if v.Str? && |v.str| <= 65535 then Some(2 + |v.str|) else None
    case FLOAT32 => if v.Float? then Some(4) else None
    case BOOL => if v.Bool? then Some(1) else None
    case INT64 => if v.Int64? then Some(8) else None
  }

  /** One field off the cursor. */
  method TakeField(b: seq<byte>, src: nat, t: FieldType, ghost fields: seq<FieldValue>) returns (v: FieldValue, next: nat)
    requires fields != [] && Typed(fields[0], t) && At(b, src, EncodeFields(fields))
    ensures v == fields[0] && At(b, next, EncodeFields(fields[1..]))
  {
    FieldAt(b, src, fields, t);
    v, next := ReadField(b[src..], t), src + FieldWidth(b[src..], t);
  }

  /** The decoding loop of get_row, over any bytes that hold an encoded row. */
  method DecodeRow(b: seq<byte>, pos: nat, schema: Schema, ghost row: Row) returns (r: Row)
    requires Storable(row, schema) && At(b, pos, EncodeRow(row))
    ensures r == row
  {
    hide EncodeField, EncodeFields, EncodeRow, At, ReadLe32, Le32, Typed;
    HeaderAt(b, pos, row);
    var fields: seq<FieldValue>, src: nat := [], pos + 8;
    assert row.fields[0..] == row.fields;
    for i := 0 to |schema|
      invariant fields == row.fields[..i]
      invariant At(b, src, EncodeFields(row.fields[i..]))
    {
      var v;
      v, src := TakeField(b, src, schema[i].ftype, row.fields[i..]);
      assert row.fields[i..][1..] == row.fields[i + 1..] && row.fields[..i + 1] == row.fields[..i] + [v];
      fields := fields + [v];
    }
    assert row.fields[..|schema|] == row.fields;
    r := Row(ReadLe32(b[pos + 4..]), fields);
  }
}
