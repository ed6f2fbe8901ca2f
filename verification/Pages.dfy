/** Page of src/page.cpp and include/xdl/page.h: packed rows, appended and compacted in place. */
module Pages {
  import opened Bytes
  import opened Rows

  /** A page's stored fields as one value, the form the cache keeps and the file encodes. */
  datatype Frame = Frame(id: nat, data: seq<byte>, rowCount: nat, dirty: bool, rowOffsets: seq<nat>)

  predicate AllStorable(rows: seq<Row>, schema: Schema) {
    forall i :: 0 <= i < |rows| ==> Storable(rows[i], schema)
  }

  function EncodeRows(rows: seq<Row>): seq<byte>
    requires forall i :: 0 <= i < |rows| ==> RowSize(rows[i]) <= PAGE_SIZE
  {
    if rows == [] then [] else EncodeRow(rows[0]) + EncodeRows(rows[1..])
  }

  /** Total bytes of a page's rows. */
  function ByteSize(rows: seq<Row>): nat {
    if rows == [] then 0 else RowSize(rows[0]) + ByteSize(rows[1..])
  }

  function Offsets(rows: seq<Row>): seq<nat> {
    seq(|rows|, i requires 0 <= i < |rows| => ByteSize(rows[..i]))
  }

  function Without(rows: seq<Row>, i: nat): seq<Row>
    requires i < |rows|
  {
    rows[..i] + rows[i + 1..]
  }

  /** The page holds exactly these rows. */
  ghost predicate Holds(f: Frame, rows: seq<Row>, schema: Schema) {
    && AllStorable(rows, schema)
    && f.data == EncodeRows(rows)
    && f.rowCount == |rows|
    && f.rowOffsets == Offsets(rows)
  }

  lemma {:induction false} EncodeRowsConcat(a: seq<Row>, b: seq<Row>, schema: Schema)
    requires AllStorable(a, schema) && AllStorable(b, schema)
    ensures EncodeRows(a + b) == EncodeRows(a) + EncodeRows(b)
  {
    if a == [] {
      assert a + b == b;
    } else {
      assert (a + b)[1..] == a[1..] + b;
      EncodeRowsConcat(a[1..], b, schema);
    }
  }

  lemma {:induction false} ByteSizeConcat(a: seq<Row>, b: seq<Row>)
    ensures ByteSize(a + b) == ByteSize(a) + ByteSize(b)
  {
    if a == [] {
      assert a + b == b;
    } else {
      assert (a + b)[1..] == a[1..] + b;
      ByteSizeConcat(a[1..], b);
    }
  }

  lemma {:induction false} EncodedSize(rows: seq<Row>, schema: Schema)
    requires AllStorable(rows, schema)
    ensures |EncodeRows(rows)| == ByteSize(rows)
  {
    if rows != [] {
      EncodedSize(rows[1..], schema);
    }
  }

  /** Row `i` sits in the page bytes at its offset. */
  lemma RowAt(rows: seq<Row>, i: nat, schema: Schema)
    requires i < |rows| && AllStorable(rows, schema)
    ensures At(EncodeRows(rows), ByteSize(rows[..i]), EncodeRow(rows[i]))
  {
    var b := EncodeRows(rows);
    assert rows == rows[..i] + rows[i..];
    EncodeRowsConcat(rows[..i], rows[i..], schema);
    EncodedSize(rows[..i], schema);
    assert b[ByteSize(rows[..i])..] == EncodeRows(rows[i..]);
    assert rows[i..][0] == rows[i];
  }

  /** Bytes before, of, and after row `i`. */
  lemma SplitAt(rows: seq<Row>, i: nat, schema: Schema)
    requires i < |rows| && AllStorable(rows, schema)
    ensures EncodeRows(rows) == EncodeRows(rows[..i]) + EncodeRow(rows[i]) + EncodeRows(rows[i + 1..])
    ensures |EncodeRows(rows[..i])| == ByteSize(rows[..i])
    ensures EncodeRows(Without(rows, i)) == EncodeRows(rows[..i]) + EncodeRows(rows[i + 1..])
  {
    assert rows == rows[..i] + rows[i..];
    EncodeRowsConcat(rows[..i], rows[i..], schema);
    assert rows[i..][1..] == rows[i + 1..];
    EncodedSize(rows[..i], schema);
    EncodeRowsConcat(rows[..i], rows[i + 1..], schema);
  }

  /** Compaction moves every later row down by the erased length. */
  lemma OffsetsWithout(rows: seq<Row>, i: nat, k: nat)
    requires i <= k < |rows| - 1
    ensures ByteSize(Without(rows, i)[..k]) == ByteSize(rows[..k + 1]) - RowSize(rows[i])
  {
    var mid := rows[i + 1..k + 1];
    assert Without(rows, i)[..k] == rows[..i] + mid;
    assert rows[..k + 1] == rows[..i] + ([rows[i]] + mid);
    ByteSizeConcat(rows[..i], mid);
    ByteSizeConcat(rows[..i], [rows[i]] + mid);
    assert ([rows[i]] + mid)[1..] == mid;
  }

  class Page {
    const id: nat
    var data: seq<byte>
    var rowCount: nat
    var dirty: bool
    var rowOffsets: seq<nat>

    function Image(): Frame
      reads this
    {
      Frame(id, data, rowCount, dirty, rowOffsets)
    }

    constructor (f: Frame)
      ensures Image() == f
    {
      id, data, rowCount, dirty, rowOffsets := f.id, f.data, f.rowCount, f.dirty, f.rowOffsets;
    }

    /** append_row: false stands for the XDLError thrown before anything is written. */
    method AppendRow(row: Row, schema: Schema, ghost rows: seq<Row>) returns (ok: bool)
      requires Holds(Image(), rows, schema) && |row.fields| == |schema|
      modifies this
      ensures ok == Storable(row, schema)
      ensures !ok ==> Image() == old(Image())
      ensures ok ==> dirty && Holds(Image(), rows + [row], schema)
    {
      hide EncodeFields, EncodeRows, AllTyped, ByteSize, Offsets, Le32;
      var size := RowByteSize(row, schema);
      ok := size.Some? && size.value <= PAGE_SIZE;
      if !ok {
        return;
      }
      Appended(rows, row, schema);
      var offset := |data|;
      data := data + (Le32(size.value) + Le32(row.id));
      AppendFields(row.fields);
      rowOffsets := rowOffsets + [offset];
      rowCount := rowCount + 1;
      dirty := true;
    }

    method AppendFields(fields: seq<FieldValue>)
      modifies this`data
      ensures data == old(data) + EncodeFields(fields)
    {
      hide EncodeField;
      ghost var rest := fields;
      for i := 0 to |fields|
        invariant rest == fields[i..]
        invariant data + EncodeFields(rest) == old(data) + EncodeFields(fields)
      {
        data := data + EncodeField(fields[i]);
        rest := rest[1..];
      }
    }

    /** erase_row: false stands for the out-of-bounds XDLError. */
    method EraseRow(idx: nat, schema: Schema, ghost rows: seq<Row>) returns (ok: bool)
      requires Holds(Image(), rows, schema)
      modifies this
      ensures ok == (idx < |rows|)
      ensures !ok ==> Image() == old(Image())
      ensures ok ==> dirty && Holds(Image(), Without(rows, idx), schema)
    {
      hide EncodeFields, EncodeRow, EncodeRows, AllTyped, ByteSize, ReadLe32, At;
      ok := idx < rowCount;
      if !ok {
        return;
      }
      var start := rowOffsets[idx];
      RowAt(rows, idx, schema);
      HeaderAt(data, start, rows[idx]);
      var total := ReadLe32(data[start..]);
      SplitAt(rows, idx, schema);
      data := data[..start] + data[start + total..];
      rowOffsets := rowOffsets[..idx] + rowOffsets[idx + 1..];
      rowCount := rowCount - 1;
      ShiftOffsets(idx, total, rows);
      dirty := true;
    }

    method ShiftOffsets(idx: nat, total: nat, ghost rows: seq<Row>)
      requires idx < |rows| && rowCount == |rows| - 1 && total == RowSize(rows[idx])
      requires rowOffsets == Offsets(rows)[..idx] + Offsets(rows)[idx + 1..]
      modifies this`rowOffsets
      ensures rowOffsets == Offsets(Without(rows, idx))
    {
      hide ByteSize, RowSize;
      ghost var goal, all := Offsets(Without(rows, idx)), Offsets(rows);
      forall k | 0 <= k < idx ensures goal[k] == all[k] {
        assert Without(rows, idx)[..k] == rows[..k];
      }
      for i := idx to rowCount
        invariant |rowOffsets| == rowCount
        invariant forall k :: 0 <= k < i ==> rowOffsets[k] == goal[k]
        invariant forall k :: i <= k < rowCount ==> rowOffsets[k] == all[k + 1]
      {
        OffsetsWithout(rows, idx, i);
        rowOffsets := rowOffsets[i := rowOffsets[i] - total];
      }
    }
  }

  /** get_row; None stands for the out-of-bounds XDLError. */
  method GetRow(f: Frame, idx: nat, schema: Schema, ghost rows: seq<Row>) returns (r: Option<Row>)
    requires Holds(f, rows, schema)
    ensures r == if idx < |rows| then Some(rows[idx]) else None
  {
    hide EncodeFields, EncodeRow, EncodeRows, AllTyped, ByteSize, At;
    if idx >= f.rowCount {
      return None;
    }
    RowAt(rows, idx, schema);
    var row := DecodeRow(f.data, f.rowOffsets[idx], schema, rows[idx]);
    r := Some(row);
  }

  /** row_id_at: the id word of a row, four bytes into it. */
  method RowIdAt(f: Frame, idx: nat, schema: Schema, ghost rows: seq<Row>) returns (id: u32)
    requires Holds(f, rows, schema) && idx < |rows|
    ensures id == rows[idx].id
  {
    hide EncodeFields, EncodeRow, EncodeRows, AllTyped, ByteSize, ReadLe32, At;
    RowAt(rows, idx, schema);
    HeaderAt(f.data, f.rowOffsets[idx], rows[idx]);
    id := ReadLe32(f.data[f.rowOffsets[idx] + 4..]);
  }

  /** row_data_ptr and row_data_len: a row's bytes where they lie in the page. */
  method RowBytes(f: Frame, idx: nat, schema: Schema, ghost rows: seq<Row>) returns (bytes: seq<byte>)
    requires Holds(f, rows, schema) && idx < |rows|
    ensures bytes == EncodeRow(rows[idx])
  {
    hide EncodeFields, EncodeRow, EncodeRows, AllTyped, ByteSize, ReadLe32;
    RowAt(rows, idx, schema);
    HeaderAt(f.data, f.rowOffsets[idx], rows[idx]);
    var start := f.rowOffsets[idx];
    bytes := f.data[start..start + ReadLe32(f.data[start..])];
  }

  /** The slot the index names if the row is still there, else the slot found by scanning. */
  method SlotOf(f: Frame, id: nat, hint: nat, schema: Schema, ghost rows: seq<Row>) returns (slot: int)
    requires Holds(f, rows, schema)
    ensures -1 <= slot < |rows| && (slot >= 0 ==> rows[slot].id == id)
    ensures hint < |rows| && rows[hint].id == id ==> slot == hint
    ensures slot == -1 ==> forall i :: 0 <= i < |rows| ==> rows[i].id != id
  {
    hide Holds;
    var count := RowCount(f, schema, rows);
    if hint < count {
      var there := RowIdAt(f, hint, schema, rows);
      if there == id {
        return hint;
      }
    }
    slot := FindRow(f, id, schema, rows);
  }

  /** find_row: the first slot holding this id, or -1. */
  method FindRow(f: Frame, id: nat, schema: Schema, ghost rows: seq<Row>) returns (slot: int)
    requires Holds(f, rows, schema)
    ensures -1 <= slot < |rows|
    ensures slot >= 0 ==> rows[slot].id == id
    ensures forall i :: 0 <= i < (if slot >= 0 then slot else |rows|) ==> rows[i].id != id
  {
    hide Holds;
    var count := RowCount(f, schema, rows);
    for i := 0 to count
      invariant forall k :: 0 <= k < i ==> rows[k].id != id
    {
      var found := RowIdAt(f, i, schema, rows);
      if found == id {
        return i;
      }
    }
    slot := -1;
  }

  method RowCount(f: Frame, schema: Schema, ghost rows: seq<Row>) returns (count: nat)
    requires Holds(f, rows, schema)
    ensures count == |rows|
  {
    count := f.rowCount;
  }

  /** Pager::rebuild_row_offsets recomputes exactly the incrementally kept offsets;
      None stands for the CorruptionError on bytes that run out. */
  method RebuildRowOffsets(data: seq<byte>, rowCount: nat, schema: Schema, ghost rows: seq<Row>) returns (offsets: Option<seq<nat>>)
    ensures AllStorable(rows, schema) && data == EncodeRows(rows) && rowCount == |rows| ==> offsets == Some(Offsets(rows))
  {
    hide EncodeFields, EncodeRow, EncodeRows, AllTyped, RowSize, ReadLe32, At;
    var built: seq<nat>, pos: nat := [], 0;
    ghost var good := AllStorable(rows, schema) && data == EncodeRows(rows) && rowCount == |rows|;
    for i := 0 to rowCount
      invariant good ==> |built| == i && (forall k :: 0 <= k < i ==> built[k] == ByteSize(rows[..k])) && pos == ByteSize(rows[..i])
    {
      if good {
        RowAt(rows, i, schema);
        HeaderAt(data, pos, rows[i]);
        assert rows[..i + 1] == rows[..i] + [rows[i]];
        ByteSizeConcat(rows[..i], [rows[i]]);
        assert ByteSize([rows[i]]) == RowSize(rows[i]) by { assert [rows[i]][1..] == []; }
      }
      if pos + 4 > |data| {
        return None;
      }
      built := built + [pos];
      pos := pos + ReadLe32(data[pos..]);
    }
    assert good ==> built == Offsets(rows);
    offsets := Some(built);
  }

  lemma Appended(rows: seq<Row>, row: Row, schema: Schema)
    requires AllStorable(rows, schema) && Storable(row, schema)
    ensures EncodeRows(rows + [row]) == EncodeRows(rows) + EncodeRow(row)
    ensures Offsets(rows + [row]) == Offsets(rows) + [|EncodeRows(rows)|]
  {
    hide EncodeRow, RowSize, AllTyped, ByteSize, Offsets;
    EncodeRowsConcat(rows, [row], schema);
    assert EncodeRows([row]) == EncodeRow(row) by { assert [row][1..] == []; }
    EncodedSize(rows, schema);
    AppendedOffsets(rows, row);
  }

  lemma AppendedOffsets(rows: seq<Row>, row: Row)
    ensures Offsets(rows + [row]) == Offsets(rows) + [ByteSize(rows)]
  {
    hide ByteSize;
    var after := Offsets(rows + [row]);
    forall i | 0 <= i < |rows| + 1 ensures after[i] == (Offsets(rows) + [ByteSize(rows)])[i] {
      if i < |rows| { assert (rows + [row])[..i] == rows[..i]; } else { assert (rows + [row])[..i] == rows; }
    }
  }
}
