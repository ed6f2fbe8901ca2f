/** The database file of src/pager.cpp and src/storage.cpp: fixed page slots, each a
    header and a compressed payload. */
module Storage {
  import opened Bytes
  import opened Rows
  import opened Pages
  import Lz4Format
  import Lz4Codec
  import Lz4Limits

  const HEADER_SIZE := 20
  const SLOT_SIZE := HEADER_SIZE + PAGE_SIZE

  datatype Compression = None_ | LZ4

  function Tag(c: Compression): byte { if c.LZ4? then 1 else 0 }

  /** CompressionEngine::decompress; None stands for the CompressionError or for undefined behaviour. */
  function Expanded(tag: byte, blob: seq<byte>, size: nat): Option<seq<byte>> {
    if tag == 0 then (if |blob| == size then Some(blob) else None)
    else match Lz4Format.Decode(blob, [], size)
         case Done(bytes) => if |bytes| == size then Some(bytes) else None
         case _ => None
  }

  /** What a slot says: whose page it is, how many rows, and their bytes. */
  datatype Image = Image(id: u32, rowCount: u32, data: seq<byte>)

  /** page_file_offset, counted from the start of the data area. */
  function SlotOffset(pid: nat): nat { pid * SLOT_SIZE }

  function HeaderBytes(id: u32, blobSize: u32, size: u32, rowCount: u32, tag: byte): (h: seq<byte>)
    ensures |h| == HEADER_SIZE
  {
    Le32(id) + (Le32(blobSize) + (Le32(size) + (Le32(rowCount) + [tag, 0, 0, 0])))
  }

  /** read_page_raw and decompress at a file position. */
  function Load(file: seq<byte>, at: nat): Option<Image> {
    if at + HEADER_SIZE > |file| then None else
    var blobSize := ReadLe32(file[at + 4..]);
    if at + HEADER_SIZE + blobSize > |file| then None else
    ParseSlot(file[at..at + HEADER_SIZE + blobSize])
  }

  function ParseSlot(b: seq<byte>): Option<Image>
    requires |b| >= HEADER_SIZE
  {
    match Expanded(b[16], b[HEADER_SIZE..], ReadLe32(b[8..]))
    case None => None
    case Some(data) => Some(Image(ReadLe32(b), ReadLe32(b[12..]), data))
  }

  /** pwrite: overwrites in place and extends the file, zero-filled, when needed. */
  function PWrite(file: seq<byte>, at: nat, bytes: seq<byte>): (r: seq<byte>)
    ensures |r| == if at + |bytes| <= |file| then |file| else at + |bytes|
    ensures r[at..at + |bytes|] == bytes
    ensures forall i :: 0 <= i < |file| && !(at <= i < at + |bytes|) ==> r[i] == file[i]
  {
    var padded := if |file| < at then file + seq(at - |file|, _ => 0) else file;
    padded[..at] + bytes + (if at + |bytes| <= |file| then file[at + |bytes|..] else [])
  }

  lemma ReadsHeader(id: u32, blobSize: u32, size: u32, rowCount: u32, tag: byte, blob: seq<byte>)
    ensures var b := HeaderBytes(id, blobSize, size, rowCount, tag) + blob;
            ReadLe32(b) == id && ReadLe32(b[4..]) == blobSize && ReadLe32(b[8..]) == size
            && ReadLe32(b[12..]) == rowCount && b[16] == tag && b[HEADER_SIZE..] == blob
  {
    hide Le32, ReadLe32;
    var pad: seq<byte> := [tag, 0, 0, 0];
    var b := HeaderBytes(id, blobSize, size, rowCount, tag) + blob;
    var t3 := Le32(rowCount) + (pad + blob);
    var t2 := Le32(size) + t3;
    var t1 := Le32(blobSize) + t2;
    assert b == Le32(id) + t1;
    assert b[4..] == t1;
    assert b[8..] == t2;
    assert b[12..] == t3;
    assert b[16..] == pad + blob && b[16] == b[16..][0];
    ReadLe32Of(id, t1);
    ReadLe32Of(blobSize, t2);
    ReadLe32Of(size, t3);
    ReadLe32Of(rowCount, pad + blob);
  }

  /** A slot written is the slot read. */
  lemma LoadsWritten(file: seq<byte>, at: nat, id: u32, rowCount: u32, tag: byte, data: seq<byte>, blob: seq<byte>)
    requires |blob| < 0x1_0000_0000 && |data| < 0x1_0000_0000
    requires Expanded(tag, blob, |data|) == Some(data)
    ensures var bytes := HeaderBytes(id, |blob|, |data|, rowCount, tag) + blob;
            Load(PWrite(file, at, bytes), at) == Some(Image(id, rowCount, data))
  {
    hide Expanded, HeaderBytes, PWrite, ReadLe32;
    var bytes := HeaderBytes(id, |blob|, |data|, rowCount, tag) + blob;
    var f := PWrite(file, at, bytes);
    ReadsHeader(id, |blob|, |data|, rowCount, tag, blob);
    WordInside(f, at, bytes, 4);
  }

  lemma WordInside(f: seq<byte>, at: nat, bytes: seq<byte>, i: nat)
    requires at + |bytes| <= |f| && f[at..at + |bytes|] == bytes && i + 4 <= |bytes|
    ensures ReadLe32(f[at + i..]) == ReadLe32(bytes[i..])
  {
    forall k | 0 <= k < 4 ensures f[at + i..][k] == bytes[i..][k] {
      assert bytes[i + k] == f[at..at + |bytes|][i + k];
    }
  }

  /** The file bytes a readable slot occupies. */
  function Extent(file: seq<byte>, at: nat): nat
    requires at + HEADER_SIZE <= |file|
  {
    HEADER_SIZE + ReadLe32(file[at + 4..])
  }

  /** Slots whose bytes are untouched still read the same. */
  lemma LoadAgrees(f: seq<byte>, g: seq<byte>, at: nat)
    requires Load(f, at).Some? && at + Extent(f, at) <= |g|
    requires g[at..at + Extent(f, at)] == f[at..at + Extent(f, at)]
    ensures Load(g, at) == Load(f, at) && Extent(g, at) == Extent(f, at)
  {
    hide ParseSlot, ReadLe32;
    var bytes := f[at..at + Extent(f, at)];
    WordInside(f, at, bytes, 4);
    WordInside(g, at, bytes, 4);
  }

  /** A page's rows are what its slot holds, within the slot. */
  ghost predicate OnDisk(file: seq<byte>, pid: nat, rows: seq<Row>, schema: Schema) {
    && AllStorable(rows, schema)
    && pid < 0x1_0000_0000 && |rows| < 0x1_0000_0000
    && Load(file, SlotOffset(pid)) == Some(Image(pid, |rows|, EncodeRows(rows)))
    && Extent(file, SlotOffset(pid)) <= SLOT_SIZE
  }

  /** The bytes written for a page. */
  function SlotBytes(pid: u32, rowCount: u32, data: seq<byte>, c: Compression, blob: seq<byte>): seq<byte>
    requires |data| < 0x1_0000_0000 && |blob| < 0x1_0000_0000
  {
    HeaderBytes(pid, |blob|, |data|, rowCount, Tag(c)) + blob
  }

  /** Writing one page's slot: that page is stored, and no other page's slot changes. */
  lemma WritesSlot(file: seq<byte>, pid: nat, rows: seq<Row>, schema: Schema, c: Compression, blob: seq<byte>)
    requires AllStorable(rows, schema) && pid < 0x1_0000_0000 && |rows| < 0x1_0000_0000 && |EncodeRows(rows)| < 0x1_0000_0000
    requires |blob| <= PAGE_SIZE && Expanded(Tag(c), blob, |EncodeRows(rows)|) == Some(EncodeRows(rows))
    ensures var f := PWrite(file, SlotOffset(pid), SlotBytes(pid, |rows|, EncodeRows(rows), c, blob));
            && OnDisk(f, pid, rows, schema)
            && forall other, rs :: other != pid && OnDisk(file, other, rs, schema) ==> OnDisk(f, other, rs, schema)
  {
    hide Expanded, HeaderBytes, PWrite, Load, EncodeRows, ReadLe32, AllTyped, SlotOffset, Tag;
    var at, data := SlotOffset(pid), EncodeRows(rows);
    var bytes := SlotBytes(pid, |rows|, data, c, blob);
    var f := PWrite(file, at, bytes);
    LoadsWritten(file, at, pid, |rows|, Tag(c), data, blob);
    ReadsHeader(pid, |blob|, |data|, |rows|, Tag(c), blob);
    WordInside(f, at, bytes, 4);
    forall other, rs | other != pid && OnDisk(file, other, rs, schema) ensures OnDisk(f, other, rs, schema) {
      SlotsApart(file, f, pid, other, bytes);
    }
  }

  lemma SlotsApart(file: seq<byte>, f: seq<byte>, pid: nat, other: nat, bytes: seq<byte>)
    requires pid != other && |bytes| <= SLOT_SIZE && f == PWrite(file, SlotOffset(pid), bytes)
    requires Load(file, SlotOffset(other)).Some? && Extent(file, SlotOffset(other)) <= SLOT_SIZE
    ensures Load(f, SlotOffset(other)) == Load(file, SlotOffset(other))
    ensures SlotOffset(other) + HEADER_SIZE <= |f| && Extent(f, SlotOffset(other)) == Extent(file, SlotOffset(other))
  {
    hide PWrite, ParseSlot, ReadLe32;
    var at := SlotOffset(other);
    assert at + SLOT_SIZE <= SlotOffset(pid) || SlotOffset(pid) + SLOT_SIZE <= at;
    assert at + Extent(file, at) <= |file| <= |f|;
    assert f[at..at + Extent(file, at)] == file[at..at + Extent(file, at)];
    LoadAgrees(file, f, at);
  }

  /** A page write leaves the rest of every file alone exactly when its bytes fit the slot. */
  lemma SlotSafety(pid: nat, bytes: seq<byte>)
    ensures (forall file, i :: 0 <= i < |file| && !(SlotOffset(pid) <= i < SlotOffset(pid + 1))
                               ==> PWrite(file, SlotOffset(pid), bytes)[i] == file[i])
        <==> |bytes| <= SLOT_SIZE
  {
    hide PWrite;
    var at := SlotOffset(pid);
    if |bytes| > SLOT_SIZE {
      var hit := at + SLOT_SIZE;
      var file: seq<byte> := seq(hit + 1, _ => if bytes[SLOT_SIZE] == 0 then 1 else 0);
      var f := PWrite(file, at, bytes);
      assert f[hit] == f[at..at + |bytes|][SLOT_SIZE] != file[hit];
    }
  }

  /** The length of a page's payload, a function of the page. */
  function BlobSize(c: Compression, data: seq<byte>): nat {
    if c.LZ4? then Lz4Codec.PlannedSize(data) else |data|
  }

  /** CompressionEngine::compress: the payload expands back to the page. */
  method CompressPage(c: Compression, data: seq<byte>) returns (blob: seq<byte>)
    requires |data| <= PAGE_SIZE
    ensures Expanded(Tag(c), blob, |data|) == Some(data)
    ensures |blob| == BlobSize(c, data) <= |data| + |data| / 255 + 2
    ensures c.None_? ==> blob == data
  {
    hide Lz4Format.Decode, Lz4Codec.Plan, Lz4Codec.PlannedSize;
    if c.None_? {
      return data;
    }
    var dst := new byte[Lz4Codec.CompressBound(|data|)](_ => 0);
    var room, n, last := Lz4Codec.Compress(data, dst);
    blob := dst[..n];
    Lz4Codec.RoundTrip(data, blob, last);
  }

  /** CompressionEngine::decompress. */
  method ExpandPage(tag: byte, blob: seq<byte>, size: nat) returns (data: Option<seq<byte>>)
    ensures data == Expanded(tag, blob, size)
  {
    hide Lz4Format.Decode;
    if tag == 0 {
      return if |blob| == size then Some(blob) else None;
    }
    var dst := new byte[size](_ => 0);
    var end, n := Lz4Codec.Decompress(blob, dst);
    data := if end.Good? && n == size then Some(dst[..n]) else None;
  }

  /** read_page_raw, then decompress. */
  method ReadSlot(file: seq<byte>, pid: nat) returns (image: Option<Image>)
    ensures image == Load(file, SlotOffset(pid))
  {
    hide Expanded, ReadLe32;
    var at := SlotOffset(pid);
    if at + HEADER_SIZE > |file| {
      return None;
    }
    var blobSize := ReadLe32(file[at + 4..]);
    if at + HEADER_SIZE + blobSize > |file| {
      return None;
    }
    var b := file[at..at + HEADER_SIZE + blobSize];
    var data := ExpandPage(b[16], b[HEADER_SIZE..], ReadLe32(b[8..]));
    if data.None? {
      return None;
    }
    image := Some(Image(ReadLe32(b), ReadLe32(b[12..]), data.value));
  }

  /** One row of a string that counts up fills a page and defies compression. */
  function DenseRow(): Row {
    Row(0xFFFF_FFFF, [Str(seq(8182, k requires 0 <= k < 8182 => Lz4Limits.Dense(10 + k)))])
  }

  /** There is a full page that LZ4 makes larger than its slot. */
  lemma DensePage()
    ensures Storable(DenseRow(), [FieldDef("name", STRING)]) && RowSize(DenseRow()) == PAGE_SIZE
    ensures BlobSize(LZ4, EncodeRow(DenseRow())) > PAGE_SIZE
  {
    hide Lz4Limits.Dense, Lz4Limits.NoRepeats, Lz4Codec.PlannedSize;
    var r := DenseRow();
    assert r.fields[1..] == [];
    assert EncodeFields(r.fields) == Le16(8182) + r.fields[0].str;
    DenseStart();
    var data := EncodeRow(r);
    forall k | 0 <= k < 8192 ensures data[k] == Lz4Limits.Dense(k) {
      if k >= 10 { assert data[k] == r.fields[0].str[k - 10]; }
    }
    Lz4Limits.DenseIsDense(data);
    Lz4Limits.LiteralsOutgrow(data);
  }

  lemma DenseStart()
    ensures Le32(8192) == [0, 32, 0, 0] && Le32(0xFFFF_FFFF) == [255, 255, 255, 255] && Le16(8182) == [246, 31]
    ensures forall k :: 0 <= k < 10 ==> Lz4Limits.Dense(k) == [0, 32, 0, 0, 255, 255, 255, 255, 246, 31][k]
  {}
}
