/** The write-ahead log of src/wal.cpp: framed records, buffered appends, a parser
    that stops at the first record it cannot trust. */
module Wal {
  import opened Bytes
  import Crc

  const HEADER_SIZE := 32
  const BUFFER_SIZE := 256 * 1024
  const INSERT: byte := 0
  const DELETE: byte := 4

  datatype Record = Record(kind: byte, rowId: u32, pageId: u32, rowSlot: u32, rowData: seq<byte>)

  /** The record length fits its 32-bit field. */
  predicate Framed(r: Record) { |r.rowData| + 17 < 0x1_0000_0000 }

  /** [record_len:4][type:1][row_id:4][page_id:4][row_slot:4][row_data] */
  function Body(r: Record): (b: seq<byte>)
    requires Framed(r)
    ensures |b| == 17 + |r.rowData|
  {
    Le32(17 + |r.rowData|) + Payload(r)
  }

  function Payload(r: Record): seq<byte> {
    [r.kind] + (Le32(r.rowId) + (Le32(r.pageId) + (Le32(r.rowSlot) + r.rowData)))
  }

  /** [crc:4][body] */
  function Encode(r: Record): (b: seq<byte>)
    requires Framed(r)
    ensures |b| == 21 + |r.rowData|
  {
    Le32(Crc.Checksum(Body(r))) + Body(r)
  }

  predicate AllFramed(rs: seq<Record>) { forall i :: 0 <= i < |rs| ==> Framed(rs[i]) }

  function EncodeLog(rs: seq<Record>): seq<byte>
    requires AllFramed(rs)
  {
    if rs == [] then [] else Encode(rs[0]) + EncodeLog(rs[1..])
  }

  /** The record at the front of `b`, if it is whole and its checksum holds. */
  function ParseOne(b: seq<byte>): (r: Option<Record>)
    ensures r.Some? ==> |b| >= 21 + |r.value.rowData| && Framed(r.value)
  {
    if |b| < 8 then None else
    var length := ReadLe32(b[4..]);
    if length < 17 || 4 + length > |b| then None else
    if Crc.Checksum(b[4..4 + length]) != ReadLe32(b) then None else
    Some(ReadPayload(b[8..4 + length]))
  }

  function ReadPayload(b: seq<byte>): (r: Record)
    requires |b| >= 13
    ensures |r.rowData| == |b| - 13
  {
    Record(b[0], ReadLe32(b[1..]), ReadLe32(b[5..]), ReadLe32(b[9..]), b[13..])
  }

  /** What replay returns for the bytes after the header. */
  function Parse(b: seq<byte>): seq<Record>
    decreases |b|
  {
    var r := ParseOne(b);
    if r.None? then [] else [r.value] + Parse(b[21 + |r.value.rowData|..])
  }

  lemma ReadsPayload(r: Record)
    ensures |Payload(r)| >= 13 && ReadPayload(Payload(r)) == r
  {
    hide Le32, ReadLe32;
    var p := Payload(r);
    assert p[1..] == Le32(r.rowId) + (Le32(r.pageId) + (Le32(r.rowSlot) + r.rowData));
    assert p[5..] == Le32(r.pageId) + (Le32(r.rowSlot) + r.rowData);
    assert p[9..] == Le32(r.rowSlot) + r.rowData;
    ReadLe32Of(r.rowId, Le32(r.pageId) + (Le32(r.rowSlot) + r.rowData));
    ReadLe32Of(r.pageId, Le32(r.rowSlot) + r.rowData);
    ReadLe32Of(r.rowSlot, r.rowData);
  }

  /** The length field of an encoded record survives whatever follows it. */
  lemma LengthField(r: Record, b: seq<byte>)
    requires Framed(r) && |b| >= 8 && b[4..8] == Le32(17 + |r.rowData|)
    ensures ReadLe32(b[4..]) == 17 + |r.rowData|
  {
    hide Le32, ReadLe32;
    assert b[4..] == b[4..8] + b[8..];
    ReadLe32Of(17 + |r.rowData|, b[8..]);
  }

  lemma ParsesRecord(r: Record, tail: seq<byte>)
    requires Framed(r)
    ensures ParseOne(Encode(r) + tail) == Some(r)
    ensures Parse(Encode(r) + tail) == [r] + Parse(tail)
  {
    hide Le32, ReadLe32, Crc.Checksum, Payload, ReadPayload;
    var b, length := Encode(r) + tail, 17 + |r.rowData|;
    var crc := Le32(Crc.Checksum(Body(r)));
    assert b == crc + (Body(r) + tail);
    assert b[4..4 + length] == Body(r);
    assert b[4..8] == Body(r)[..4] == Le32(length);
    LengthField(r, b);
    ReadLe32Of(Crc.Checksum(Body(r)), Body(r) + tail);
    assert b[8..4 + length] == Payload(r);
    ReadsPayload(r);
    assert b[21 + |r.rowData|..] == tail;
  }

  lemma ParsesNothing(b: seq<byte>)
    requires ParseOne(b) == None
    ensures Parse(b) == []
  {}

  /** Whole records first, then whatever the rest parses to. */
  lemma {:induction false} ParsesLog(rs: seq<Record>, tail: seq<byte>)
    requires AllFramed(rs)
    ensures Parse(EncodeLog(rs) + tail) == rs + Parse(tail)
  {
    hide Encode, Parse, ParseOne;
    if rs == [] {
      assert EncodeLog(rs) + tail == tail;
    } else {
      var more := EncodeLog(rs[1..]) + tail;
      assert EncodeLog(rs) + tail == Encode(rs[0]) + more;
      ParsesRecord(rs[0], more);
      ParsesLog(rs[1..], tail);
    }
  }

  /** A record cut anywhere short of its end is not a record. */
  lemma TornRecord(r: Record, k: nat)
    requires Framed(r) && k < |Encode(r)|
    ensures ParseOne(Encode(r)[..k]) == None
  {
    hide Le32, ReadLe32, Crc.Checksum, Payload, ReadPayload;
    var b := Encode(r)[..k];
    if k >= 8 {
      assert b[4..8] == Body(r)[..4] == Le32(17 + |r.rowData|);
      LengthField(r, b);
    }
  }

  lemma {:induction false} EncodeLogConcat(a: seq<Record>, b: seq<Record>)
    requires AllFramed(a) && AllFramed(b)
    ensures EncodeLog(a + b) == EncodeLog(a) + EncodeLog(b)
  {
    hide Encode;
    if a == [] {
      assert a + b == b;
    } else {
      assert (a + b)[1..] == a[1..] + b;
      EncodeLogConcat(a[1..], b);
    }
  }

  /** How many records lie wholly within the first `k` bytes. */
  function WholeRecords(rs: seq<Record>, k: nat): (n: nat)
    requires AllFramed(rs)
    ensures n <= |rs|
  {
    if rs == [] || |Encode(rs[0])| > k then 0 else 1 + WholeRecords(rs[1..], k - |Encode(rs[0])|)
  }

  /** Cutting a log at any byte leaves exactly its wholly contained records. */
  lemma {:induction false} TornLog(rs: seq<Record>, k: nat)
    requires AllFramed(rs) && k <= |EncodeLog(rs)|
    ensures Parse(EncodeLog(rs)[..k]) == rs[..WholeRecords(rs, k)]
  {
    hide Encode, Parse, ParseOne;
    if rs == [] {
      EmptyLog();
    } else {
      var n := |Encode(rs[0])|;
      if n > k {
        assert EncodeLog(rs)[..k] == Encode(rs[0])[..k];
        TornRecord(rs[0], k);
        ParsesNothing(Encode(rs[0])[..k]);
      } else {
        var rest := EncodeLog(rs[1..])[..k - n];
        assert EncodeLog(rs)[..k] == Encode(rs[0]) + rest;
        ParsesRecord(rs[0], rest);
        TornLog(rs[1..], k - n);
        assert rs[..WholeRecords(rs, k)] == [rs[0]] + rs[1..][..WholeRecords(rs[1..], k - n)];
      }
    }
  }

  lemma EmptyLog()
    ensures Parse([]) == []
  {}

  /** A cut at or past the end of a prefix keeps every record of that prefix. */
  lemma {:induction false} CutKeepsPrefix(rs: seq<Record>, n: nat, k: nat)
    requires AllFramed(rs) && n <= |rs| && |EncodeLog(rs[..n])| <= k
    ensures n <= WholeRecords(rs, k)
  {
    hide Encode;
    if n > 0 {
      assert rs[..n][1..] == rs[1..][..n - 1];
      CutKeepsPrefix(rs[1..], n - 1, k - |Encode(rs[0])|);
    }
  }

  /** Those records and no more lie within the cut. */
  lemma {:induction false} WholeExactly(rs: seq<Record>, k: nat)
    requires AllFramed(rs)
    ensures var n := WholeRecords(rs, k); |EncodeLog(rs[..n])| <= k && (n < |rs| ==> k < |EncodeLog(rs[..n + 1])|)
  {
    hide Encode;
    if rs != [] {
      var c, n := |Encode(rs[0])|, WholeRecords(rs, k);
      assert rs[..1] == [rs[0]] && EncodeLog([rs[0]]) == Encode(rs[0]) + EncodeLog([]);
      if c <= k {
        WholeExactly(rs[1..], k - c);
        assert rs[..n][0] == rs[0] && rs[..n][1..] == rs[1..][..n - 1];
        if n < |rs| { assert rs[..n + 1][0] == rs[0] && rs[..n + 1][1..] == rs[1..][..n]; }
      }
    }
  }

  /** Byte `i` of `b` replaced by another value. */
  predicate Differs(b: seq<byte>, c: seq<byte>, i: nat) {
    i < |b| && |c| == |b| && c[i] != b[i] && c == b[i := c[i]]
  }

  /** One damaged byte outside the length field: the record is refused. */
  lemma DamagedRecord(r: Record, damaged: seq<byte>, i: nat, tail: seq<byte>)
    requires Framed(r) && Differs(Encode(r), damaged, i) && !(4 <= i < 8)
    ensures ParseOne(damaged + tail) == None
  {
    hide Le32, ReadLe32, Crc.Checksum, Payload, ReadPayload;
    var b, length, body := damaged + tail, 17 + |r.rowData|, Body(r);
    var crc := Le32(Crc.Checksum(body));
    assert b[4..8] == Encode(r)[4..8] == body[..4] == Le32(length);
    LengthField(r, b);
    assert b[4..4 + length] == damaged[4..];
    assert damaged == damaged[..4] + damaged[4..];
    assert b == damaged[..4] + (damaged[4..] + tail);
    if i < 4 {
      assert damaged[4..] == body && damaged[..4] != crc;
      WordDiffers(damaged[..4], damaged[4..] + tail, Crc.Checksum(body));
    } else {
      assert damaged[..4] == crc;
      ReadLe32Of(Crc.Checksum(body), damaged[4..] + tail);
      Crc.DetectsChange(body[..i - 4], body[i - 4], damaged[i], body[i - 3..]);
      assert body == body[..i - 4] + [body[i - 4]] + body[i - 3..];
      assert damaged[4..] == body[..i - 4] + [damaged[i]] + body[i - 3..];
    }
  }

  lemma WordDiffers(w: seq<byte>, tail: seq<byte>, v: u32)
    requires |w| == 4 && w != Le32(v)
    ensures ReadLe32(w + tail) != v
  {
    hide Le32, ReadLe32;
    Le32Read(w + tail);
    assert (w + tail)[..4] == w;
  }

  /** Replay stops at the damaged record with every earlier record intact, whatever follows. */
  lemma DamageStopsReplay(before: seq<Record>, r: Record, damaged: seq<byte>, i: nat, tail: seq<byte>)
    requires AllFramed(before) && Framed(r) && Differs(Encode(r), damaged, i) && !(4 <= i < 8)
    ensures Parse(EncodeLog(before) + (damaged + tail)) == before
  {
    hide Encode, Parse, ParseOne;
    ParsesLog(before, damaged + tail);
    DamagedRecord(r, damaged, i, tail);
    ParsesNothing(damaged + tail);
  }

  /** The 32 bytes a new log file starts with. */
  function Header(): (h: seq<byte>)
    ensures |h| == HEADER_SIZE
  {
    var start := Le64(0x57414C31) + Le32(1);
    start + (Le32(8192) + (Le32(Crc.Checksum(start)) + seq(12, _ => 0)))
  }

  /** What replay makes of a whole log file. */
  function ReplayFile(file: seq<byte>): seq<Record> {
    if |file| < HEADER_SIZE then [] else Parse(file[HEADER_SIZE..])
  }

  /** A log file and the records appended to it since it was opened or cleared.
      `base` is the file found at open; `durable` counts records known to be synced, `syncs`
      the calls of fsync. */
  class Log {
    const table: seq<bv32>
    var file: seq<byte>
    var writeBuf: seq<byte>
    var currentOffset: nat
    var bufDirty: bool
    ghost var synced: nat
    ghost var base: seq<byte>
    ghost var records: seq<Record>
    ghost var durable: nat
    ghost var syncs: nat

    ghost predicate Valid()
      reads this
    {
      && Crc.IsTable(table)
      && currentOffset == |file|
      && AllFramed(records) && durable <= |records|
      && file + writeBuf == base + EncodeLog(records)
      && |base| + |EncodeLog(records[..durable])| <= synced <= |file|
      && (!bufDirty ==> synced == |file|)
    }

    /** WAL::open on the bytes found on disk: a missing or empty file gets a synced header. */
    constructor (found: seq<byte>)
      ensures Valid() && records == [] && durable == 0 && writeBuf == [] && synced == |file|
      ensures file == base == if found == [] then Header() else found
    {
      var t := Crc.InitTable();
      table := t[..];
      var bytes := if found == [] then Header() else found;
      file, writeBuf, currentOffset, bufDirty := bytes, [], |bytes|, false;
      synced, base, records, durable, syncs := |bytes|, bytes, [], 0, 0;
    }

    method FlushWriteBuffer()
      requires Valid()
      modifies this`file, this`writeBuf, this`currentOffset, this`bufDirty
      ensures Valid() && writeBuf == [] && file == old(file + writeBuf)
    {
      hide EncodeLog, Crc.IsTable;
      if writeBuf == [] {
        return;
      }
      file := file + writeBuf;
      currentOffset := currentOffset + |writeBuf|;
      writeBuf := [];
      bufDirty := true;
    }

    method FsyncIfDirty()
      requires Valid() && writeBuf == []
      modifies this`bufDirty, this`synced, this`durable, this`syncs
      ensures Valid() && synced == |file| && durable == |records| && syncs <= old(syncs) + 1
    {
      hide EncodeLog, Crc.IsTable;
      if bufDirty {
        synced, syncs := |file|, syncs + 1;
        bufDirty := false;
      }
      durable := |records|;
      assert records[..durable] == records;
    }

    /** write_record: frames one record into the buffer and returns its position in the file. */
    method WriteRecord(r: Record) returns (offset: nat)
      requires Valid() && Framed(r)
      modifies this`file, this`writeBuf, this`currentOffset, this`bufDirty, this`records
      ensures Valid() && records == old(records) + [r]
      ensures offset == old(|file| + |writeBuf|)
      ensures file + writeBuf == old(file + writeBuf) + Encode(r)
    {
      hide EncodeLog, Crc.IsTable, Crc.Checksum, Crc.Register, Le32, Payload;
      var size := 4 + 17 + |r.rowData|;
      if |writeBuf| + size > BUFFER_SIZE {
        FlushWriteBuffer();
      }
      offset := currentOffset + |writeBuf|;
      var body := Body(r);
      var crc := ChecksumOf(body);
      LogGrows(records, r);
      ghost var before := file + writeBuf;
      writeBuf := writeBuf + (Le32(crc) + body);
      assert file + writeBuf == before + Encode(r);
      assert (records + [r])[..durable] == records[..durable];
      records := records + [r];
    }

    method ChecksumOf(body: seq<byte>) returns (crc: u32)
      requires Crc.IsTable(table)
      ensures crc == Crc.Checksum(body)
    {
      hide Crc.IsTable;
      var bits := Crc.Compute(table, Crc.SEED, body);
      crc := bits as int;
    }

    method Sync()
      requires Valid()
      modifies this`file, this`writeBuf, this`currentOffset, this`bufDirty, this`synced, this`durable, this`syncs
      ensures Valid() && durable == |records| && writeBuf == [] && synced == |file| && file == old(file + writeBuf) && syncs <= old(syncs) + 1
    {
      hide EncodeLog, Crc.IsTable;
      FlushWriteBuffer();
      FsyncIfDirty();
    }

    /** replay: everything buffered is written first, then the file is parsed. */
    method Replay() returns (rs: seq<Record>)
      requires Valid()
      modifies this`file, this`writeBuf, this`currentOffset, this`bufDirty, this`synced, this`durable, this`syncs
      ensures Valid() && writeBuf == [] && file == old(file + writeBuf) && synced == |file| && durable == |records|
      ensures rs == ReplayFile(file)
    {
      hide EncodeLog, Crc.IsTable, Parse;
      Sync();
      rs := [];
      if |file| >= HEADER_SIZE {
        rs := ParseAll(file[HEADER_SIZE..]);
      }
    }

    method ParseAll(data: seq<byte>) returns (rs: seq<Record>)
      requires Crc.IsTable(table)
      ensures rs == Parse(data)
    {
      hide Crc.IsTable, ParseOne, AllFramed, Framed;
      var pos: nat := 0;
      rs := [];
      assert data[0..] == data;
      while pos < |data|
        invariant pos <= |data|
        invariant Parse(data) == rs + Parse(data[pos..])
        decreases |data| - pos
      {
        ghost var rest := data[pos..];
        var ok, r := ReadRecord(data[pos..]);
        if !ok {
          ParsesNothing(rest);
          return;
        }
        rs := rs + [r];
        pos := pos + (21 + |r.rowData|);
        assert rest[21 + |r.rowData|..] == data[pos..];
      }
      EmptyLog();
    }

    /** One round of the parse loop. */
    method ReadRecord(b: seq<byte>) returns (ok: bool, r: Record)
      requires Crc.IsTable(table)
      ensures ParseOne(b) == if ok then Some(r) else None
    {
      hide Crc.IsTable, Crc.Checksum, Crc.Register, ReadLe32;
      ok, r := false, Record(0, 0, 0, 0, []);
      if |b| < 8 {
        return;
      }
      var length := ReadLe32(b[4..]);
      if length < 17 || 4 + length > |b| {
        return;
      }
      var crc := ChecksumOf(b[4..4 + length]);
      if crc != ReadLe32(b) {
        return;
      }
      ok, r := true, ReadPayload(b[8..4 + length]);
    }

    /** clear: unlink and reopen, leaving a synced header and no records. */
    method Clear()
      requires Valid()
      modifies this
      ensures Valid() && records == [] && durable == 0 && writeBuf == [] && file == base == Header() && synced == |file|
    {
      hide Crc.IsTable, Crc.Checksum, Header;
      file, writeBuf, currentOffset, bufDirty := Header(), [], HEADER_SIZE, false;
      synced, base, records, durable := HEADER_SIZE, Header(), [], 0;
    }
  }

  lemma LogGrows(rs: seq<Record>, r: Record)
    requires AllFramed(rs) && Framed(r)
    ensures EncodeLog(rs + [r]) == EncodeLog(rs) + Encode(r)
  {
    hide Encode;
    EncodeLogConcat(rs, [r]);
    assert EncodeLog([r]) == Encode(r) by { assert [r][1..] == []; }
  }

  /** A crash that keeps any bytes at or past the last sync of a clean log: the
      file still replays to a prefix of the records, every durable one included. */
  lemma CrashKeepsDurable(records: seq<Record>, durable: nat, file: seq<byte>, rest: seq<byte>, synced: nat, cut: nat)
    requires AllFramed(records) && durable <= |records|
    requires file + rest == Header() + EncodeLog(records)
    requires HEADER_SIZE + |EncodeLog(records[..durable])| <= synced <= cut <= |file|
    ensures var n := WholeRecords(records, cut - HEADER_SIZE);
            durable <= n <= |records| && ReplayFile(file[..cut]) == records[..n]
  {
    hide EncodeLog, Parse;
    var k := cut - HEADER_SIZE;
    assert |EncodeLog(records)| == |file| + |rest| - HEADER_SIZE >= k;
    assert file[..cut] == (file + rest)[..cut] == Header() + EncodeLog(records)[..k];
    assert file[..cut][HEADER_SIZE..] == EncodeLog(records)[..k];
    TornLog(records, k);
    CutKeepsPrefix(records, durable, k);
  }

  /** A cut leaves a whole log exactly when it falls at the end of a record. */
  lemma CutAtRecord(all: seq<Record>, n: nat, bytes: seq<byte>, cut: nat)
    requires AllFramed(all) && n <= |all| && bytes == Header() + EncodeLog(all) && HEADER_SIZE <= cut <= |bytes|
    ensures bytes[..cut] == Header() + EncodeLog(all[..n]) <==> cut == HEADER_SIZE + |EncodeLog(all[..n])|
  {
    hide EncodeLog, Header;
    assert all == all[..n] + all[n..];
    EncodeLogConcat(all[..n], all[n..]);
  }

  /** Records appended to a log without a torn tail are replayed after it. */
  lemma CleanTailExtends(rs: seq<Record>, more: seq<Record>)
    requires AllFramed(rs) && AllFramed(more)
    ensures ReplayFile(Header() + EncodeLog(rs) + EncodeLog(more)) == rs + more
  {
    hide EncodeLog, Parse, Header;
    var file := Header() + EncodeLog(rs) + EncodeLog(more);
    assert file[HEADER_SIZE..] == EncodeLog(rs) + EncodeLog(more);
    ParsesLog(rs, EncodeLog(more));
    assert EncodeLog(more) + [] == EncodeLog(more);
    ParsesLog(more, []);
    EmptyLog();
  }

  /** Open appends at the end of the file even when the last record is torn. As long as
      the file stays shorter than that record claims to be, replay finds nothing of what is
      appended after it. */
  lemma TornTailHides(rs: seq<Record>, torn: Record, kept: nat, more: seq<byte>)
    requires AllFramed(rs) && Framed(torn)
    requires 8 <= kept && kept + |more| < |Encode(torn)|
    ensures ReplayFile(Header() + EncodeLog(rs) + (Encode(torn)[..kept] + more)) == rs
  {
    hide EncodeLog, Parse, Header, Le32, ReadLe32, Crc.Checksum, Payload;
    var tail := Encode(torn)[..kept] + more;
    var file := Header() + EncodeLog(rs) + tail;
    assert file[HEADER_SIZE..] == EncodeLog(rs) + tail;
    assert tail[4..8] == Encode(torn)[4..8] == Body(torn)[..4] == Le32(17 + |torn.rowData|);
    LengthField(torn, tail);
    ParsesLog(rs, tail);
    ParsesNothing(tail);
  }

  lemma WritesPayload(b: seq<byte>)
    requires |b| >= 13
    ensures Payload(ReadPayload(b)) == b
  {
    hide Le32, ReadLe32;
    Le32Read(b[1..]);
    Le32Read(b[5..]);
    Le32Read(b[9..]);
    assert b == [b[0]] + (b[1..][..4] + (b[5..][..4] + (b[9..][..4] + b[13..])));
  }

  /** Only the encoding of a record parses as that record. */
  lemma ParsedIsEncoded(b: seq<byte>, r: Record)
    requires ParseOne(b) == Some(r)
    ensures |Encode(r)| <= |b| && b[..|Encode(r)|] == Encode(r)
  {
    hide Le32, ReadLe32, Crc.Checksum, Payload, ReadPayload;
    var length := ReadLe32(b[4..]);
    WritesPayload(b[8..4 + length]);
    Le32Read(b);
    Le32Read(b[4..]);
    assert b[4..4 + length] == b[4..][..4] + b[8..4 + length];
    assert b[4..4 + length] == Body(r);
    assert b[..4 + length] == b[..4] + b[4..4 + length];
  }

  /** A delete that the given leading bytes do not leave as it is. */
  function Telling(tail: seq<byte>): Record {
    if |tail| >= 10 then Record(DELETE, (tail[9] as int + 1) % 256, 0, 0, []) else Record(DELETE, 0, 0, 1, [])
  }

  /** If a record is parsed from the front although other bytes lead it, it repeats itself. */
  lemma ParsesShifted(tail: seq<byte>, r: Record, i: nat)
    requires Framed(r) && ParseOne(tail + Encode(r)) == Some(r) && |tail| <= i < |Encode(r)|
    ensures Encode(r)[i] == Encode(r)[i - |tail|]
  {
    hide Encode, ParseOne;
    var e, b := Encode(r), tail + Encode(r);
    ParsedIsEncoded(b, r);
    assert e[i] == b[..|e|][i] == b[i] == e[i - |tail|];
  }

  lemma ParsesToOne(b: seq<byte>, r: Record)
    requires Parse(b) == [r]
    ensures ParseOne(b) == Some(r)
  {
    hide ParseOne;
    assert Parse(b)[0] == r;
  }

  /** The fields of a delete in its encoding, from the kind on. */
  lemma DeleteBytes(r: Record)
    requires r.kind == DELETE && r.rowData == []
    ensures |Encode(r)| == 21 && Encode(r)[8] == DELETE
    ensures Encode(r)[9..13] == Le32(r.rowId) && Encode(r)[13..17] == Le32(r.pageId) && Encode(r)[17..21] == Le32(r.rowSlot)
  {
    hide Crc.Checksum, Le32;
    assert Encode(r)[8..] == Payload(r);
    assert Payload(r)[1..5] == Le32(r.rowId) && Payload(r)[5..9] == Le32(r.pageId) && Payload(r)[9..13] == Le32(r.rowSlot);
  }

  lemma SmallWord(v: nat)
    requires v < 256
    ensures Le32(v) == [v, 0, 0, 0]
  {}

  /** Whatever bytes an earlier crash left after the last record, there is a delete that
      replay loses when it is logged behind them. */
  lemma TornTailLoses(tail: seq<byte>)
    requires tail != []
    ensures Framed(Telling(tail)) && Parse(tail + Encode(Telling(tail))) != [Telling(tail)]
  {
    hide Encode, Parse, ParseOne, Telling;
    var r := Telling(tail);
    TellingBytes(tail);
    if Parse(tail + Encode(r)) == [r] {
      ParsesToOne(tail + Encode(r), r);
      if |tail| >= 10 { ParsesPrefix(tail, r, 9); } else { ParsesShifted(tail, r, 17); }
    }
  }

  lemma TellingBytes(tail: seq<byte>)
    requires tail != []
    ensures Framed(Telling(tail)) && |Encode(Telling(tail))| == 21
    ensures if |tail| >= 10 then Encode(Telling(tail))[9] != tail[9] else Encode(Telling(tail))[17] != Encode(Telling(tail))[17 - |tail|]
  {
    hide Encode, Le32;
    var r, n := Telling(tail), |tail|;
    var e := Encode(r);
    DeleteBytes(r);
    SmallWord(0);
    SmallWord(1);
    SmallWord(r.rowId);
    assert e[9] == e[9..13][0] && e[17] == e[17..21][0];
    if n < 9 {
      assert if n <= 4 then e[17 - n] == e[13..17][4 - n] else e[17 - n] == e[9..13][8 - n];
    }
  }

  lemma ParsesPrefix(tail: seq<byte>, r: Record, i: nat)
    requires Framed(r) && ParseOne(tail + Encode(r)) == Some(r) && i < |tail| && i < |Encode(r)|
    ensures Encode(r)[i] == tail[i]
  {
    hide Encode, ParseOne;
    var e, b := Encode(r), tail + Encode(r);
    ParsedIsEncoded(b, r);
    assert e[i] == b[..|e|][i] == b[i] == tail[i];
  }

  lemma AppendInjective<T>(a: seq<T>, b: seq<T>, c: seq<T>)
    ensures a + b == a + c ==> b == c
  {
    assert b == (a + b)[|a|..] && c == (a + c)[|a|..];
  }

  /** Open appends at the end of the file whatever it finds there: every record logged
      afterwards is replayed if and only if there was no torn tail. */
  lemma CleanTailOnly(rs: seq<Record>, tail: seq<byte>)
    requires AllFramed(rs)
    ensures (forall r :: Framed(r) ==> ReplayFile(Header() + EncodeLog(rs) + (tail + Encode(r))) == rs + [r]) <==> tail == []
  {
    hide EncodeLog, Parse, Header, Encode, Telling;
    forall r | Framed(r) ensures ReplayFile(Header() + EncodeLog(rs) + (tail + Encode(r))) == rs + Parse(tail + Encode(r)) {
      assert (Header() + EncodeLog(rs) + (tail + Encode(r)))[HEADER_SIZE..] == EncodeLog(rs) + (tail + Encode(r));
      ParsesLog(rs, tail + Encode(r));
    }
    if tail == [] {
      forall r | Framed(r) ensures Parse(tail + Encode(r)) == [r] {
        assert tail + Encode(r) == Encode(r) + [];
        ParsesRecord(r, []);
        EmptyLog();
      }
    } else {
      var r := Telling(tail);
      TornTailLoses(tail);
      AppendInjective(rs, Parse(tail + Encode(r)), [r]);
    }
  }
}
