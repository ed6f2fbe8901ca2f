/** The bytes themselves: what a checksum, a log record, a log header, a row and a page slot
    look like on disk. */
module Formats {
  import opened Bytes
  import opened Folds
  import opened Rows
  import opened Storage
  import opened Keys
  import Crc
  import W = Wal

  /** One byte, bit by bit. */
  lemma Step(crc: bv32, b: bv8)
    ensures Crc.Update(crc, b) == Crc.Shift(Crc.Shift(Crc.Shift(Crc.Shift(Crc.Shift(Crc.Shift(Crc.Shift(Crc.Shift(crc ^ (b as bv32)))))))))
  {
    IterateEight(Crc.Shift, crc ^ (b as bv32));
  }

  /** The register goes through these states. */
  lemma {:induction false} Trace(states: seq<bv32>, data: seq<bv8>)
    requires |states| == |data| + 1 && forall i :: 0 <= i < |data| ==> Crc.Update(states[i], data[i]) == states[i + 1]
    ensures Crc.Register(states[0], data) == states[|data|]
    decreases |data|
  {
    hide Crc.Update;
    if data != [] {
      Trace(states[1..], data[1..]);
    }
  }

  /** The state of CRC-32 after the nine digits of its check value. */
  lemma CheckState()
    ensures Crc.Register(0xFFFF_FFFF, [0x31, 0x32, 0x33, 0x34, 0x35, 0x36, 0x37, 0x38, 0x39]) == 0x340B_C6D9
  {
    hide Crc.Update, Crc.Register;
    var states: seq<bv32> := [0xFFFF_FFFF, 0x7C23_1048, 0xB0AC_BB32, 0x77B7_9C2D, 0x641C_1F5C, 0x340A_C5E3, 0xF68D_2C9E, 0xAFFC_9660, 0x651F_2550, 0x340B_C6D9];
    var data: seq<bv8> := [0x31, 0x32, 0x33, 0x34, 0x35, 0x36, 0x37, 0x38, 0x39];
    Step(0xFFFF_FFFF, 0x31);
    Step(0x7C23_1048, 0x32);
    Step(0xB0AC_BB32, 0x33);
    Step(0x77B7_9C2D, 0x34);
    Step(0x641C_1F5C, 0x35);
    Step(0x340A_C5E3, 0x36);
    Step(0xF68D_2C9E, 0x37);
    Step(0xAFFC_9660, 0x38);
    Step(0x651F_2550, 0x39);
    Trace(states, data);
  }

  /** The check value of CRC-32, which complements at the end. */
  lemma CheckValue()
    ensures Crc.Register(0xFFFF_FFFF, [0x31, 0x32, 0x33, 0x34, 0x35, 0x36, 0x37, 0x38, 0x39]) ^ 0xFFFF_FFFF == 0xCBF4_3926
  {
    hide Crc.Register;
    CheckState();
  }

  /** The checksum of the delete of row 7 in the first slot of the first page. */
  lemma DeleteState()
    ensures Crc.Register(0xDEAD_BEEF, [0x11, 0x00, 0x00, 0x00, 0x04, 0x07, 0x00, 0x00, 0x00, 0x00, 0x00, 0x00, 0x00, 0x00, 0x00, 0x00, 0x00]) == 0xF3F5_ED7E
  {
    hide Crc.Update, Crc.Register;
    var states: seq<bv32> := [0xDEAD_BEEF, 0x5ADB_72A5, 0xA6E6_8C15, 0x6D7B_0267, 0xD3BB_8FF9, 0xC3DF_352E, 0x4271_4759, 0x12F5_9817, 0x83C1_705F, 0xFB57_8D15, 0x6D26_B366, 0xA4BC_E2DE, 0x61CF_4331, 0x51BF_CF79, 0x2988_7657, 0xF526_4C21, 0x4C9C_3612, 0xF3F5_ED7E];
    var data: seq<bv8> := [0x11, 0x00, 0x00, 0x00, 0x04, 0x07, 0x00, 0x00, 0x00, 0x00, 0x00, 0x00, 0x00, 0x00, 0x00, 0x00, 0x00];
    Step(0xDEAD_BEEF, 0x11);
    Step(0x5ADB_72A5, 0x00);
    Step(0xA6E6_8C15, 0x00);
    Step(0x6D7B_0267, 0x00);
    Step(0xD3BB_8FF9, 0x04);
    Step(0xC3DF_352E, 0x07);
    Step(0x4271_4759, 0x00);
    Step(0x12F5_9817, 0x00);
    Step(0x83C1_705F, 0x00);
    Step(0xFB57_8D15, 0x00);
    Step(0x6D26_B366, 0x00);
    Step(0xA4BC_E2DE, 0x00);
    Step(0x61CF_4331, 0x00);
    Step(0x51BF_CF79, 0x00);
    Step(0x2988_7657, 0x00);
    Step(0xF526_4C21, 0x00);
    Step(0x4C9C_3612, 0x00);
    Trace(states, data);
  }

  /** The checksum of the magic number and the version. */
  lemma HeaderState()
    ensures Crc.Register(0xDEAD_BEEF, [0x31, 0x4C, 0x41, 0x57, 0x00, 0x00, 0x00, 0x00, 0x01, 0x00, 0x00, 0x00]) == 0x3BB6_04D1
  {
    hide Crc.Update, Crc.Register;
    var states: seq<bv32> := [0xDEAD_BEEF, 0x61B5_526D, 0x4C08_A50C, 0x0821_3588, 0x1664_EE70, 0x5013_15D2, 0x688D_A0ED, 0xDED3_1365, 0x3D06_46C4, 0xEB33_3079, 0x2932_FAA8, 0xD824_1920, 0x3BB6_04D1];
    var data: seq<bv8> := [0x31, 0x4C, 0x41, 0x57, 0x00, 0x00, 0x00, 0x00, 0x01, 0x00, 0x00, 0x00];
    Step(0xDEAD_BEEF, 0x31);
    Step(0x61B5_526D, 0x4C);
    Step(0x4C08_A50C, 0x41);
    Step(0x0821_3588, 0x57);
    Step(0x1664_EE70, 0x00);
    Step(0x5013_15D2, 0x00);
    Step(0x688D_A0ED, 0x00);
    Step(0xDED3_1365, 0x00);
    Step(0x3D06_46C4, 0x01);
    Step(0xEB33_3079, 0x00);
    Step(0x2932_FAA8, 0x00);
    Step(0xD824_1920, 0x00);
    Trace(states, data);
  }

  lemma SmallOctets()
    ensures Crc.Octet(0) == 0 && Crc.Octet(1) == 1 && Crc.Octet(4) == 4 && Crc.Octet(7) == 7 && Crc.Octet(17) == 17
    ensures Crc.Octet(0x31) == 0x31 && Crc.Octet(0x4C) == 0x4C && Crc.Octet(0x41) == 0x41 && Crc.Octet(0x57) == 0x57
  {}

  lemma Word(v: u32, a: byte, b: byte, c: byte, d: byte)
    requires v == a as int + 0x100 * (b as int) + 0x1_0000 * (c as int) + 0x100_0000 * (d as int)
    ensures Le32(v) == [a, b, c, d]
  {
    Le32Read([a, b, c, d]);
  }

  /** A whole log record: checksum, length, kind, row id, page id, slot. */
  lemma DeleteRecord()
    ensures W.Encode(W.Record(W.DELETE, 7, 0, 0, []))
         == [0x7E, 0xED, 0xF5, 0xF3, 17, 0, 0, 0, 4, 7, 0, 0, 0, 0, 0, 0, 0, 0, 0, 0, 0]
  {
    hide Crc.Checksum, W.Body, Le32;
    DeleteBody();
    DeleteChecksum();
    Word(0xF3F5_ED7E, 0x7E, 0xED, 0xF5, 0xF3);
  }

  lemma DeleteBody()
    ensures W.Body(W.Record(W.DELETE, 7, 0, 0, [])) == [17, 0, 0, 0, 4, 7, 0, 0, 0, 0, 0, 0, 0, 0, 0, 0, 0]
  {
    hide Le32;
    Word(17, 17, 0, 0, 0);
    Word(7, 7, 0, 0, 0);
    Word(0, 0, 0, 0, 0);
  }

  lemma DeleteChecksum()
    ensures Crc.Checksum([17, 0, 0, 0, 4, 7, 0, 0, 0, 0, 0, 0, 0, 0, 0, 0, 0]) == 0xF3F5_ED7E
  {
    hide Crc.Register, Crc.Octet;
    SmallOctets();
    DeleteState();
    var body: seq<byte> := [17, 0, 0, 0, 4, 7, 0, 0, 0, 0, 0, 0, 0, 0, 0, 0, 0];
    assert Map(Crc.Octet, body) == [0x11, 0x00, 0x00, 0x00, 0x04, 0x07, 0x00, 0x00, 0x00, 0x00, 0x00, 0x00, 0x00, 0x00, 0x00, 0x00, 0x00];
  }

  /** An insert has kind 0 and its row behind the slot. */
  lemma InsertPayload(id: u32, page: u32, slot: u32, row: seq<byte>)
    ensures W.Payload(W.Record(W.INSERT, id, page, slot, row)) == [0] + Le32(id) + Le32(page) + Le32(slot) + row
  {}

  /** The header of a log file: magic number, version, page size, checksum, padding. */
  lemma LogHeader()
    ensures W.Header() == [0x31, 0x4C, 0x41, 0x57, 0, 0, 0, 0, 1, 0, 0, 0, 0, 0x20, 0, 0, 0xD1, 0x04, 0xB6, 0x3B] + seq(12, _ => 0)
  {
    hide Crc.Register, Crc.Octet, Le32;
    Word(0x5741_4C31, 0x31, 0x4C, 0x41, 0x57);
    Word(0, 0, 0, 0, 0);
    Word(1, 1, 0, 0, 0);
    Word(8192, 0, 0x20, 0, 0);
    Word(0x3BB6_04D1, 0xD1, 0x04, 0xB6, 0x3B);
    var start: seq<byte> := [0x31, 0x4C, 0x41, 0x57, 0, 0, 0, 0, 1, 0, 0, 0];
    assert Le64(0x57414C31) + Le32(1) == start;
    SmallOctets();
    HeaderState();
    assert Map(Crc.Octet, start) == [0x31, 0x4C, 0x41, 0x57, 0x00, 0x00, 0x00, 0x00, 0x01, 0x00, 0x00, 0x00];
    assert Crc.Checksum(start) == 0x3BB6_04D1;
  }

  /** One value of each type. */
  lemma SampleFields()
    ensures EncodeField(Uint(258)) == [2, 1, 0, 0] && EncodeField(Str([97, 98])) == [2, 0, 97, 98]
    ensures EncodeField(Float(0x3F80_0000)) == [0, 0, 0x80, 0x3F] && EncodeField(Bool(true)) == [1] && EncodeField(Bool(false)) == [0]
    ensures EncodeField(Int64(-2)) == [0xFE, 0xFF, 0xFF, 0xFF, 0xFF, 0xFF, 0xFF, 0xFF]
  {
    hide Le32;
    Word(258, 2, 1, 0, 0);
    Word(0x3F80_0000, 0, 0, 0x80, 0x3F);
    Word(0xFFFF_FFFE, 0xFE, 0xFF, 0xFF, 0xFF);
    Word(0xFFFF_FFFF, 0xFF, 0xFF, 0xFF, 0xFF);
  }

  lemma FieldThen(v: FieldValue, rest: seq<FieldValue>)
    ensures EncodeFields([v] + rest) == EncodeField(v) + EncodeFields(rest)
  {
    assert ([v] + rest)[1..] == rest;
  }

  /** A row: its length, its id, then the fields in order. */
  lemma SampleRow()
    ensures var row := Row(7, [Uint(258), Str([97, 98]), Bool(true)]);
            RowSize(row) == 17 && EncodeRow(row) == [17, 0, 0, 0, 7, 0, 0, 0, 2, 1, 0, 0, 2, 0, 97, 98, 1]
  {
    hide Le32, EncodeField, EncodeFields;
    SampleFields();
    Word(17, 17, 0, 0, 0);
    Word(7, 7, 0, 0, 0);
    FieldThen(Bool(true), []);
    FieldThen(Str([97, 98]), [Bool(true)]);
    FieldThen(Uint(258), [Str([97, 98]), Bool(true)]);
    assert EncodeFields([]) == [] by { NoFields(); }
    assert [Bool(true)] + [] == [Bool(true)] && [Str([97, 98])] + [Bool(true)] == [Str([97, 98]), Bool(true)];
    assert [Uint(258)] + [Str([97, 98]), Bool(true)] == [Uint(258), Str([97, 98]), Bool(true)];
  }

  lemma NoFields()
    ensures EncodeFields([]) == []
  {}

  /** A slot: page id, sizes before and after compression, row count, method, payload. Slots
      are 8212 bytes apart. */
  lemma SampleSlot()
    ensures SlotBytes(3, 5, [9, 8], LZ4, [32, 9, 8]) == [3, 0, 0, 0, 3, 0, 0, 0, 2, 0, 0, 0, 5, 0, 0, 0, 1, 0, 0, 0, 32, 9, 8]
    ensures SlotBytes(3, 5, [9, 8], None_, [9, 8]) == [3, 0, 0, 0, 2, 0, 0, 0, 2, 0, 0, 0, 5, 0, 0, 0, 0, 0, 0, 0, 9, 8]
    ensures SlotOffset(0) == 0 && SlotOffset(1) == 8212
  {
    hide Le32;
    Word(3, 3, 0, 0, 0);
    Word(2, 2, 0, 0, 0);
    Word(5, 5, 0, 0, 0);
  }

  /** Index keys: big-endian, the sign flipped, negative floats complemented. */
  lemma SampleKeys()
    ensures EncodeKey(Uint(258)) == [0, 0, 1, 2] && EncodeKey(Float(0x3F80_0000)) == [0xBF, 0x80, 0, 0]
    ensures EncodeKey(Float(0xBF80_0000)) == [0x40, 0x7F, 0xFF, 0xFF] && EncodeKey(Bool(true)) == [1] && EncodeKey(Str([97, 98])) == [97, 98]
    ensures |EncodeKey(Int64(-1))| == 8 && EncodeKey(Int64(-1))[0] == 0x7F && EncodeKey(Int64(-1))[7] == 0xFF
  {
    BeWord(258, 0, 0, 1, 2);
    BeWord(0xBF80_0000, 0xBF, 0x80, 0, 0);
    BeWord(0x407F_FFFF, 0x40, 0x7F, 0xFF, 0xFF);
    hide Be;
    BeEnds(0x7FFF_FFFF_FFFF_FFFF);
  }

  lemma BeWord(v: u32, a: byte, b: byte, c: byte, d: byte)
    requires v == 0x100_0000 * (a as int) + 0x1_0000 * (b as int) + 0x100 * (c as int) + d as int
    ensures Be(v, 4) == [a, b, c, d]
  {
    Divide(v, d, 0x1_0000 * (a as int) + 0x100 * (b as int) + c as int, 256);
    Divide(v / 256, c, 0x100 * (a as int) + b as int, 256);
    Divide(v / 256 / 256, b, a, 256);
    var x, y, z := v / 256, v / 256 / 256, v / 256 / 256 / 256;
    assert Be(z, 1) == Be(z / 256, 0) + [z % 256] == [a];
    assert Be(y, 2) == Be(z, 1) + [y % 256] == [a, b];
    assert Be(x, 3) == Be(y, 2) + [x % 256] == [a, b, c];
  }

  lemma BeEnds(v: u64)
    ensures Be(v, 8)[7] == v % 256 && Be(v, 8)[0] == v / 0x100_0000_0000_0000
  {
    assert Be(v, 8)[0] == Be(v / 256, 7)[0] == Be(v / 256 / 256, 6)[0] == Be(v / 256 / 256 / 256, 5)[0];
    var w := v / 256 / 256 / 256;
    assert Be(w, 5)[0] == Be(w / 256, 4)[0] == Be(w / 256 / 256, 3)[0] == Be(w / 256 / 256 / 256, 2)[0];
    var x := w / 256 / 256 / 256;
    assert Be(x, 2)[0] == Be(x / 256, 1)[0] == x / 256 % 256;
  }
}
