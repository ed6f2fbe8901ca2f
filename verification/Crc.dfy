/** The log's CRC: table-driven in src/wal.cpp, bit by bit here, and what one
    changed byte does to it. */
module Crc {
  import opened Bytes
  import opened Folds

  const POLYNOMIAL: bv32 := 0xEDB88320
  const SEED: bv32 := 0xDEADBEEF

  /** One bit of the reflected division. */
  function Shift(x: bv32): bv32 { if x & 1 == 1 then (x >> 1) ^ POLYNOMIAL else x >> 1 }

  function Xor(a: bv32, b: bv32): bv32 { a ^ b }

  /** One byte of the bit-by-bit CRC of section 8 of RFC 1952: eight shifts. */
  function Update(crc: bv32, b: bv8): bv32 { Iterate(Shift, crc ^ (b as bv32), 8) }

  /** The CRC register after `data`, started from `crc`; no final complement. */
  function Register(crc: bv32, data: seq<bv8>): bv32 { Fold(Update, crc, data) }

  /** The eight bits of a byte. */
  function Octet(b: byte): bv8 { Join((b / 16) as bv4, (b % 16) as bv4) }

  function Join(high: bv4, low: bv4): bv8 { ((high as bv8) << 4) | (low as bv8) }

  /** The checksum of a record body, as the log stores it. */
  function Checksum(data: seq<byte>): u32 { Register(SEED, Map(Octet, data)) as int }

  lemma ShiftLinear(x: bv32, y: bv32)
    ensures Shift(x ^ y) == Shift(x) ^ Shift(y)
  {
    assert (x ^ y) >> 1 == (x >> 1) ^ (y >> 1);
    LowBit(x, y);
    Regroup(x >> 1, y >> 1, POLYNOMIAL);
  }

  lemma LowBit(x: bv32, y: bv32)
    ensures ((x ^ y) & 1 == 1) <==> ((x & 1 == 1) != (y & 1 == 1))
  {}

  lemma Regroup(a: bv32, b: bv32, p: bv32)
    ensures (a ^ p) ^ b == (a ^ b) ^ p && a ^ (b ^ p) == (a ^ b) ^ p && (a ^ p) ^ (b ^ p) == a ^ b
  {}

  lemma ShiftInjective(x: bv32, y: bv32)
    requires Shift(x) == Shift(y)
    ensures x == y
  {}

  lemma ShiftsLinear(x: bv32, y: bv32)
    ensures Iterate(Shift, Xor(x, y), 8) == Xor(Iterate(Shift, x, 8), Iterate(Shift, y, 8))
  {
    assert Linear(Shift, Xor) by {
      forall x, y ensures Shift(Xor(x, y)) == Xor(Shift(x), Shift(y)) { ShiftLinear(x, y); }
    }
    IterateLinear(Shift, Xor, x, y, 8);
  }

  lemma ShiftsInjective(x: bv32, y: bv32)
    requires Iterate(Shift, x, 8) == Iterate(Shift, y, 8)
    ensures x == y
  {
    assert Injective(Shift) by {
      forall x, y | Shift(x) == Shift(y) ensures x == y { ShiftInjective(x, y); }
    }
    IterateInjective(Shift, x, y, 8);
  }

  /** A register whose low byte is clear only moves down. */
  lemma ShiftsHigh(x: bv32)
    requires x & 0xFF == 0
    ensures Iterate(Shift, x, 8) == x >> 8
  {
    IterateEight(Shift, x);
    EightShifts(x);
  }

  lemma EightShifts(x: bv32)
    requires x & 0xFF == 0
    ensures Shift(Shift(Shift(Shift(Shift(Shift(Shift(Shift(x)))))))) == x >> 8
  {}

  lemma SplitShifts(x: bv32, low: bv32, high: bv32)
    requires x == Xor(low, high) && high & 0xFF == 0
    ensures Iterate(Shift, x, 8) == Xor(Iterate(Shift, low, 8), high >> 8)
  {
    ShiftsLinear(low, high);
    ShiftsHigh(high);
  }

  /** One table lookup does eight bits of division. */
  lemma TableStep(crc: bv32, b: bv8)
    ensures Update(crc, b) == Xor(Iterate(Shift, (crc ^ (b as bv32)) & 0xFF, 8), crc >> 8)
  {
    Halves(crc, b);
    SplitShifts(crc ^ (b as bv32), (crc ^ (b as bv32)) & 0xFF, crc & 0xFFFF_FF00);
  }

  lemma Halves(crc: bv32, b: bv8)
    ensures crc ^ (b as bv32) == Xor((crc ^ (b as bv32)) & 0xFF, crc & 0xFFFF_FF00)
    ensures (crc & 0xFFFF_FF00) & 0xFF == 0 && (crc & 0xFFFF_FF00) >> 8 == crc >> 8
  {}

  lemma LowByte(x: bv32)
    ensures 0 <= (x & 0xFF) as int < 256
  {}

  lemma WordBack(x: bv32)
    ensures (x as int) as bv32 == x
  {}

  function Entry(i: nat): bv32
    requires i < 256
  {
    Iterate(Shift, i as bv32, 8)
  }

  /** The 256-entry lookup table, as init_crc32_table fills it. */
  ghost predicate IsTable(table: seq<bv32>) {
    |table| == 256 && forall i :: 0 <= i < 256 ==> table[i] == Entry(i)
  }

  method InitTable() returns (table: array<bv32>)
    ensures IsTable(table[..]) && fresh(table)
  {
    hide Entry;
    table := new bv32[256];
    for i := 0 to 256
      invariant forall k :: 0 <= k < i ==> table[k] == Entry(k)
    {
      table[i] := TableEntry(i);
    }
  }

  method TableEntry(i: nat) returns (crc: bv32)
    requires i < 256
    ensures crc == Entry(i)
  {
    crc := EightShiftsOf(i as bv32);
  }

  method EightShiftsOf(i: bv32) returns (crc: bv32)
    ensures crc == Iterate(Shift, i, 8)
  {
    crc := i;
    for j := 0 to 8
      invariant crc == Iterate(Shift, i, j)
    {
      crc := if crc & 1 == 1 then (crc >> 1) ^ POLYNOMIAL else crc >> 1;
    }
  }

  /** compute_crc: the table-driven loop computes the bit-by-bit register. */
  method Compute(table: seq<bv32>, start: bv32, data: seq<byte>) returns (crc: bv32)
    requires IsTable(table)
    ensures crc == Register(start, Map(Octet, data))
  {
    crc := start;
    ghost var bits := Map(Octet, data);
    for i := 0 to |data|
      invariant Register(start, bits) == Register(crc, bits[i..])
    {
      assert bits[i..][1..] == bits[i + 1..] && bits[i..][0] == bits[i];
      crc := Lookup(table, crc, Octet(data[i]));
    }
  }

  method Lookup(table: seq<bv32>, crc: bv32, b: bv8) returns (next: bv32)
    requires IsTable(table)
    ensures next == Update(crc, b)
  {
    var x := (crc ^ (b as bv32)) & 0xFF;
    LowByte(crc ^ (b as bv32));
    WordBack(x);
    TableStep(crc, b);
    next := Xor(table[x as int], crc >> 8);
  }

  lemma XorCancel(x: bv32, y: bv32, b: bv8)
    requires x ^ (b as bv32) == y ^ (b as bv32)
    ensures x == y
  {}

  lemma XorRight(x: bv32, a: bv8, b: bv8)
    requires x ^ (a as bv32) == x ^ (b as bv32)
    ensures a == b
  {}

  lemma UpdateInjective(x: bv32, y: bv32, b: bv8)
    requires Update(x, b) == Update(y, b)
    ensures x == y
  {
    ShiftsInjective(x ^ (b as bv32), y ^ (b as bv32));
    XorCancel(x, y, b);
  }

  lemma UpdateSeparates(x: bv32, a: bv8, b: bv8)
    requires Update(x, a) == Update(x, b)
    ensures a == b
  {
    ShiftsInjective(x ^ (a as bv32), x ^ (b as bv32));
    XorRight(x, a, b);
  }

  lemma UpdateLaws()
    ensures StateInjective(Update) && InputInjective(Update)
  {
    forall x, y, b | Update(x, b) == Update(y, b) ensures x == y {
      UpdateInjective(x, y, b);
    }
    forall x, a, b | Update(x, a) == Update(x, b) ensures a == b {
      UpdateSeparates(x, a, b);
    }
  }

  lemma NibbleBack(n: int)
    requires 0 <= n < 16
    ensures (n as bv4) as int == n
  {}

  lemma JoinValue(high: bv4, low: bv4)
    ensures Join(high, low) as int == 16 * (high as int) + low as int
  {}

  /** The eight bits are those of the byte's number. */
  lemma OctetValue(b: byte)
    ensures Octet(b) as int == b
  {
    NibbleBack(b / 16);
    NibbleBack(b % 16);
    JoinValue((b / 16) as bv4, (b % 16) as bv4);
  }

  lemma OctetInjective(a: byte, b: byte)
    requires Octet(a) == Octet(b)
    ensures a == b
  {
    OctetValue(a);
    OctetValue(b);
  }

  lemma BitsBack(a: bv32, b: bv32)
    requires a as int == b as int
    ensures a == b
  {
    WordBack(a);
    WordBack(b);
  }

  /** Any single changed byte changes the checksum. */
  lemma DetectsChange(before: seq<byte>, x: byte, y: byte, after: seq<byte>)
    requires x != y
    ensures Checksum(before + [x] + after) != Checksum(before + [y] + after)
  {
    MapAround(Octet, before, x, after);
    MapAround(Octet, before, y, after);
    if Octet(x) == Octet(y) {
      OctetInjective(x, y);
    }
    DetectsBits(Map(Octet, before), Octet(x), Octet(y), Map(Octet, after));
  }

  lemma DetectsBits(before: seq<bv8>, x: bv8, y: bv8, after: seq<bv8>)
    requires x != y
    ensures Register(SEED, before + [x] + after) as int != Register(SEED, before + [y] + after) as int
  {
    UpdateLaws();
    FoldSeparates(Update, SEED, before, x, y, after);
    if Register(SEED, before + [x] + after) as int == Register(SEED, before + [y] + after) as int {
      BitsBack(Register(SEED, before + [x] + after), Register(SEED, before + [y] + after));
    }
  }
}
