/** Bytes and the little-endian integers of include/xdl/page.h. */
module Bytes {
  datatype Option<+T> = None | Some(value: T)

  type byte = x: int | 0 <= x < 256
  type u16 = x: int | 0 <= x < 0x1_0000
  type u32 = x: int | 0 <= x < 0x1_0000_0000
  type u64 = x: int | 0 <= x < 0x1_0000_0000_0000_0000

  function Le16(v: u16): (r: seq<byte>)
    ensures |r| == 2
  {
    [v % 256, v / 256]
  }

  function Le32(v: u32): (r: seq<byte>)
    ensures |r| == 4
  {
    [v % 256, v / 256 % 256, v / 0x1_0000 % 256, v / 0x100_0000]
  }

  function ReadLe16(s: seq<byte>): u16
    requires |s| >= 2
  {
    s[0] as int + 256 * (s[1] as int)
  }

  function ReadLe32(s: seq<byte>): u32
    requires |s| >= 4
  {
    s[0] as int + 256 * (s[1] as int) + 0x1_0000 * (s[2] as int) + 0x100_0000 * (s[3] as int)
  }

  /** The number some bytes stand for, least significant first. */
  function Value(s: seq<byte>): nat { if s == [] then 0 else s[0] as int + 256 * Value(s[1..]) }

  lemma ValueOf2(s: seq<byte>)
    requires |s| == 2
    ensures Value(s) == s[0] as int + 256 * (s[1] as int)
  {
    assert Value(s[1..]) == s[1] as int + 256 * Value(s[1..][1..]);
  }

  lemma ValueOf4(s: seq<byte>)
    requires |s| == 4
    ensures Value(s) == s[0] as int + 256 * (s[1] as int) + 0x1_0000 * (s[2] as int) + 0x100_0000 * (s[3] as int)
  {
    assert s[1..][1..] == s[2..];
    ValueOf2(s[2..]);
  }

  lemma ValueConcat(a: seq<byte>, b: seq<byte>)
    requires |a| == 4
    ensures Value(a + b) == Value(a) + 0x1_0000_0000 * Value(b)
  {
    ValueOf4(a);
    var s := a + b;
    assert s[1..][1..] == s[2..] && s[2..][1..] == s[3..] && s[3..][1..] == b;
    assert Value(s[3..]) == a[3] as int + 256 * Value(b);
    assert Value(s[2..]) == a[2] as int + 256 * Value(s[3..]);
    assert Value(s[1..]) == a[1] as int + 256 * Value(s[2..]);
  }

  /** Integers are stored least significant byte first, signed ones in two's complement. */
  lemma LittleEndian(v16: u16, v32: u32, v64: u64, i: i64)
    ensures Value(Le16(v16)) == v16 && Value(Le32(v32)) == v32 && Value(Le64(v64)) == v64
    ensures (AsUnsigned(i) - i) % 0x1_0000_0000_0000_0000 == 0
  {
    ValueOf2(Le16(v16));
    ValueOf4(Le32(v32));
    Digits(v32);
    var low, high := v64 % 0x1_0000_0000, v64 / 0x1_0000_0000;
    ValueConcat(Le32(low), Le32(high));
    ValueOf4(Le32(low));
    ValueOf4(Le32(high));
    Digits(low);
    Digits(high);
  }

  lemma ReadLe16Of(v: u16, tail: seq<byte>)
    ensures ReadLe16(Le16(v) + tail) == v
  {
    var s := Le16(v) + tail;
    assert s[0] == v % 256 && s[1] == v / 256;
  }

  lemma Digits(v: u32)
    ensures v == v % 256 + 256 * (v / 256 % 256) + 0x1_0000 * (v / 0x1_0000 % 256) + 0x100_0000 * (v / 0x100_0000)
  {
    assert v / 0x1_0000 == v / 256 / 256;
    assert v / 0x100_0000 == v / 0x1_0000 / 256;
  }

  lemma ReadLe32Of(v: u32, tail: seq<byte>)
    ensures ReadLe32(Le32(v) + tail) == v
  {
    assert (Le32(v) + tail)[..4] == Le32(v);
    Digits(v);
  }

  lemma Le32Read(s: seq<byte>)
    requires |s| >= 4
    ensures Le32(ReadLe32(s)) == s[..4]
  {
    var v, a, b, c, d := ReadLe32(s), s[0] as int, s[1] as int, s[2] as int, s[3] as int;
    Divide(v, a, b + 256 * c + 0x1_0000 * d, 256);
    Divide(v, a + 256 * b, c + 256 * d, 0x1_0000);
    Divide(v, a + 256 * b + 0x1_0000 * c, d, 0x100_0000);
    Divide(v / 256, b, c + 256 * d, 256);
    Divide(v / 0x1_0000, c, d, 256);
  }

  lemma Divide(v: nat, low: nat, high: nat, m: nat)
    requires low < m && v == low + m * high
    ensures v / m == high && v % m == low
  {
    var d := v / m - high;
    assert d * m == low - v % m;
    assert -1 < d < 1 by {
      assert d >= 1 ==> d * m >= m;
      assert d <= -1 ==> d * m + m <= 0;
    }
  }

  type i64 = x: int | -0x8000_0000_0000_0000 <= x < 0x8000_0000_0000_0000

  /** Eight bytes, low word first. */
  function Le64(v: u64): (r: seq<byte>)
    ensures |r| == 8
  {
    Le32(v % 0x1_0000_0000) + Le32(v / 0x1_0000_0000)
  }

  function ReadLe64(s: seq<byte>): u64
    requires |s| >= 8
  {
    (ReadLe32(s) as int) + 0x1_0000_0000 * (ReadLe32(s[4..]) as int)
  }

  lemma ReadLe64Of(v: u64, tail: seq<byte>)
    ensures ReadLe64(Le64(v) + tail) == v
  {
    var low, high := Le32(v % 0x1_0000_0000), Le32(v / 0x1_0000_0000);
    assert Le64(v) + tail == low + (high + tail);
    ReadLe32Of(v % 0x1_0000_0000, high + tail);
    assert (low + (high + tail))[4..] == high + tail;
    ReadLe32Of(v / 0x1_0000_0000, tail);
  }

  /** Two's complement reading and writing of a signed 64-bit value. */
  function AsUnsigned(v: i64): u64 { if v < 0 then v + 0x1_0000_0000_0000_0000 else v }

  function AsSigned(u: u64): i64 { if u >= 0x8000_0000_0000_0000 then u - 0x1_0000_0000_0000_0000 else u }

  lemma Le32Injective(a: seq<byte>, b: seq<byte>)
    requires |a| >= 4 && |b| >= 4 && ReadLe32(a) == ReadLe32(b)
    ensures a[..4] == b[..4]
  {
    Le32Read(a);
    Le32Read(b);
  }
}
