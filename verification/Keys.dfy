/** Order-preserving secondary-index keys of src/bptree.cpp. */
module Keys {
  import opened Bytes
  import opened Rows
  import opened Floats

  type Key = seq<byte>

  /** bptree_key_compare: byte by byte, then by length. */
  function Compare(a: Key, b: Key): int {
    if a == [] then (if b == [] then 0 else -1)
    else if b == [] then 1
    else if a[0] != b[0] then (if a[0] < b[0] then -1 else 1)
    else Compare(a[1..], b[1..])
  }

  predicate Less(a: Key, b: Key) { Compare(a, b) < 0 }

  function Sign(x: int): int { if x < 0 then -1 else if x > 0 then 1 else 0 }

  lemma {:induction false} CompareEqual(a: Key, b: Key)
    ensures Compare(a, b) == 0 <==> a == b
  {
    if a != [] && b != [] && a[0] == b[0] {
      CompareEqual(a[1..], b[1..]);
      assert a == [a[0]] + a[1..] && b == [b[0]] + b[1..];
    }
  }

  lemma {:induction false} CompareSign(a: Key, b: Key)
    ensures Compare(a, b) == Sign(Compare(a, b))
  {
    if a != [] && b != [] && a[0] == b[0] {
      CompareSign(a[1..], b[1..]);
    }
  }

  lemma {:induction false} CompareFlips(a: Key, b: Key)
    ensures Compare(a, b) == -Compare(b, a)
  {
    if a != [] && b != [] && a[0] == b[0] {
      CompareFlips(a[1..], b[1..]);
    }
  }

  lemma {:induction false} LessTransitive(a: Key, b: Key, c: Key)
    requires Less(a, b) && Less(b, c)
    ensures Less(a, c)
  {
    if a != [] && b != [] && c != [] && a[0] == b[0] == c[0] {
      LessTransitive(a[1..], b[1..], c[1..]);
    }
  }

  /** A strict total order. */
  lemma LessTotal(a: Key, b: Key)
    ensures a == b || Less(a, b) || Less(b, a)
    ensures !(Less(a, b) && Less(b, a)) && !Less(a, a)
  {
    CompareEqual(a, b);
    CompareFlips(a, b);
    CompareFlips(a, a);
  }

  /** Dictionary order: a proper prefix first, otherwise the first difference decides. */
  ghost predicate Before(a: Key, b: Key) {
    (|a| < |b| && a == b[..|a|]) || exists k: nat :: SmallerAt(a, b, k)
  }

  ghost predicate SmallerAt(a: Key, b: Key, k: nat) {
    k < |a| && k < |b| && a[..k] == b[..k] && a[k] < b[k]
  }

  lemma SmallerNext(a: Key, b: Key, k: nat)
    requires a != [] && b != [] && a[0] == b[0]
    ensures SmallerAt(a[1..], b[1..], k) <==> SmallerAt(a, b, k + 1)
  {
    if k + 1 < |a| && k + 1 < |b| {
      assert a[..k + 1] == [a[0]] + a[1..][..k] && b[..k + 1] == [b[0]] + b[1..][..k];
      assert a[..k + 1][1..] == a[1..][..k] && b[..k + 1][1..] == b[1..][..k];
    }
  }

  /** An equal first byte does not matter. */
  lemma BeforeNext(a: Key, b: Key)
    requires a != [] && b != [] && a[0] == b[0]
    ensures Before(a, b) <==> Before(a[1..], b[1..])
  {
    if |a| < |b| {
      assert a == [a[0]] + a[1..] && b[..|a|] == [b[0]] + b[1..][..|a| - 1];
      assert b[..|a|][1..] == b[1..][..|a| - 1];
    }
    if k: nat :| SmallerAt(a, b, k) {
      if k > 0 { SmallerNext(a, b, k - 1); }
    }
    if k: nat :| SmallerAt(a[1..], b[1..], k) {
      SmallerNext(a, b, k);
    }
  }

  lemma SmallerFirst(a: Key, b: Key, k: nat)
    requires SmallerAt(a, b, k)
    ensures k == 0 || a[0] == b[0]
  {
    assert k > 0 ==> a[..k][0] == a[0] && b[..k][0] == b[0];
  }

  lemma BeforeFirst(a: Key, b: Key)
    requires a == [] || b == [] || a[0] != b[0]
    ensures Before(a, b) <==> (a == [] && b != []) || (a != [] && b != [] && a[0] < b[0])
  {
    if a != [] && b != [] {
      assert a[0] < b[0] ==> SmallerAt(a, b, 0);
      forall k: nat | SmallerAt(a, b, k) ensures k == 0 { SmallerFirst(a, b, k); }
      assert |a| < |b| ==> b[..|a|][0] == b[0];
    }
  }

  /** The comparison is dictionary order. */
  lemma {:induction false} Lexicographic(a: Key, b: Key)
    ensures Less(a, b) <==> Before(a, b)
  {
    hide Before;
    if a == [] || b == [] || a[0] != b[0] {
      BeforeFirst(a, b);
    } else {
      Lexicographic(a[1..], b[1..]);
      BeforeNext(a, b);
    }
  }

  /** memcmp over the common length, then the lengths: the sign of dictionary order. */
  method KeyCompare(a: Key, b: Key) returns (c: int)
    ensures c == Compare(a, b)
    ensures c == if a == b then 0 else if Before(a, b) then -1 else 1
  {
    CompareEqual(a, b);
    CompareFlips(a, b);
    Lexicographic(a, b);
    CompareSign(a, b);
    var n := if |a| <= |b| then |a| else |b|;
    assert a[0..] == a && b[0..] == b;
    for i := 0 to n
      invariant Compare(a, b) == Compare(a[i..], b[i..])
    {
      if a[i] != b[i] {
        return if a[i] < b[i] then -1 else 1;
      }
      assert a[i..][1..] == a[i + 1..] && b[i..][1..] == b[i + 1..];
    }
    c := if |a| < |b| then -1 else if |a| > |b| then 1 else 0;
  }

  /** Big-endian bytes of a fixed width. */
  function Be(v: nat, width: nat): (r: seq<byte>)
    ensures |r| == width
  {
    if width == 0 then [] else Be(v / 256, width - 1) + [v % 256]
  }

  function Limit(width: nat): nat { if width == 0 then 1 else 256 * Limit(width - 1) }

  /** encode_int_be: fills the buffer from its last byte. */
  method EncodeIntBe(v: nat, width: nat) returns (r: seq<byte>)
    ensures r == Be(v, width)
  {
    var out := new byte[width](_ => 0);
    var rest, i := v, width;
    while i > 0
      invariant 0 <= i <= width && rest >= 0
      invariant Be(rest, i) + out[i..] == Be(v, width)
    {
      i := i - 1;
      ghost var tail := out[i + 1..];
      out[i] := rest % 256;
      assert out[i..] == [rest % 256] + tail;
      rest := rest / 256;
    }
    assert out[0..] == out[..];
    r := out[..];
  }

  lemma {:induction false} CompareSnoc(a: Key, b: Key, x: byte, y: byte)
    requires |a| == |b|
    ensures Compare(a + [x], b + [y]) == if a == b then Sign(x - y) else Compare(a, b)
  {
    if a == [] {
      assert a + [x] == [x] && b + [y] == [y];
      assert [x][1..] == [] && [y][1..] == [];
    } else {
      assert (a + [x])[1..] == a[1..] + [x] && (b + [y])[1..] == b[1..] + [y];
      assert a == [a[0]] + a[1..] && b == [b[0]] + b[1..];
      CompareSnoc(a[1..], b[1..], x, y);
    }
  }

  /** Big-endian comparison is numeric comparison, at every width. */
  lemma {:induction false} BigEndianOrder(a: nat, b: nat, width: nat)
    requires a < Limit(width) && b < Limit(width)
    ensures Compare(Be(a, width), Be(b, width)) == Sign(a - b)
  {
    if width > 0 {
      BigEndianOrder(a / 256, b / 256, width - 1);
      CompareEqual(Be(a / 256, width - 1), Be(b / 256, width - 1));
      CompareSnoc(Be(a / 256, width - 1), Be(b / 256, width - 1), a % 256, b % 256);
    }
  }

  /** The sign flip of encode_signed_be. */
  function SignedBits(v: i64): u64 { v + 0x8000_0000_0000_0000 }

  /** encode_float_ordered: negatives complemented, positives with the sign bit set. */
  function FloatBits(bits: u32): u32 {
    if bits >= 0x8000_0000 then 0xFFFF_FFFF - bits else bits + 0x8000_0000
  }

  /** bptree_key_encode_vec for a value of its own type. */
  function EncodeKey(v: FieldValue): Key {
    match v
    case Uint(u) => Be(u, 4)
    case Int64(i) => Be(SignedBits(i), 8)
    case Float(f) => Be(FloatBits(f), 4)
    case Bool(b) => [if b then 1 else 0]
    case Str(s) => s
  }

  /** The encoder itself: fixed-width integers through encode_int_be, strings as they are. */
  method KeyOf(v: FieldValue) returns (k: Key)
    ensures k == EncodeKey(v)
  {
    hide Be;
    match v
    case Uint(u) => k := EncodeIntBe(u, 4);
    case Int64(i) => k := EncodeIntBe(SignedBits(i), 8);
    case Float(f) => k := EncodeIntBe(FloatBits(f), 4);
    case Bool(b) => k := [if b then 1 else 0];
    case Str(s) => k := s;
  }

  /** The natural order of each type; byte strings are in dictionary order. */
  ghost function NaturalOrder(a: FieldValue, b: FieldValue): int
    requires SameType(a, b)
  {
    match a
    case Uint(u) => Sign(u - b.uint)
    case Int64(i) => Sign(i - b.int64)
    case Float(f) => Sign(TotalRank(f) - TotalRank(b.bits))
    case Bool(x) => if x == b.flag then 0 else if b.flag then -1 else 1
    case Str(s) => if s == b.str then 0 else if Before(s, b.str) then -1 else 1
  }

  predicate SameType(a: FieldValue, b: FieldValue) {
    match a
    case Uint(_) => b.Uint?
    case Int64(_) => b.Int64?
    case Float(_) => b.Float?
    case Bool(_) => b.Bool?
    case Str(_) => b.Str?
  }

  lemma Limits()
    ensures Limit(4) == 0x1_0000_0000 && Limit(8) == 0x1_0000_0000_0000_0000
  {
    assert Limit(2) == 0x1_0000;
    assert Limit(6) == 256 * 256 * Limit(4);
  }

  /** Comparing encoded keys is comparing values, for every type. */
  lemma OrderPreserving(a: FieldValue, b: FieldValue)
    requires SameType(a, b)
    ensures Compare(EncodeKey(a), EncodeKey(b)) == NaturalOrder(a, b)
  {
    hide Be;
    Limits();
    match a
    case Uint(u) => BigEndianOrder(u, b.uint, 4);
    case Int64(i) => BigEndianOrder(SignedBits(i), SignedBits(b.int64), 8);
    case Float(f) => BigEndianOrder(FloatBits(f), FloatBits(b.bits), 4);
    case Bool(x) => CompareBits(x, b.flag);
    case Str(s) =>
      CompareEqual(s, b.str);
      CompareSign(s, b.str);
      Lexicographic(s, b.str);
  }

  lemma CompareBits(x: bool, y: bool)
    ensures Compare([if x then 1 else 0], [if y then 1 else 0]) == if x == y then 0 else if y then -1 else 1
  {
    var a: Key, b: Key := [if x then 1 else 0], [if y then 1 else 0];
    assert a[1..] == [] && b[1..] == [];
  }

  /** Equal keys come only from equal values. */
  lemma KeyInjective(a: FieldValue, b: FieldValue)
    requires SameType(a, b) && EncodeKey(a) == EncodeKey(b)
    ensures a == b
  {
    hide Be;
    OrderPreserving(a, b);
    CompareEqual(EncodeKey(a), EncodeKey(b));
  }
}
