/** The LZ4 block format as the bundled codec speaks it: the bytes of a
    sequence, what a sequence expands to, and the decoder as a function. */
module Lz4Format {
  import opened Bytes

  const MINMATCH := 4
  const LASTLITERALS := 5
  const MFLIMIT := MINMATCH + LASTLITERALS

  /** One token's worth of block: `literals`, then `length` bytes copied from `offset` back. */
  datatype Sequence = Sequence(literals: seq<byte>, offset: nat, length: nat)

  /** The decoder's result: the bytes, its error return, or a read or copy whose effect
      the language leaves undefined. */
  datatype Decoded = Done(bytes: seq<byte>) | Rejected | Undefined

  /** A length read off the input, with the input that follows it. */
  datatype Length = Length(value: nat, tail: seq<byte>) | Cut

  /** Length extension: a run of 255s closed by a smaller byte. */
  function Extension(v: nat): (r: seq<byte>)
    ensures |r| == v / 255 + 1
  {
    if v >= 255 then [255] + Extension(v - 255) else [v]
  }

  function LengthBytes(v: nat): seq<byte> { if v >= 15 then Extension(v - 15) else [] }

  function Nibble(v: nat): (r: nat) { if v >= 15 then 15 else v }

  predicate ValidSequence(s: Sequence, produced: nat) {
    && 1 <= s.offset <= 65535
    && s.offset <= produced + |s.literals|
    && MINMATCH <= s.length
  }

  predicate Clear(ss: seq<Sequence>) {
    ss == [] || (!HiddenOverlap(ss[0].offset, ss[0].length) && Clear(ss[1..]))
  }

  function EncodeSequence(s: Sequence): seq<byte>
    requires 1 <= s.offset <= 65535 && MINMATCH <= s.length
  {
    LiteralPart(s.literals, Nibble(s.length - MINMATCH)) + MatchPart(s)
  }

  function LiteralPart(literals: seq<byte>, low: nat): seq<byte>
    requires low < 16
  {
    [Nibble(|literals|) * 16 + low] + (LengthBytes(|literals|) + literals)
  }

  function MatchPart(s: Sequence): seq<byte>
    requires 1 <= s.offset <= 65535 && MINMATCH <= s.length
  {
    Le16(s.offset) + LengthBytes(s.length - MINMATCH)
  }

  function EncodeLast(literals: seq<byte>): seq<byte> {
    LiteralPart(literals, 0)
  }

  /** Bytes `i % offset` past the match start: the decoder's copy, self-overlap included. */
  function CopyMatch(bytes: seq<byte>, offset: nat, length: nat): seq<byte>
    requires 1 <= offset <= |bytes|
  {
    bytes + seq(length, i requires 0 <= i < length => bytes[|bytes| - offset + i % offset])
  }

  function Apply(bytes: seq<byte>, s: Sequence): (r: seq<byte>)
    requires ValidSequence(s, |bytes|)
    ensures |r| == |bytes| + |s.literals| + s.length
  {
    CopyMatch(bytes + s.literals, s.offset, s.length)
  }

  predicate ValidBlock(bytes: seq<byte>, ss: seq<Sequence>)
    decreases |ss|
  {
    ss == [] || (ValidSequence(ss[0], |bytes|) && ValidBlock(Apply(bytes, ss[0]), ss[1..]))
  }

  /** What a list of sequences adds to the bytes produced so far. */
  function Expand(bytes: seq<byte>, ss: seq<Sequence>): seq<byte>
    requires ValidBlock(bytes, ss)
  decreases |ss|
  {
    if ss == [] then bytes else Expand(Apply(bytes, ss[0]), ss[1..])
  }

  function EncodeAll(bytes: seq<byte>, ss: seq<Sequence>): seq<byte>
    requires ValidBlock(bytes, ss)
  decreases |ss|
  {
    if ss == [] then [] else EncodeSequence(ss[0]) + EncodeAll(Apply(bytes, ss[0]), ss[1..])
  }

  /** Reads length-extension bytes; Cut when the read would leave the block. */
  function ReadExtension(base: nat, rest: seq<byte>): (r: Length)
    ensures r.Length? ==> |r.tail| < |rest|
    decreases |rest|
  {
    if rest == [] then Cut
    else if rest[0] == 255 && |rest| > 1 then ReadExtension(base + 255, rest[1..])
    else Length(base + rest[0], rest[1..])
  }

  function ReadLength(nibble: nat, rest: seq<byte>): (r: Length)
    ensures r.Length? ==> |r.tail| <= |rest|
  {
    if nibble == 15 then ReadExtension(15, rest) else Length(nibble, rest)
  }

  /** Where one round of the decoder's loop leaves it. */
  datatype Progress = Stop(result: Decoded) | More(rest: seq<byte>, out: seq<byte>)

  /** The copy reads bytes it has yet to write, but the 16-bit truncation of the
      length hides it, so the source calls memcpy on overlapping ranges. */
  predicate HiddenOverlap(offset: nat, length: nat) {
    length % 65536 <= offset < length
  }

  /** LZ4_decompress_safe on the unread input `rest` with `out` already written. */
  function Decode(rest: seq<byte>, out: seq<byte>, capacity: nat): Decoded
    decreases |rest|
  {
    match LiteralStep(rest, out, capacity)
    case Stop(result) => result
    case More(tail, out1) =>
      match MatchStep(rest[0] % 16, tail, out1, capacity)
      case Stop(result) => result
      case More(tail2, out2) => Decode(tail2, out2, capacity)
  }

  function LiteralStep(rest: seq<byte>, out: seq<byte>, capacity: nat): (p: Progress)
    ensures p.More? ==> rest != [] && |p.rest| < |rest|
  {
    if rest == [] then Stop(Undefined) else
    var l := ReadLength(rest[0] / 16, rest[1..]);
    if l.Cut? then Stop(Undefined) else
    if |out| + l.value > capacity || l.value > |l.tail| then Stop(Rejected) else
    var out1 := out + l.tail[..l.value];
    if l.value == |l.tail| then Stop(Done(out1)) else More(l.tail[l.value..], out1)
  }

  function MatchStep(nibble: nat, rest: seq<byte>, out: seq<byte>, capacity: nat): (p: Progress)
    ensures p.More? ==> |p.rest| < |rest|
  {
    if |rest| < 2 then Stop(Undefined) else
    var offset := ReadLe16(rest);
    if offset > |out| then Stop(Rejected) else
    var l := ReadLength(nibble, rest[2..]);
    if l.Cut? then Stop(Undefined) else
    if |out| + l.value + MINMATCH > capacity then Stop(Rejected) else
    if offset == 0 || HiddenOverlap(offset, l.value + MINMATCH) then Stop(Undefined) else
    More(l.tail, CopyMatch(out, offset, l.value + MINMATCH))
  }

  lemma {:induction false} ReadsExtension(base: nat, v: nat, tail: seq<byte>)
    ensures ReadExtension(base, Extension(v) + tail) == Length(base + v, tail)
    decreases v
  {
    var b := Extension(v) + tail;
    if v >= 255 {
      assert b[0] == 255 && b[1..] == Extension(v - 255) + tail;
      ReadsExtension(base + 255, v - 255, tail);
    } else {
      assert b[0] == v && b[1..] == tail;
    }
  }

  lemma ReadsLength(v: nat, tail: seq<byte>)
    ensures ReadLength(Nibble(v), LengthBytes(v) + tail) == Length(v, tail)
  {
    if v >= 15 { ReadsExtension(15, v - 15, tail); } else { assert LengthBytes(v) + tail == tail; }
  }

  lemma TokenParts(hi: nat, lo: nat)
    requires hi < 16 && lo < 16
    ensures (hi * 16 + lo) / 16 == hi && (hi * 16 + lo) % 16 == lo
  {}

  /** The decoder undoes one encoded sequence and goes on with what follows it. */
  lemma DecodesSequence(s: Sequence, tail: seq<byte>, out: seq<byte>, capacity: nat)
    requires ValidSequence(s, |out|)
    requires |out| + |s.literals| + s.length <= capacity
    ensures Decode(EncodeSequence(s) + tail, out, capacity)
         == if HiddenOverlap(s.offset, s.length) then Undefined else Decode(tail, Apply(out, s), capacity)
  {
    var low := Nibble(s.length - MINMATCH);
    assert EncodeSequence(s) + tail == LiteralPart(s.literals, low) + (MatchPart(s) + tail);
    DecodesLiterals(s.literals, low, MatchPart(s) + tail, out, capacity);
    DecodesMatch(s, tail, out + s.literals, capacity);
  }

  lemma DecodesLiterals(literals: seq<byte>, low: nat, tail: seq<byte>, out: seq<byte>, capacity: nat)
    requires |out| + |literals| <= capacity && low < 16
    ensures (LiteralPart(literals, low) + tail)[0] % 16 == low
    ensures LiteralStep(LiteralPart(literals, low) + tail, out, capacity)
         == if tail == [] then Stop(Done(out + literals)) else More(tail, out + literals)
  {
    var b := LiteralPart(literals, low) + tail;
    TokenParts(Nibble(|literals|), low);
    assert b[1..] == LengthBytes(|literals|) + (literals + tail);
    ReadsLength(|literals|, literals + tail);
    assert (literals + tail)[..|literals|] == literals && (literals + tail)[|literals|..] == tail;
  }

  lemma DecodesMatch(s: Sequence, tail: seq<byte>, out: seq<byte>, capacity: nat)
    requires 1 <= s.offset <= 65535 && s.offset <= |out| && MINMATCH <= s.length
    requires |out| + s.length <= capacity
    ensures MatchStep(Nibble(s.length - MINMATCH), MatchPart(s) + tail, out, capacity)
         == if HiddenOverlap(s.offset, s.length) then Stop(Undefined)
            else More(tail, CopyMatch(out, s.offset, s.length))
  {
    var rest := LengthBytes(s.length - MINMATCH) + tail;
    assert MatchPart(s) + tail == Le16(s.offset) + rest;
    assert (Le16(s.offset) + rest)[2..] == rest && |Le16(s.offset) + rest| >= 2;
    hide Le16, ReadLe16, ReadLength, LengthBytes, CopyMatch, MatchPart;
    ReadLe16Of(s.offset, rest);
    ReadsLength(s.length - MINMATCH, tail);
  }

  lemma DecodesLast(out: seq<byte>, last: seq<byte>, capacity: nat)
    requires |out| + |last| <= capacity
    ensures Decode(EncodeLast(last), out, capacity) == Done(out + last)
  {
    DecodesLiterals(last, 0, [], out, capacity);
    assert EncodeLast(last) + [] == EncodeLast(last);
  }

  /** Decoding a whole encoded block yields exactly what its sequences and literals
      stand for, and is undefined exactly when some copy is a hidden overlap. */
  lemma {:induction false} DecodesBlock(out: seq<byte>, ss: seq<Sequence>, last: seq<byte>, capacity: nat)
    requires ValidBlock(out, ss) && |Expand(out, ss)| + |last| <= capacity
    ensures Decode(EncodeAll(out, ss) + EncodeLast(last), out, capacity)
         == if Clear(ss) then Done(Expand(out, ss) + last) else Undefined
    decreases |ss|
  {
    hide Decode, EncodeSequence, CopyMatch, LiteralPart;
    if ss == [] {
      assert EncodeAll(out, ss) + EncodeLast(last) == EncodeLast(last);
      DecodesLast(out, last, capacity);
    } else {
      var out1 := Apply(out, ss[0]);
      var tail := EncodeAll(out1, ss[1..]) + EncodeLast(last);
      ExpandGrows(out1, ss[1..]);
      assert EncodeAll(out, ss) + EncodeLast(last) == EncodeSequence(ss[0]) + tail;
      DecodesSequence(ss[0], tail, out, capacity);
      DecodesBlock(out1, ss[1..], last, capacity);
    }
  }

  lemma ExpandGrows(out: seq<byte>, ss: seq<Sequence>)
    requires ValidBlock(out, ss)
    ensures |Expand(out, ss)| >= |out|
    decreases |ss|
  {
    if ss != [] { ExpandGrows(Apply(out, ss[0]), ss[1..]); }
  }

  /** Appending a sequence at the end of a block. */
  lemma {:induction false} Snoc(out: seq<byte>, ss: seq<Sequence>, s: Sequence)
    requires ValidBlock(out, ss) && ValidSequence(s, |Expand(out, ss)|)
    ensures ValidBlock(out, ss + [s])
    ensures Expand(out, ss + [s]) == Apply(Expand(out, ss), s)
    ensures EncodeAll(out, ss + [s]) == EncodeAll(out, ss) + EncodeSequence(s)
    decreases |ss|
  {
    hide Apply, EncodeSequence;
    if ss == [] {
      assert ss + [s] == [s];
      assert [s][1..] == [];
      assert ValidBlock(Apply(out, s), []);
      assert EncodeAll(Apply(out, s), []) == [];
    } else {
      var next := Apply(out, ss[0]);
      assert (ss + [s])[0] == ss[0] && (ss + [s])[1..] == ss[1..] + [s];
      Snoc(next, ss[1..], s);
      var x, y, z := EncodeSequence(ss[0]), EncodeAll(next, ss[1..]), EncodeSequence(s);
      assert x + (y + z) == (x + y) + z;
    }
  }

  /** A match whose bytes agree pairwise is reproduced by the periodic copy, overlap included. */
  lemma CopyReproduces(src: seq<byte>, at: nat, offset: nat, length: nat)
    requires 1 <= offset <= at && at + length <= |src|
    requires forall k :: at <= k < at + length ==> src[k - offset] == src[k]
    ensures CopyMatch(src[..at], offset, length) == src[..at + length]
  {
    var c := CopyMatch(src[..at], offset, length);
    forall k | at <= k < at + length
      ensures c[k] == src[k]
    {
      Periodic(src, at, offset, length, k);
    }
  }

  lemma {:induction false} Periodic(src: seq<byte>, at: nat, offset: nat, length: nat, k: nat)
    requires 1 <= offset <= at <= k < at + length <= |src|
    requires forall k :: at <= k < at + length ==> src[k - offset] == src[k]
    ensures 0 <= (k - at) % offset < offset
    ensures src[at - offset + (k - at) % offset] == src[k]
    decreases k
  {
    if k - at < offset {
      SmallMod(k - at, offset);
    } else {
      Periodic(src, at, offset, length, k - offset);
      ModShift(k - at, offset);
    }
  }

  lemma SmallMod(i: nat, m: nat)
    requires i < m
    ensures i % m == i
  {}

  lemma ModShift(i: nat, m: nat)
    requires 0 < m <= i
    ensures i % m == (i - m) % m
  {
    var q, r := (i - m) / m, (i - m) % m;
    Divide(i, r, q + 1, m);
  }
}
