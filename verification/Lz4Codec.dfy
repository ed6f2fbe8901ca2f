/** The bundled LZ4 block compressor and decompressor of src/compression.cpp. */
module Lz4Codec {
  import opened Bytes
  import opened Lz4Format

  const HASHTABLESIZE := 4096

  function CompressBound(n: nat): nat { n + n / 255 + 16 }

  /** Multiplicative hash of four bytes, truncated to 32 bits and cut to 12. */
  function Hash(v: u32): (h: nat)
    ensures h < HASHTABLESIZE
  {
    (v * 2654435761) % 0x1_0000_0000 / 0x10_0000
  }

  /** Four equal bytes from position `a` and from position `b`. */
  predicate SameWord(src: seq<byte>, a: nat, b: nat)
    requires a + 4 <= |src| && b + 4 <= |src|
  {
    ReadLe32(src[a..]) == ReadLe32(src[b..])
  }

  lemma SameWordBytes(src: seq<byte>, a: nat, b: nat)
    requires a + 4 <= |src| && b + 4 <= |src| && SameWord(src, a, b)
    ensures forall k :: b <= k < b + 4 ==> src[k - b + a] == src[k]
  {
    Le32Injective(src[a..], src[b..]);
    var x, y := src[a..][..4], src[b..][..4];
    forall k | b <= k < b + 4 ensures src[k - b + a] == src[k] {
      assert x[k - b] == y[k - b];
    }
  }

  /** The 65536-byte window the search accepts, with four bytes in common. */
  predicate IsMatch(src: seq<byte>, candidate: int, ip: nat) {
    0 <= candidate < ip && ip + 4 <= |src| && ip - candidate <= 65535 && SameWord(src, candidate, ip)
  }

  /** Where a search ends: at a match or, with -1, when the next probe would pass mflimit. */
  datatype Probe = Probe(ip: nat, found: int, table: seq<int>)

  /** The accelerating search from position `ip`. */
  function Search(src: seq<byte>, table: seq<int>, ip: nat, step: nat, searchMatchNb: nat): (p: Probe)
    requires |table| == HASHTABLESIZE && ip + 4 <= |src| && MFLIMIT <= |src| && step >= 1
    ensures p.found == -1 || (p.ip < |src| - MFLIMIT && IsMatch(src, p.found, p.ip))
    ensures ip <= p.ip && |p.table| == HASHTABLESIZE
    decreases |src| - ip
  {
    var h := Hash(ReadLe32(src[ip..]));
    var found, seen, next := table[h], table[h := ip], ip + step;
    if next > |src| - MFLIMIT then Probe(ip, -1, seen)
    else if IsMatch(src, found, ip) then Probe(ip, found, seen)
    else Search(src, seen, next, searchMatchNb / 64 + 1, searchMatchNb + 1)
  }

  lemma SearchStep(src: seq<byte>, table: seq<int>, ip: nat, step: nat, searchMatchNb: nat)
    requires |table| == HASHTABLESIZE && ip + 4 <= |src| && MFLIMIT <= |src| && step >= 1
    ensures var h := Hash(ReadLe32(src[ip..])); var found, seen, next := table[h], table[h := ip], ip + step;
            Search(src, table, ip, step, searchMatchNb)
            == if next > |src| - MFLIMIT then Probe(ip, -1, seen)
               else if IsMatch(src, found, ip) then Probe(ip, found, seen)
               else Search(src, seen, next, searchMatchNb / 64 + 1, searchMatchNb + 1)
  {}

  /** How far a match grows back, stopping at the anchor. */
  function Back(src: seq<byte>, anchor: nat, ip: nat, candidate: nat): (b: nat)
    requires anchor <= ip <= |src| && candidate < ip
    ensures b <= candidate && b <= ip - anchor
    decreases candidate
  {
    if ip > anchor && candidate > 0 && src[ip - 1] == src[candidate - 1] then 1 + Back(src, anchor, ip - 1, candidate - 1) else 0
  }

  /** How far a match grows forward past its first four bytes. */
  function Ahead(src: seq<byte>, at: nat, offset: nat): (a: nat)
    requires 1 <= offset <= at && LASTLITERALS <= |src|
    ensures at <= |src| - LASTLITERALS ==> at + a <= |src| - LASTLITERALS
    decreases |src| - at
  {
    if at < |src| - LASTLITERALS && src[at - offset] == src[at] then 1 + Ahead(src, at + 1, offset) else 0
  }

  /** The sequence the compressor emits for a match found at `at`. */
  function Emitted(src: seq<byte>, anchor: nat, at: nat, found: nat): Sequence
    requires anchor <= at && LASTLITERALS <= |src| && IsMatch(src, found, at)
  {
    var ip, offset := at - Back(src, anchor, at, found), at - found;
    Sequence(src[anchor..ip], offset, MINMATCH + Ahead(src, ip + MINMATCH, offset))
  }

  /** The anchor after it. */
  function EmittedEnd(src: seq<byte>, anchor: nat, at: nat, found: nat): (next: nat)
    requires anchor <= at && LASTLITERALS <= |src| && IsMatch(src, found, at)
    ensures anchor + MINMATCH <= next
  {
    var ip := at - Back(src, anchor, at, found);
    ip + MINMATCH + Ahead(src, ip + MINMATCH, at - found)
  }

  /** The sequences the compressor emits from an anchor on, given its hash table. */
  function PlanFrom(src: seq<byte>, table: seq<int>, anchor: nat): seq<Sequence>
    requires |table| == HASHTABLESIZE && MFLIMIT <= |src|
    decreases |src| - anchor
  {
    if anchor > |src| - MFLIMIT then [] else
    var p := Search(src, table, anchor + 1, 1, 1);
    if p.found == -1 then [] else
    var next := EmittedEnd(src, anchor, p.ip, p.found);
    [Emitted(src, anchor, p.ip, p.found)] + PlanFrom(src, Noted(src, p.table, next), next)
  }

  /** The hash table after the position two before the new anchor is entered. */
  function Noted(src: seq<byte>, table: seq<int>, anchor: nat): (t: seq<int>)
    requires |table| == HASHTABLESIZE && MFLIMIT <= |src|
    ensures |t| == HASHTABLESIZE
  {
    if 2 <= anchor <= |src| - MFLIMIT then table[Hash(ReadLe32(src[anchor - 2..])) := anchor - 2] else table
  }

  /** What the compressor makes of an input: a function of the input alone. */
  function Plan(src: seq<byte>): seq<Sequence> {
    if |src| < MFLIMIT then [] else PlanFrom(src, seq(HASHTABLESIZE, _ => -1), 0)
  }

  /** Every occupied slot names a position before `ip`. */
  ghost predicate Earlier(table: array<int>, ip: nat)
    reads table
  {
    table.Length == HASHTABLESIZE && forall h :: 0 <= h < HASHTABLESIZE ==> -1 <= table[h] < ip
  }

  /** The accelerating search: ends at a match or, with -1, when the next probe would pass mflimit. */
  method FindMatch(src: seq<byte>, table: array<int>, start: nat) returns (ip: nat, found: int)
    requires |src| >= MFLIMIT && start <= |src| - MFLIMIT + 1 && Earlier(table, start)
    requires start + 4 <= |src|
    modifies table
    ensures Probe(ip, found, table[..]) == Search(src, old(table[..]), start, 1, 1)
    ensures start <= ip
    ensures found == -1 || (ip < |src| - MFLIMIT && 0 <= found < ip && IsMatch(src, found, ip))
    ensures Earlier(table, ip + 1)
  {
    hide Search, Hash, ReadLe32, SameWord;
    var forwardIp, step, searchMatchNb := start, 1, 1;
    while true
      invariant start <= forwardIp && forwardIp + 4 <= |src| && step >= 1 && searchMatchNb >= 1
      invariant Earlier(table, forwardIp)
      invariant Search(src, table[..], forwardIp, step, searchMatchNb) == Search(src, old(table[..]), start, 1, 1)
      decreases |src| - forwardIp
    {
      SearchStep(src, table[..], forwardIp, step, searchMatchNb);
      var h := Hash(ReadLe32(src[forwardIp..]));
      found := table[h];
      ghost var before := table[..];
      table[h] := forwardIp;
      assert table[..] == before[h := forwardIp];
      ip := forwardIp;
      forwardIp := forwardIp + step;
      step := searchMatchNb / 64 + 1;
      searchMatchNb := searchMatchNb + 1;
      if forwardIp > |src| - MFLIMIT {
        return ip, -1;
      }
      if IsMatch(src, found, ip) {
        return;
      }
    }
  }

  /** Moves the match back over equal preceding bytes, never past the anchor. */
  method CatchUp(src: seq<byte>, anchor: nat, at: nat, from: nat) returns (ip: nat, candidate: nat)
    requires from < at && anchor <= at && at + 4 <= |src|
    requires forall k :: at <= k < at + 4 ==> src[k - at + from] == src[k]
    ensures anchor <= ip <= at && ip - candidate == at - from && candidate <= from
    ensures ip == at - Back(src, anchor, at, from)
    ensures forall k :: ip <= k < at + 4 ==> src[k - (at - from)] == src[k]
  {
    ip, candidate := at, from;
    while ip > anchor && candidate > 0 && src[ip - 1] == src[candidate - 1]
      invariant anchor <= ip <= at && ip - candidate == at - from && candidate <= from
      invariant ip - Back(src, anchor, ip, candidate) == at - Back(src, anchor, at, from)
      invariant forall k :: ip <= k < at + 4 ==> src[k - (at - from)] == src[k]
    {
      ip, candidate := ip - 1, candidate - 1;
    }
  }

  /** Extends a match of at least four bytes, stopping LASTLITERALS before the end. */
  method MatchLength(src: seq<byte>, ip: nat, offset: nat, ghost known: nat) returns (ml: nat)
    requires 1 <= offset <= ip && ip + MINMATCH <= known <= |src| - LASTLITERALS
    requires forall k :: ip <= k < known ==> src[k - offset] == src[k]
    ensures ml == Ahead(src, ip + MINMATCH, offset)
    ensures known <= ip + MINMATCH + ml <= |src| - LASTLITERALS
    ensures forall k :: ip <= k < ip + MINMATCH + ml ==> src[k - offset] == src[k]
  {
    ml := 0;
    while ip + MINMATCH + ml < |src| - LASTLITERALS && src[ip + MINMATCH + ml - offset] == src[ip + MINMATCH + ml]
      invariant ip + MINMATCH + ml <= |src| - LASTLITERALS
      invariant ml + Ahead(src, ip + MINMATCH + ml, offset) == Ahead(src, ip + MINMATCH, offset)
      invariant forall k :: ip <= k < ip + MINMATCH + ml ==> src[k - offset] == src[k]
    {
      ml := ml + 1;
    }
  }

  /** Each writer extends the written prefix dst[..at] by the bytes it names. */
  method WriteExtension(dst: array<byte>, at: nat, v: nat) returns (op: nat)
    requires at + v / 255 + 1 <= dst.Length
    modifies dst
    ensures op == at + v / 255 + 1
    ensures dst[..op] == old(dst[..at]) + Extension(v)
  {
    op := at;
    var left := v;
    while left >= 255
      invariant op + left / 255 + 1 == at + v / 255 + 1
      invariant dst[..op] + Extension(left) == old(dst[..at]) + Extension(v)
    {
      ghost var before := dst[..op];
      PutByte(dst, op, 255);
      assert before + Extension(left) == (before + [255]) + Extension(left - 255);
      op, left := op + 1, left - 255;
    }
    PutByte(dst, op, left);
    op := op + 1;
  }

  /** memcpy. */
  method CopyIn(dst: array<byte>, at: nat, bytes: seq<byte>) returns (op: nat)
    requires at + |bytes| <= dst.Length
    modifies dst
    ensures op == at + |bytes|
    ensures dst[..op] == old(dst[..at]) + bytes
  {
    forall i | 0 <= i < |bytes| {
      dst[at + i] := bytes[i];
    }
    op := at + |bytes|;
  }

  method WriteToken(dst: array<byte>, at: nat, ll: nat) returns (op: nat)
    requires at + 1 + |LengthBytes(ll)| <= dst.Length
    modifies dst
    ensures op == at + 1 + |LengthBytes(ll)|
    ensures dst[..op] == old(dst[..at]) + ([Nibble(ll) * 16] + LengthBytes(ll))
  {
    hide Extension;
    PutByte(dst, at, if ll >= 15 then 15 * 16 else ll * 16);
    op := at + 1;
    if ll >= 15 {
      op := WriteExtension(dst, op, ll - 15);
    }
  }

  method PutByte(dst: array<byte>, at: nat, b: byte)
    requires at < dst.Length
    modifies dst
    ensures dst[..at + 1] == old(dst[..at]) + [b]
  {
    dst[at] := b;
  }

  /** Token with literal length, length extension and the literals themselves. */
  method WriteLiterals(dst: array<byte>, at: nat, literals: seq<byte>) returns (op: nat)
    requires at + |LiteralPart(literals, 0)| <= dst.Length
    modifies dst
    ensures op == at + |LiteralPart(literals, 0)|
    ensures dst[..op] == old(dst[..at]) + LiteralPart(literals, 0)
  {
    op := WriteToken(dst, at, |literals|);
    op := CopyIn(dst, op, literals);
  }

  /** `*token |= low` under a token whose low nibble is still zero. */
  method OrNibble(dst: array<byte>, token: nat, ghost end: nat, ghost literals: seq<byte>, ghost after: seq<byte>, low: nat)
    requires token < end <= dst.Length && low < 16
    requires dst[..end] == dst[..token] + (LiteralPart(literals, 0) + after)
    modifies dst
    ensures dst[..end] == old(dst[..token]) + (LiteralPart(literals, low) + after)
  {
    ghost var body := dst[..end];
    assert dst[token] == body[token] == Nibble(|literals|) * 16;
    dst[token] := dst[token] + low;
    assert dst[..end] == body[token := body[token] + low];
  }

  /** Offset and match length after the literals; the low nibble goes into the
      token written before them. */
  method WriteMatch(dst: array<byte>, token: nat, at: nat, ghost s: Sequence, offset: nat, ml: nat) returns (op: nat)
    requires token < at && at + 2 + |LengthBytes(ml)| <= dst.Length
    requires 1 <= offset <= 65535 && s.offset == offset && s.length == ml + MINMATCH
    requires dst[..at] == dst[..token] + LiteralPart(s.literals, 0)
    modifies dst
    ensures op == at + 2 + |LengthBytes(ml)|
    ensures dst[..op] == old(dst[..token]) + EncodeSequence(s)
  {
    hide LiteralPart, LengthBytes, Le16;
    ghost var before, literals, code := dst[..token], s.literals, Le16(offset);
    op := CopyIn(dst, at, Le16(offset));
    assert dst[..token] == dst[..op][..token] == before;
    Reassociate(before, LiteralPart(literals, 0), code, []);
    OrNibble(dst, token, op, literals, code, if ml >= 15 then 15 else ml);
    op := WriteLength(dst, op, ml);
    Reassociate(before, LiteralPart(literals, Nibble(ml)), code, LengthBytes(ml));
  }

  /** The extension bytes of a length, if it has any. */
  method WriteLength(dst: array<byte>, at: nat, v: nat) returns (op: nat)
    requires at + |LengthBytes(v)| <= dst.Length
    modifies dst
    ensures op == at + |LengthBytes(v)|
    ensures dst[..op] == old(dst[..at]) + LengthBytes(v)
  {
    op := at;
    if v >= 15 {
      op := WriteExtension(dst, op, v - 15);
    }
  }

  lemma Reassociate(a: seq<byte>, b: seq<byte>, c: seq<byte>, d: seq<byte>)
    ensures (a + (b + c)) + d == a + (b + (c + d))
    ensures d == [] ==> a + (b + c) == a + (b + (c + d))
  {}

  /** What the compressor has done after consuming src[..anchor]. */
  ghost predicate Encoded(src: seq<byte>, anchor: nat, bytes: seq<byte>, ss: seq<Sequence>) {
    && anchor <= |src|
    && ValidBlock([], ss) && Expand([], ss) == src[..anchor]
    && bytes == EncodeAll([], ss)
    && |bytes| <= anchor + anchor / 255
    && (|src| < 65536 ==> Clear(ss))
  }

  /** Size of one encoded sequence against the input it covers. */
  lemma SequenceCost(anchor: nat, s: Sequence)
    requires 1 <= s.offset <= 65535 && MINMATCH <= s.length
    ensures var next := anchor + |s.literals| + s.length;
            anchor + anchor / 255 + |EncodeSequence(s)| <= next + next / 255
  {
    var ll, ml := |s.literals|, s.length - MINMATCH;
    assert |LengthBytes(ll)| <= 1 + ll / 255;
    assert |LengthBytes(ml)| <= ml;
    assert anchor / 255 + ll / 255 <= (anchor + ll + s.length) / 255;
  }

  lemma {:induction false} ClearSnoc(ss: seq<Sequence>, s: Sequence)
    ensures Clear(ss + [s]) <==> Clear(ss) && !HiddenOverlap(s.offset, s.length)
  {
    if ss == [] {
      assert (ss + [s])[1..] == [];
    } else {
      assert (ss + [s])[1..] == ss[1..] + [s];
      ClearSnoc(ss[1..], s);
    }
  }

  /** One more sequence keeps the invariant. */
  lemma EncodedStep(src: seq<byte>, anchor: nat, bytes: seq<byte>, ss: seq<Sequence>, ip: nat, offset: nat, length: nat)
    requires Encoded(src, anchor, bytes, ss)
    requires anchor <= ip && ip + length <= |src| && 1 <= offset <= 65535 && offset <= ip && MINMATCH <= length
    requires forall k :: ip <= k < ip + length ==> src[k - offset] == src[k]
    ensures var s := Sequence(src[anchor..ip], offset, length);
            Encoded(src, ip + length, bytes + EncodeSequence(s), ss + [s])
  {
    var s := Sequence(src[anchor..ip], offset, length);
    assert src[..anchor] + src[anchor..ip] == src[..ip];
    Snoc([], ss, s);
    CopyReproduces(src, ip, offset, length);
    SequenceCost(anchor, s);
    ClearSnoc(ss, s);
    if |src| < 65536 { SmallMod(length, 65536); }
  }

  /** A block whose sequences and closing literals stand for `src`. */
  ghost predicate Encodes(src: seq<byte>, block: seq<byte>, ss: seq<Sequence>, last: seq<byte>) {
    && ValidBlock([], ss)
    && block == EncodeAll([], ss) + EncodeLast(last)
    && Expand([], ss) + last == src
    && (|src| >= LASTLITERALS ==> |last| >= LASTLITERALS)
    && (|src| < 65536 ==> Clear(ss))
  }

  /** The round trip, and exactly when it fails: some planned copy is a hidden overlap. */
  lemma RoundTrip(src: seq<byte>, block: seq<byte>, last: seq<byte>)
    requires Encodes(src, block, Plan(src), last)
    ensures Decode(block, [], |src|) == if Clear(Plan(src)) then Done(src) else Undefined
    ensures |src| < 65536 ==> Decode(block, [], |src|) == Done(src)
  {
    hide Plan;
    DecodesBlock([], Plan(src), last, |src|);
  }

  /** The encoded length of a sequence. */
  function Cost(s: Sequence): nat {
    1 + |LengthBytes(|s.literals|)| + |s.literals| + 2 + if s.length >= MINMATCH then |LengthBytes(s.length - MINMATCH)| else 0
  }

  function Costs(ss: seq<Sequence>): nat { if ss == [] then 0 else Cost(ss[0]) + Costs(ss[1..]) }

  /** The input a list of sequences covers. */
  function Covered(ss: seq<Sequence>): nat { if ss == [] then 0 else |ss[0].literals| + ss[0].length + Covered(ss[1..]) }

  /** The length of the block the compressor makes of an input, from its plan alone. */
  function PlannedSize(src: seq<byte>): nat {
    var done := Covered(Plan(src));
    var left := if done <= |src| then |src| - done else 0;
    Costs(Plan(src)) + 1 + |LengthBytes(left)| + left
  }

  lemma {:induction false} BlockCosts(out: seq<byte>, ss: seq<Sequence>)
    requires ValidBlock(out, ss)
    ensures |EncodeAll(out, ss)| == Costs(ss) && |Expand(out, ss)| == |out| + Covered(ss)
    decreases |ss|
  {
    hide EncodeSequence, LengthBytes;
    if ss != [] {
      SequenceSize(ss[0]);
      BlockCosts(Apply(out, ss[0]), ss[1..]);
    }
  }

  /** A block that encodes an input by its plan has the planned size. */
  lemma SizeIsPlanned(src: seq<byte>, block: seq<byte>, last: seq<byte>)
    requires Encodes(src, block, Plan(src), last)
    ensures |block| == PlannedSize(src)
  {
    hide Plan, LengthBytes, Clear;
    BlockCosts([], Plan(src));
  }

  lemma EmittedCovers(src: seq<byte>, anchor: nat, at: nat, found: nat)
    requires anchor <= at && LASTLITERALS <= |src| && IsMatch(src, found, at) && at + MINMATCH <= |src| - LASTLITERALS
    ensures var s := Emitted(src, anchor, at, found);
            && anchor + |s.literals| + s.length == EmittedEnd(src, anchor, at, found) <= |src| - LASTLITERALS
            && 1 <= s.offset <= 65535 && MINMATCH <= s.length
  {
    hide SameWord;
  }

  /** What a plan costs against the input it covers. */
  lemma {:induction false} PlanCosts(src: seq<byte>, table: seq<int>, anchor: nat)
    requires |table| == HASHTABLESIZE && MFLIMIT <= |src| && anchor <= |src| - LASTLITERALS
    ensures var ss := PlanFrom(src, table, anchor); var end := anchor + Covered(ss);
            end <= |src| - LASTLITERALS && anchor + anchor / 255 + Costs(ss) <= end + end / 255
    decreases |src| - anchor
  {
    hide Search, Emitted, EmittedEnd, Noted, SameWord, Cost;
    if anchor <= |src| - MFLIMIT {
      var p := Search(src, table, anchor + 1, 1, 1);
      if p.found != -1 {
        var s, next := Emitted(src, anchor, p.ip, p.found), EmittedEnd(src, anchor, p.ip, p.found);
        EmittedCovers(src, anchor, p.ip, p.found);
        CostBound(anchor, s);
        var rest := PlanFrom(src, Noted(src, p.table, next), next);
        PlanCosts(src, Noted(src, p.table, next), next);
        assert ([s] + rest)[1..] == rest;
      }
    }
  }

  lemma CostBound(anchor: nat, s: Sequence)
    requires 1 <= s.offset <= 65535 && MINMATCH <= s.length
    ensures var next := anchor + |s.literals| + s.length; anchor + anchor / 255 + Cost(s) <= next + next / 255
  {
    hide LengthBytes;
    SequenceSize(s);
    SequenceCost(anchor, s);
  }

  /** The planned block never exceeds the input by more than one byte in 255 and two more. */
  lemma PlannedBound(src: seq<byte>)
    ensures PlannedSize(src) <= |src| + |src| / 255 + 2
  {
    hide PlanFrom;
    if |src| >= MFLIMIT { PlanCosts(src, seq(HASHTABLESIZE, _ => -1), 0); }
    var done := Covered(Plan(src));
    var left := |src| - done;
    assert |LengthBytes(left)| <= 1 + left / 255;
    assert done / 255 + left / 255 <= |src| / 255;
  }

  /** Capacities for which no write passes the end of the buffer. */
  predicate Roomy(n: nat, capacity: nat) {
    capacity >= n + n / 255 + 2 || (n < 65536 && capacity + 5 >= n + n / 255)
  }

  /** How a step of the compressor ends: written, refused by its own guard, or about to
      write past the end of the buffer, where the model stops. */
  datatype Room = Enough | Refused | Past

  lemma LiteralRoom(anchor: nat, op: nat, n: nat, capacity: nat, literals: seq<byte>)
    requires anchor + |literals| == n && op <= anchor + anchor / 255
    requires op + |literals| + 1 + |literals| / 256 + 4 <= capacity
    ensures Roomy(n, capacity) ==> op + |LiteralPart(literals, 0)| <= capacity
    ensures op + |LiteralPart(literals, 0)| <= n + n / 255 + 2
  {
    var ll := |literals|;
    assert |LengthBytes(ll)| <= 1 + ll / 255;
    assert anchor / 255 + ll / 255 <= n / 255;
    if n < 65536 {
      assert ll / 255 <= ll / 256 + 2;
    }
  }

  /** LZ4_compress_default, for every capacity. No write passes the end of a roomy buffer,
      a buffer of CompressBound(n) bytes is never refused, and the block is the planned one. */
  method Compress(src: seq<byte>, dst: array<byte>) returns (room: Room, n: nat, ghost last: seq<byte>)
    modifies dst
    ensures dst.Length >= CompressBound(|src|) ==> room == Enough
    ensures room == Past ==> !Roomy(|src|, dst.Length)
    ensures n <= dst.Length && n <= |src| + |src| / 255 + 2
    ensures room == Enough ==> n > 0 && n == PlannedSize(src) && Encodes(src, dst[..n], Plan(src), last)
    ensures room != Enough ==> n == 0
  {
    hide Plan, PlannedSize, Expand, EncodeAll, ValidBlock, Clear;
    n, last := 0, src;
    var anchor, op;
    ghost var ss;
    room, anchor, op, ss := CompressMatches(src, dst);
    var ll := |src| - anchor;
    if room == Enough {
      if op + ll + 1 + ll / 256 + 4 > dst.Length {
        room := Refused;
      } else {
        last := src[anchor..];
        LiteralRoom(anchor, op, |src|, dst.Length, last);
        if op + |LiteralPart(src[anchor..], 0)| > dst.Length {
          room := Past;
        } else {
          n := WriteLiterals(dst, op, src[anchor..]);
          assert src[..anchor] + last == src;
          SizeIsPlanned(src, dst[..n], last);
        }
      }
    }
  }

  /** Everything up to the closing literals. The anchor grows every round, so the loop ends. */
  method CompressMatches(src: seq<byte>, dst: array<byte>) returns (room: Room, anchor: nat, op: nat, ghost ss: seq<Sequence>)
    modifies dst
    ensures dst.Length >= CompressBound(|src|) ==> room == Enough
    ensures room == Past ==> !Roomy(|src|, dst.Length)
    ensures anchor <= |src| && op <= dst.Length
    ensures room == Enough ==> ss == Plan(src) && Encoded(src, anchor, dst[..op], ss)
    ensures room == Enough && |src| >= LASTLITERALS ==> anchor <= |src| - LASTLITERALS
  {
    hide Encoded, PlanFrom, Roomy;
    room, anchor, op, ss := Enough, 0, 0, [];
    NothingEncoded(src, dst);
    if |src| < MFLIMIT {
      return;
    }
    var table := new int[HASHTABLESIZE](_ => -1);
    assert table[..] == seq(HASHTABLESIZE, _ => -1);
    var more := true;
    while more && anchor <= |src| - MFLIMIT
      invariant anchor <= |src| - LASTLITERALS && op <= dst.Length
      invariant fresh(table) && table.Length == HASHTABLESIZE
      invariant room == Enough ==> Encoded(src, anchor, dst[..op], ss)
      invariant more ==> room == Enough && Earlier(table, anchor + 1)
      invariant room == Enough ==> (if more then ss + PlanFrom(src, table[..], anchor) else ss) == Plan(src)
      invariant dst.Length >= CompressBound(|src|) ==> room == Enough
      invariant room == Past ==> !Roomy(|src|, dst.Length)
      decreases more, |src| - anchor
    {
      more, room, anchor, op, ss := CompressRound(src, dst, table, anchor, op, ss);
    }
    if more { PlanEnds(src, table[..], anchor, ss); }
  }

  /** One round: search, and emit what is found. */
  method CompressRound(src: seq<byte>, dst: array<byte>, table: array<int>, anchor: nat, start: nat, ghost ss: seq<Sequence>)
    returns (more: bool, room: Room, next: nat, op: nat, ghost ss': seq<Sequence>)
    requires MFLIMIT <= |src| && anchor <= |src| - MFLIMIT && start <= dst.Length
    requires Encoded(src, anchor, dst[..start], ss) && Earlier(table, anchor + 1)
    modifies dst, table
    ensures dst.Length >= CompressBound(|src|) ==> room == Enough
    ensures room == Past ==> !Roomy(|src|, dst.Length)
    ensures next <= |src| - LASTLITERALS && op <= dst.Length
    ensures room == Enough ==> Encoded(src, next, dst[..op], ss')
    ensures more ==> room == Enough && anchor < next && Earlier(table, next + 1)
    ensures room == Enough ==> (if more then ss' + PlanFrom(src, table[..], next) else ss') == ss + PlanFrom(src, old(table[..]), anchor)
  {
    hide Search, Emitted, EmittedEnd, Encoded, PlanFrom, Hash, ReadLe32, Roomy, SameWord;
    PlanStep(src, table[..], anchor, ss);
    var ip, found := FindMatch(src, table, anchor + 1);
    more, room, next, op, ss' := false, Enough, anchor, start, ss;
    if found != -1 {
      room, next, op, ss' := EmitSequence(src, dst, anchor, start, ss, ip, found);
      more := room == Enough;
      if more {
        NoteAnchor(src, table, next);
      }
    }
  }

  method NoteAnchor(src: seq<byte>, table: array<int>, anchor: nat)
    requires MFLIMIT <= |src| && 2 <= anchor && Earlier(table, anchor)
    modifies table
    ensures Earlier(table, anchor + 1) && table[..] == Noted(src, old(table[..]), anchor)
  {
    hide Hash, ReadLe32;
    if anchor <= |src| - MFLIMIT {
      table[Hash(ReadLe32(src[anchor - 2..]))] := anchor - 2;
    }
  }

  lemma NothingEncoded(src: seq<byte>, dst: array<byte>)
    ensures Encoded(src, 0, dst[..0], [])
  {
    assert src[..0] == [];
  }

  lemma PlanStep(src: seq<byte>, table: seq<int>, from: nat, done: seq<Sequence>)
    requires |table| == HASHTABLESIZE && MFLIMIT <= |src| && from <= |src| - MFLIMIT
    ensures var p := Search(src, table, from + 1, 1, 1);
            done + PlanFrom(src, table, from)
            == if p.found == -1 then done
               else (done + [Emitted(src, from, p.ip, p.found)])
                    + PlanFrom(src, Noted(src, p.table, EmittedEnd(src, from, p.ip, p.found)), EmittedEnd(src, from, p.ip, p.found))
  {
    hide Search, Emitted, EmittedEnd, Noted, SameWord;
    var p := Search(src, table, from + 1, 1, 1);
    if p.found == -1 {
      assert done + [] == done;
    } else {
      var next := EmittedEnd(src, from, p.ip, p.found);
      var x, rest := Emitted(src, from, p.ip, p.found), PlanFrom(src, Noted(src, p.table, next), next);
      assert done + ([x] + rest) == (done + [x]) + rest;
    }
  }

  lemma PlanEnds(src: seq<byte>, table: seq<int>, anchor: nat, done: seq<Sequence>)
    requires |table| == HASHTABLESIZE && MFLIMIT <= |src| && anchor > |src| - MFLIMIT
    ensures done + PlanFrom(src, table, anchor) == done
  {
    assert done + [] == done;
  }

  /** The body of the compressor's loop once a match is found. The new anchor is
      past every position the hash table holds. */
  method EmitSequence(src: seq<byte>, dst: array<byte>, anchor: nat, start: nat, ghost ss: seq<Sequence>, at: nat, found: nat)
    returns (room: Room, next: nat, op: nat, ghost ss': seq<Sequence>)
    requires start <= dst.Length
    requires Encoded(src, anchor, dst[..start], ss)
    requires anchor < at < |src| - MFLIMIT && IsMatch(src, found, at)
    modifies dst
    ensures dst.Length >= CompressBound(|src|) ==> room == Enough
    ensures room == Past ==> !Roomy(|src|, dst.Length)
    ensures room == Enough ==> at + MINMATCH <= next == EmittedEnd(src, anchor, at, found) && ss' == ss + [Emitted(src, anchor, at, found)]
    ensures op <= dst.Length && next <= |src| - LASTLITERALS
    ensures room == Enough ==> Encoded(src, next, dst[..op], ss')
  {
    hide Encoded, ReadLe32, Back, Ahead, Roomy;
    SameWordBytes(src, found, at);
    EncodedStart(src, anchor, dst[..start], ss);
    var ip, candidate := CatchUp(src, anchor, at, found);
    var ll := ip - anchor;
    op, ss', next, room := start, ss, anchor, Refused;
    BoundIsRoomy(|src|, dst.Length, start, anchor, ll);
    if start + 1 + ll + (2 + 1 + LASTLITERALS) + ll / 256 <= dst.Length {
      room, next, op, ss' := EmitMatch(src, dst, anchor, start, ss, ip, ip - candidate, at + 4);
    }
  }

  lemma EncodedStart(src: seq<byte>, anchor: nat, bytes: seq<byte>, ss: seq<Sequence>)
    requires Encoded(src, anchor, bytes, ss)
    ensures anchor <= |src| && |bytes| <= anchor + anchor / 255
  {}

  lemma BoundIsRoomy(n: nat, capacity: nat, start: nat, anchor: nat, ll: nat)
    requires start <= anchor + anchor / 255 && anchor + ll + MFLIMIT <= n
    ensures capacity >= CompressBound(n) ==> Roomy(n, capacity) && start + 1 + ll + (2 + 1 + LASTLITERALS) + ll / 256 <= capacity
  {
    assert anchor / 255 + ll / 256 <= n / 255;
  }

  /** Match length and output of one sequence, after the guard. */
  method EmitMatch(src: seq<byte>, dst: array<byte>, anchor: nat, start: nat, ghost ss: seq<Sequence>, ip: nat, offset: nat, ghost known: nat)
    returns (room: Room, next: nat, op: nat, ghost ss': seq<Sequence>)
    requires start <= dst.Length && Encoded(src, anchor, dst[..start], ss)
    requires 1 <= offset <= 65535 && anchor <= ip && offset <= ip && ip + MINMATCH <= known <= |src| - LASTLITERALS
    requires forall k :: ip <= k < known ==> src[k - offset] == src[k]
    modifies dst
    ensures room != Refused && (room == Past ==> !Roomy(|src|, dst.Length))
    ensures known <= next == ip + MINMATCH + Ahead(src, ip + MINMATCH, offset) <= |src| - LASTLITERALS && op <= dst.Length
    ensures room == Enough ==> ss' == ss + [Sequence(src[anchor..ip], offset, MINMATCH + Ahead(src, ip + MINMATCH, offset))]
    ensures room == Enough ==> Encoded(src, next, dst[..op], ss')
  {
    hide EncodeSequence, Encoded, Ahead, Roomy, LengthBytes;
    var ll := ip - anchor;
    var ml := MatchLength(src, ip, offset, known);
    EncodedStart(src, anchor, dst[..start], ss);
    op, ss', next := start, ss, ip + MINMATCH + ml;
    ghost var s := Sequence(src[anchor..ip], offset, ml + MINMATCH);
    SequenceRoom(|src|, dst.Length, start, anchor, s);
    SequenceSize(s);
    room := if start + 1 + |LengthBytes(ll)| + ll + 2 + |LengthBytes(ml)| > dst.Length then Past else Enough;
    if room == Enough {
      EncodedStep(src, anchor, dst[..start], ss, ip, offset, ml + MINMATCH);
      ss' := ss + [s];
      op := WriteSequence(dst, start, src[anchor..ip], offset, ml);
    }
  }

  lemma SequenceSize(s: Sequence)
    requires 1 <= s.offset <= 65535 && MINMATCH <= s.length
    ensures |EncodeSequence(s)| == 1 + |LengthBytes(|s.literals|)| + |s.literals| + 2 + |LengthBytes(s.length - MINMATCH)|
  {}

  method WriteSequence(dst: array<byte>, start: nat, literals: seq<byte>, offset: nat, ml: nat) returns (op: nat)
    requires 1 <= offset <= 65535
    requires start + |EncodeSequence(Sequence(literals, offset, ml + MINMATCH))| <= dst.Length
    modifies dst
    ensures op <= dst.Length
    ensures dst[..op] == old(dst[..start]) + EncodeSequence(Sequence(literals, offset, ml + MINMATCH))
  {
    ghost var before := dst[..start];
    op := WriteLiterals(dst, start, literals);
    assert dst[..start] == dst[..op][..start] == before;
    op := WriteMatch(dst, start, op, Sequence(literals, offset, ml + MINMATCH), offset, ml);
  }

  /** A whole sequence, its unguarded match-length bytes included, fits a roomy buffer. */
  lemma SequenceRoom(n: nat, capacity: nat, start: nat, anchor: nat, s: Sequence)
    requires start <= anchor + anchor / 255
    requires 1 <= s.offset <= 65535 && MINMATCH <= s.length
    requires anchor + |s.literals| + s.length <= n - LASTLITERALS
    ensures Roomy(n, capacity) ==> start + |EncodeSequence(s)| <= capacity
  {
    SequenceCost(anchor, s);
    assert (anchor + |s.literals| + s.length) / 255 <= n / 255;
  }

  /** Nibble plus extension bytes from position `at`; false when the block ends first. */
  method TakeLength(src: seq<byte>, nibble: nat, at: nat) returns (ok: bool, value: nat, ip: nat)
    requires at <= |src|
    ensures at <= ip <= |src|
    ensures ReadLength(nibble, src[at..]) == if ok then Length(value, src[ip..]) else Cut
  {
    ok, value, ip := true, nibble, at;
    if nibble == 15 {
      ok := ip < |src|;
      while ok
        invariant at <= ip && (if ok then ip < |src| else ip == |src|)
        invariant ReadLength(nibble, src[at..]) == if ok then ReadExtension(value, src[ip..]) else Cut
        decreases |src| - ip
      {
        var s := src[ip];
        value, ip := value + s, ip + 1;
        assert src[ip - 1..][1..] == src[ip..];
        if s != 255 || ip >= |src| {
          break;
        }
      }
    }
  }

  /** The decoder's copy loop: writes match[i % offset], or a plain memcpy when nothing overlaps. */
  method CopyBack(dst: array<byte>, at: nat, offset: nat, length: nat) returns (op: nat)
    requires 1 <= offset <= at && at + length <= dst.Length
    requires !HiddenOverlap(offset, length)
    modifies dst
    ensures op == at + length
    ensures dst[..op] == CopyMatch(old(dst[..at]), offset, length)
  {
    hide CopyMatch;
    if offset < length % 65536 {
      op := CopyPeriodic(dst, at, offset, length);
    } else {
      PlainCopy(dst[..at], offset, length);
      op := CopyIn(dst, at, dst[..at][at - offset..at - offset + length]);
    }
  }

  /** Without an overlap the periodic copy is a plain one. */
  lemma PlainCopy(bytes: seq<byte>, offset: nat, length: nat)
    requires 1 <= offset <= |bytes| && length <= offset
    ensures CopyMatch(bytes, offset, length) == bytes + bytes[|bytes| - offset..|bytes| - offset + length]
  {
    forall i | 0 <= i < length ensures i % offset == i {
      SmallMod(i, offset);
    }
  }

  method CopyPeriodic(dst: array<byte>, at: nat, offset: nat, length: nat) returns (op: nat)
    requires 1 <= offset <= at && at + length <= dst.Length
    modifies dst
    ensures op == at + length
    ensures dst[..op] == CopyMatch(old(dst[..at]), offset, length)
  {
    ghost var before := dst[..at];
    op := at;
    for i := 0 to length
      invariant op == at + i
      invariant dst[..at] == before
      invariant dst[..op] == CopyMatch(before, offset, i)
    {
      ghost var written := dst[..op];
      dst[op] := dst[at - offset + i % offset];
      CopyOneMore(before, offset, i);
      op := op + 1;
      assert dst[..op] == written + [dst[op - 1]];
    }
  }

  lemma CopyOneMore(bytes: seq<byte>, offset: nat, i: nat)
    requires 1 <= offset <= |bytes|
    ensures CopyMatch(bytes, offset, i + 1) == CopyMatch(bytes, offset, i) + [bytes[|bytes| - offset + i % offset]]
  {}

  /** How the decoder ends: normally, with its error return, or undefined. */
  datatype End = Good | Bad | Wild

  function Failure(e: End): Decoded { if e.Bad? then Rejected else Undefined }

  /** LZ4_decompress_safe, on every input: the decoded bytes, the error return, or the
      point where the language leaves it undefined and the model stops. */
  method Decompress(src: seq<byte>, dst: array<byte>) returns (e: End, n: nat)
    modifies dst
    ensures n <= dst.Length
    ensures Decode(src, [], dst.Length) == if e.Good? then Done(dst[..n]) else Failure(e)
  {
    var ip: nat := 0;
    n := 0;
    assert src[0..] == src && dst[..0] == [];
    while true
      invariant ip <= |src| && n <= dst.Length
      invariant Decode(src, [], dst.Length) == Decode(src[ip..], dst[..n], dst.Length)
      decreases |src| - ip
    {
      var token := if ip < |src| then src[ip] else 0;
      e, ip, n := DecompressLiterals(src, dst, ip, n);
      if !e.Good? || ip == |src| {
        return;
      }
      e, ip, n := DecompressMatch(src, dst, token % 16, ip, n);
      if !e.Good? {
        return;
      }
    }
  }

  method DecompressLiterals(src: seq<byte>, dst: array<byte>, at: nat, start: nat)
    returns (e: End, ip: nat, op: nat)
    requires at <= |src| && start <= dst.Length
    modifies dst
    ensures at <= ip <= |src| && op <= dst.Length
    ensures e.Good? ==> at < ip
    ensures LiteralStep(src[at..], old(dst[..start]), dst.Length)
         == if !e.Good? then Stop(Failure(e)) else if ip == |src| then Stop(Done(dst[..op])) else More(src[ip..], dst[..op])
  {
    e, ip, op := Wild, at, start;
    if at == |src| {
      return;
    }
    var okLen, ll, p := TakeLength(src, src[at] / 16, at + 1);
    assert src[at..][1..] == src[at + 1..];
    if !okLen {
      return;
    }
    if start + ll > dst.Length || p + ll > |src| {
      e := Bad;
      return;
    }
    e, ip := Good, p + ll;
    op := CopyIn(dst, start, src[p..ip]);
    assert src[p..][..ll] == src[p..ip] && src[p..][ll..] == src[ip..];
  }

  method DecompressMatch(src: seq<byte>, dst: array<byte>, nibble: nat, at: nat, start: nat)
    returns (e: End, ip: nat, op: nat)
    requires at <= |src| && start <= dst.Length
    modifies dst
    ensures at <= ip <= |src| && op <= dst.Length
    ensures MatchStep(nibble, src[at..], old(dst[..start]), dst.Length)
         == if e.Good? then More(src[ip..], dst[..op]) else Stop(Failure(e))
  {
    e, ip, op := Wild, at, start;
    if at + 2 > |src| {
      return;
    }
    var offset := ReadLe16(src[at..]);
    if offset > start {
      e := Bad;
      return;
    }
    var okLen, ml, p := TakeLength(src, nibble, at + 2);
    assert src[at..][2..] == src[at + 2..];
    if !okLen {
      return;
    }
    if start + ml + MINMATCH > dst.Length {
      e := Bad;
      return;
    }
    if offset == 0 || HiddenOverlap(offset, ml + MINMATCH) {
      return;
    }
    e, ip := Good, p;
    op := CopyBack(dst, start, offset, ml + MINMATCH);
  }
}
