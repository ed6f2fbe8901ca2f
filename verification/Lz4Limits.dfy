/** Inputs at the codec's limits: one the decoder cannot undo, and pages whose block is
    larger than they are. */
module Lz4Limits {
  import opened Bytes
  import opened Lz4Format
  import opened Lz4Codec

  function Same(b: byte, n: nat): seq<byte> { seq(n, _ => b) }

  lemma SameWords(b: byte, n: nat, i: nat, j: nat)
    requires i + 4 <= n && j + 4 <= n
    ensures ReadLe32(Same(b, n)[i..]) == ReadLe32(Same(b, n)[j..])
  {}

  /** The second probe of a run of equal bytes finds the first. */
  lemma SameSearch(b: byte, n: nat, table: seq<int>)
    requires n >= 12 && table == seq(HASHTABLESIZE, _ => -1)
    ensures var p := Search(Same(b, n), table, 1, 1, 1); p.ip == 2 && p.found == 1
  {
    hide Hash, ReadLe32;
    var src := Same(b, n);
    SameWords(b, n, 1, 2);
    var h := Hash(ReadLe32(src[1..]));
    var seen := table[h := 1];
    assert !IsMatch(src, table[h], 1);
    assert Search(src, table, 1, 1, 1) == Search(src, seen, 2, 1, 2);
    assert seen[h] == 1 && IsMatch(src, 1, 2);
  }

  lemma {:induction false} SameAhead(b: byte, n: nat, at: nat, offset: nat)
    requires 1 <= offset <= at <= n - LASTLITERALS
    ensures Ahead(Same(b, n), at, offset) == n - LASTLITERALS - at
    decreases n - at
  {
    if at < n - LASTLITERALS { SameAhead(b, n, at + 1, offset); }
  }

  /** Equal bytes compress to one literal and one copy of all but the last five. */
  lemma SamePlan(b: byte, n: nat)
    requires n >= 12
    ensures Plan(Same(b, n)) == [Sequence([b], 1, n - 6)]
  {
    hide Search, Hash, ReadLe32, SameWord;
    var src, table := Same(b, n), seq(HASHTABLESIZE, _ => -1);
    SameSearch(b, n, table);
    var p := Search(src, table, 1, 1, 1);
    assert Back(src, 0, 2, 1) == 1 by { assert Back(src, 0, 1, 0) == 0; }
    SameAhead(b, n, 5, 1);
    assert src[0..1] == [b];
    assert Emitted(src, 0, 2, 1) == Sequence([b], 1, n - 6) && EmittedEnd(src, 0, 2, 1) == n - 5;
    assert PlanFrom(src, Noted(src, p.table, n - 5), n - 5) == [];
  }

  /** The round trip of equal bytes fails exactly when the copy length, taken to 16 bits,
      is 0 or 1: first for 65542 bytes. */
  lemma SameRoundTrip(b: byte, n: nat)
    requires n >= 12
    ensures Clear(Plan(Same(b, n))) <==> (n - 6) % 65536 > 1
    ensures !Clear(Plan(Same(b, 65542)))
  {
    SamePlan(b, n);
    SamePlan(b, 65542);
    assert [Sequence([b], 1, n - 6)][1..] == [] && [Sequence([b], 1, 65536)][1..] == [];
  }

  /** No four bytes occur twice. */
  ghost predicate NoRepeats(src: seq<byte>) {
    forall i, j :: 0 <= i < j && j + 4 <= |src| ==> !SameWord(src, i, j)
  }

  /** Without a repetition the compressor finds nothing to copy. */
  lemma NothingToCopy(src: seq<byte>)
    requires NoRepeats(src)
    ensures Plan(src) == []
  {
    hide Search, SameWord;
    if |src| >= MFLIMIT {
      var p := Search(src, seq(HASHTABLESIZE, _ => -1), 1, 1, 1);
    }
  }

  /** Without a repetition the block takes up more than a page slot exactly from 8160
      bytes on; with one it may always fit. */
  lemma LiteralsOutgrow(data: seq<byte>)
    requires NoRepeats(data)
    ensures PlannedSize(data) > 8192 <==> |data| > 8159
  {
    hide Plan, NoRepeats;
    NothingToCopy(data);
  }

  /** Up to 8159 bytes the block always fits a page slot. */
  lemma SmallFits(data: seq<byte>)
    requires |data| <= 8159
    ensures PlannedSize(data) <= 8192
  {
    hide PlannedSize;
    PlannedBound(data);
  }

  /** A run of equal bytes takes a few bytes however long it is. */
  lemma SameSize(b: byte, n: nat)
    requires n >= 12
    ensures PlannedSize(Same(b, n)) == 10 + |LengthBytes(n - 10)| <= 11 + n / 255
  {
    hide Plan;
    SamePlan(b, n);
    var s := Sequence([b], 1, n - 6);
    assert [s][1..] == [];
    assert Costs([s]) == Cost(s) + Costs([]) && Covered([s]) == n - 5 + Covered([]);
    assert |LengthBytes(1)| == 0 && |LengthBytes(5)| == 0;
  }

  /** A full page of one row with no four bytes twice: the row's header, its string length,
      then pairs of a small and a large byte that count up. */
  function Dense(k: nat): byte
    requires k < 8192
  {
    if k >= 10 then (if k % 2 == 0 then (k - 10) / 2 / 238 else 18 + (k - 10) / 2 % 238)
    else if k == 1 then 32
    else if k < 4 then 0
    else if k < 8 then 255
    else if k == 8 then 246
    else 31
  }

  predicate DenseWord(i: nat, j: nat)
    requires i + 4 <= 8192 && j + 4 <= 8192
  {
    Dense(i) == Dense(j) && Dense(i + 1) == Dense(j + 1) && Dense(i + 2) == Dense(j + 2) && Dense(i + 3) == Dense(j + 3)
  }

  lemma DensePair(i: nat, j: nat)
    requires 10 <= i && i + 2 <= 8192 && 10 <= j && j + 2 <= 8192 && i % 2 == 0 && j % 2 == 0
    requires Dense(i) == Dense(j) && Dense(i + 1) == Dense(j + 1)
    ensures i == j
  {
    var a, b := (i - 10) / 2, (j - 10) / 2;
    assert i == 10 + 2 * a && j == 10 + 2 * b;
    assert (i + 1 - 10) / 2 == a && (j + 1 - 10) / 2 == b;
    assert a == 238 * (a / 238) + a % 238 && b == 238 * (b / 238) + b % 238;
  }

  /** Small at even places, large at odd ones. */
  lemma DenseParity(k: nat)
    requires 10 <= k < 8192
    ensures Dense(k) < 18 <==> k % 2 == 0
  {
    assert (k - 10) / 2 < 4091;
  }

  lemma DenseBody(i: nat, j: nat)
    requires 9 <= i && i + 4 <= 8192 && 9 <= j && j + 4 <= 8192 && DenseWord(i, j)
    ensures i == j
  {
    hide Dense;
    DenseParity(i + 1);
    DenseParity(j + 1);
    DenseParity(i + 2);
    if i % 2 == 0 {
      assert i >= 10 && j >= 10;
      DensePair(i, j);
    } else {
      DensePair(i + 1, j + 1);
    }
  }

  lemma DenseHeader(i: nat, j: nat)
    requires i < 9 && i < j && j + 4 <= 8192
    ensures !DenseWord(i, j)
  {
    if j >= 10 {
      DenseParity(j);
      DenseParity(j + 1);
      DenseParity(j + 2);
      DenseParity(j + 3);
    }
  }

  lemma DenseIsDense(data: seq<byte>)
    requires |data| == 8192 && forall k :: 0 <= k < 8192 ==> data[k] == Dense(k)
    ensures NoRepeats(data)
  {
    hide Dense, SameWord;
    forall i, j | 0 <= i < j && j + 4 <= |data| ensures !SameWord(data, i, j) {
      if SameWord(data, i, j) {
        SameWordBytes(data, i, j);
        assert data[j - j + i] == data[j] && data[j + 1 - j + i] == data[j + 1];
        assert data[j + 2 - j + i] == data[j + 2] && data[j + 3 - j + i] == data[j + 3];
        assert DenseWord(i, j);
        if i < 9 { DenseHeader(i, j); } else { DenseBody(i, j); }
      }
    }
  }

  /** Multiplicative hashing to twelve bits, on some words. */
  lemma HashValues()
    ensures Hash(1) == 2531 && Hash(0x0403_0201) == 995 && Hash(0x6161_6161) == 595 && Hash(0xFFFF_FFFF) == 1564
  {
    hide Hash;
    HashOf(0x1, 0, 2531, 489905);
    HashOf(0x4030201, 41597386, 995, 908209);
    HashOf(0x61616161, 1009726544, 595, 142609);
    HashOf(0xffffffff, 2654435760, 1564, 558671);
  }

  /** The twelve bits above the low twenty of the product's low word. */
  lemma HashOf(v: u32, wraps: nat, h: nat, low: nat)
    requires v * 2654435761 == wraps * 0x1_0000_0000 + h * 0x10_0000 + low && low < 0x10_0000 && h < 4096
    ensures Hash(v) == h
  {
    var product := v * 2654435761;
    Divide(product, h * 0x10_0000 + low, wraps, 0x1_0000_0000);
    Divide(h * 0x10_0000 + low, low, h, 0x10_0000);
  }

  /** Where the search of a match looks after `k` failures: the steps grow by one every 64. */
  function ProbeAt(start: nat, k: nat): nat {
    var q, r := k / 64, k % 64;
    start + k + 32 * q * q - 32 * q + q * r
  }

  lemma ProbeNext(start: nat, k: nat)
    ensures ProbeAt(start, k + 1) == ProbeAt(start, k) + k / 64 + 1
  {
    var q, r := k / 64, k % 64;
    if r < 63 {
      assert (k + 1) / 64 == q && (k + 1) % 64 == r + 1;
      assert q * (r + 1) == q * r + q;
    } else {
      assert (k + 1) / 64 == q + 1 && (k + 1) % 64 == 0;
      assert 32 * (q + 1) * (q + 1) == 32 * q * q + 64 * q + 32;
    }
  }

  /** A search looks nowhere else, and gives up when the next place is within the last bytes. */
  lemma {:induction false} SearchPlaces(src: seq<byte>, table: seq<int>, start: nat, k: nat) returns (n: nat)
    requires |table| == HASHTABLESIZE && MFLIMIT <= |src| && ProbeAt(start, k) + 4 <= |src|
    ensures var p := Search(src, table, ProbeAt(start, k), k / 64 + 1, k + 1);
            p.ip == ProbeAt(start, n) && k <= n && (p.found == -1 ==> ProbeAt(start, n + 1) > |src| - MFLIMIT)
    decreases |src| - ProbeAt(start, k)
  {
    hide Hash, ReadLe32, SameWord, ProbeAt;
    ProbeNext(start, k);
    n := k;
    var ip := ProbeAt(start, k);
    var h := Hash(ReadLe32(src[ip..]));
    if ProbeAt(start, k + 1) <= |src| - MFLIMIT && !IsMatch(src, table[h], ip) {
      n := SearchPlaces(src, table[h := ip], start, k + 1);
    }
  }

  /** Two copies: a run, and four bytes first seen at the end of the run. */
  function Sample(): seq<byte> { [1, 1, 1, 1, 1, 1, 2, 3, 4, 1, 1, 2, 3, 5, 6, 7, 8, 9, 10, 11, 12, 13] }

  lemma SampleBytes()
    ensures var s := Sample();
            && |s| == 22
            && s[0] == s[1] == s[2] == s[3] == s[4] == s[5] == 1 && s[6] == 2 && s[7] == 3 && s[8] == 4
            && s[9] == s[10] == 1 && s[11] == 2 && s[12] == 3 && s[13] == 5 && s[14] == 6
  {}

  lemma WordIs(src: seq<byte>, at: nat, a: byte, b: byte, c: byte, d: byte)
    requires at + 4 <= |src| && src[at] == a && src[at + 1] == b && src[at + 2] == c && src[at + 3] == d
    ensures ReadLe32(src[at..]) == a as int + 0x100 * (b as int) + 0x1_0000 * (c as int) + 0x100_0000 * (d as int)
  {}

  lemma SampleWords()
    ensures |Sample()| == 22
    ensures ReadLe32(Sample()[1..]) == ReadLe32(Sample()[2..]) == 0x101_0101 && ReadLe32(Sample()[4..]) == ReadLe32(Sample()[9..]) == 0x302_0101
    ensures ReadLe32(Sample()[7..]) == 0x101_0403 && ReadLe32(Sample()[8..]) == 0x201_0104
    ensures Hash(0x101_0101) == 6 && Hash(0x302_0101) == 3521 && Hash(0x101_0403) == 3635 && Hash(0x201_0104) == 2240
  {
    SampleBytes();
    hide Sample, ReadLe32, Hash;
    HashOf(0x1010101, 10409552, 6, 142001);
    HashOf(0x3020101, 31187834, 3521, 207537);
    HashOf(0x1010403, 10410027, 3635, 930067);
    HashOf(0x2010104, 20778443, 2240, 563140);
    WordIs(Sample(), 1, 1, 1, 1, 1);
    WordIs(Sample(), 2, 1, 1, 1, 1);
    WordIs(Sample(), 4, 1, 1, 2, 3);
    WordIs(Sample(), 9, 1, 1, 2, 3);
    WordIs(Sample(), 7, 3, 4, 1, 1);
    WordIs(Sample(), 8, 4, 1, 1, 2);
  }

  /** The first search ends at the run. */
  lemma SampleFirst(table: seq<int>)
    requires table == seq(HASHTABLESIZE, _ => -1)
    ensures |Sample()| == 22 && Search(Sample(), table, 1, 1, 1) == Probe(2, 1, table[6 := 2])
  {
    SampleWords();
    hide Sample, Hash, ReadLe32;
    assert Search(Sample(), table, 1, 1, 1) == Search(Sample(), table[6 := 1], 2, 1, 2);
    assert table[6 := 1][6 := 2] == table[6 := 2];
  }

  /** The second finds what was entered for the last bytes of the run. */
  lemma SampleSecond(table: seq<int>)
    requires |table| == HASHTABLESIZE && table[3521] == 4 && table[3635] == table[2240] == -1
    ensures |Sample()| == 22 && Search(Sample(), table, 7, 1, 1).ip == 9 && Search(Sample(), table, 7, 1, 1).found == 4
  {
    SampleWords();
    hide Sample, Hash, ReadLe32;
    var one := table[3635 := 7];
    var two := one[2240 := 8];
    assert Search(Sample(), table, 7, 1, 1) == Search(Sample(), one, 8, 1, 2);
    assert Search(Sample(), one, 8, 1, 2) == Search(Sample(), two, 9, 1, 3);
    assert two[3521] == 4;
  }

  lemma SampleMatches()
    ensures |Sample()| == 22
    ensures IsMatch(Sample(), 1, 2) && Emitted(Sample(), 0, 2, 1) == Sequence([1], 1, 5) && EmittedEnd(Sample(), 0, 2, 1) == 6
    ensures IsMatch(Sample(), 4, 9) && Emitted(Sample(), 6, 9, 4) == Sequence([2, 3, 4], 5, 4) && EmittedEnd(Sample(), 6, 9, 4) == 13
  {
    SampleWords();
    SampleBytes();
    hide Sample, Hash, ReadLe32;
    var src := Sample();
    assert Back(src, 0, 2, 1) == 1 by { assert Back(src, 0, 1, 0) == 0; }
    assert Ahead(src, 5, 1) == 1 by { assert Ahead(src, 6, 1) == 0; }
    assert Back(src, 6, 9, 4) == 0 && Ahead(src, 13, 5) == 0;
    assert src[0..1] == [1] && src[6..9] == [2, 3, 4];
  }

  lemma SampleRest(table: seq<int>)
    requires |table| == HASHTABLESIZE && table[3521] == 4 && table[3635] == table[2240] == -1
    ensures |Sample()| == 22 && PlanFrom(Sample(), table, 6) == [Sequence([2, 3, 4], 5, 4)]
  {
    hide Sample, Search, Hash, ReadLe32, IsMatch, Emitted, EmittedEnd, Noted;
    SampleMatches();
    SampleSecond(table);
    SampleLast(Noted(Sample(), Search(Sample(), table, 7, 1, 1).table, 13));
  }

  lemma SampleLast(table: seq<int>)
    requires |table| == HASHTABLESIZE
    ensures |Sample()| == 22 && PlanFrom(Sample(), table, 13) == []
  {
    SampleBytes();
    hide Sample, Hash, ReadLe32;
  }

  /** What the compressor copies of it. */
  lemma SamplePlan()
    ensures Plan(Sample()) == [Sequence([1], 1, 5), Sequence([2, 3, 4], 5, 4)]
  {
    hide Sample, Search, Hash, ReadLe32, IsMatch, Emitted, EmittedEnd;
    var table := seq(HASHTABLESIZE, _ => -1);
    SampleWords();
    SampleMatches();
    SampleFirst(table);
    SampleRest(Noted(Sample(), table[6 := 2], 6));
  }

  lemma SampleSequences()
    ensures var a, b := Sequence([1], 1, 5), Sequence([2, 3, 4], 5, 4);
            && ValidBlock([], [a, b]) && EncodeAll([], [a, b]) == [0x11, 1, 1, 0] + [0x30, 2, 3, 4, 5, 0]
            && |Expand([], [a, b])| == 13
  {
    var a, b := Sequence([1], 1, 5), Sequence([2, 3, 4], 5, 4);
    assert [a, b][1..] == [b] && [b][1..] == [];
    assert EncodeSequence(a) == [0x11, 1, 1, 0] && EncodeSequence(b) == [0x30, 2, 3, 4, 5, 0];
    hide CopyMatch, EncodeSequence;
    var one := Apply([], a);
    assert ValidBlock(one, [b]) by { assert ValidBlock(Apply(one, b), []); }
    assert EncodeAll([], [a, b]) == EncodeSequence(a) + EncodeAll(one, [b]);
    assert EncodeAll(one, [b]) == EncodeSequence(b) + EncodeAll(Apply(one, b), []);
    assert Expand([], [a, b]) == Expand(one, [b]) == Apply(one, b);
  }

  /** And its block: token, literals and offset of each copy, then the closing literals. */
  lemma SampleBlock(block: seq<byte>, last: seq<byte>)
    requires Encodes(Sample(), block, Plan(Sample()), last)
    ensures block == [0x11, 1, 1, 0] + [0x30, 2, 3, 4, 5, 0] + [0x90, 5, 6, 7, 8, 9, 10, 11, 12, 13]
  {
    hide Plan, Clear, EncodeAll, Expand, ValidBlock;
    SamplePlan();
    SampleSequences();
    assert Sample()[13..] == [5, 6, 7, 8, 9, 10, 11, 12, 13];
    assert last == Sample()[13..];
  }

  /** Small blocks: one that decodes, and one for each way to be refused or undefined. */
  lemma SmallBlocks()
    ensures Decode([0x10, 7] + [1, 0, 0x10, 9], [], 6) == Done([7, 7, 7, 7, 7] + [9])
    ensures Decode([0x10, 7], [], 0) == Rejected && Decode([0x20, 7], [], 9) == Rejected
    ensures Decode([0x10, 7] + [2, 0, 0], [], 9) == Rejected && Decode([0x10, 7] + [1, 0, 0], [], 4) == Rejected
    ensures Decode([], [], 9) == Undefined && Decode([0x10, 7] + [1], [], 9) == Undefined
    ensures Decode([0x10, 7] + [0, 0, 0], [], 9) == Undefined && Decode([0xF0], [], 9) == Undefined
  {
    hide LiteralStep, MatchStep;
    OneLiteral([1, 0, 0x10, 9], 6);
    FourCopied();
    LastLiteral();
    OneLiteral([2, 0, 0], 9);
    OneLiteral([1, 0, 0], 4);
    OneLiteral([1], 9);
    OneLiteral([0, 0, 0], 9);
    BadMatches();
    BadLiterals();
  }

  lemma OneLiteral(rest: seq<byte>, capacity: nat)
    requires rest != [] && capacity >= 1
    ensures LiteralStep([0x10, 7] + rest, [], capacity) == More(rest, [7]) && ([0x10, 7] + rest)[0] == 0x10
  {
    var b: seq<byte> := [0x10, 7] + rest;
    assert b[1..] == [7] + rest && ([7] + rest)[..1] == [7] && ([7] + rest)[1..] == rest;
  }

  lemma FourCopied()
    ensures MatchStep(0, [1, 0, 0x10, 9], [7], 6) == More([0x10, 9], [7, 7, 7, 7, 7])
  {
    assert CopyMatch([7], 1, 4) == [7, 7, 7, 7, 7];
  }

  lemma LastLiteral()
    ensures LiteralStep([0x10, 9], [7, 7, 7, 7, 7], 6) == Stop(Done([7, 7, 7, 7, 7] + [9]))
  {
    var b: seq<byte> := [0x10, 9];
    assert b[1..] == [9] && b[1..][..1] == [9];
  }

  lemma BadMatches()
    ensures MatchStep(0, [2, 0, 0], [7], 9) == Stop(Rejected) && MatchStep(0, [1, 0, 0], [7], 4) == Stop(Rejected)
    ensures MatchStep(0, [1], [7], 9) == Stop(Undefined) && MatchStep(0, [0, 0, 0], [7], 9) == Stop(Undefined)
  {}

  lemma BadLiterals()
    ensures LiteralStep([0x10, 7], [], 0) == Stop(Rejected) && LiteralStep([0x20, 7], [], 9) == Stop(Rejected)
    ensures LiteralStep([], [], 9) == Stop(Undefined) && LiteralStep([0xF0], [], 9) == Stop(Undefined)
  {}
}
