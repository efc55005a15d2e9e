/**
 The streaming SHA-1 of sha1.cc. The context is updated in place exactly as the C code does; `message` is the
 ghost record of everything written so far, and the invariant ties every field of the context to it.
 */
module Sha1Stream {
  import opened Bytes
  import Std = Sha1Standard
  import opened Sha1Standard

  // The macros F1 and F3 compute Ch and Maj with fewer operations.

  lemma ChBits(x: bv32, y: bv32, z: bv32)
    ensures z ^ (x & (y ^ z)) == (x & y) ^ (!x & z)
  {
  }

  lemma MajBits(x: bv32, y: bv32, z: bv32)
    ensures (x & y) | (z & (x | y)) == (x & y) ^ (x & z) ^ (y & z)
  {
  }

  function F1(x: bv32, y: bv32, z: bv32): (r: bv32)
    ensures r == Ch(x, y, z)
  {
    ChBits(x, y, z);
    z ^ (x & (y ^ z))
  }

  function F2(x: bv32, y: bv32, z: bv32): (r: bv32)
    ensures r == Parity(x, y, z)
  {
    x ^ y ^ z
  }

  function F3(x: bv32, y: bv32, z: bv32): (r: bv32)
    ensures r == Maj(x, y, z)
  {
    MajBits(x, y, z);
    (x & y) | (z & (x | y))
  }

  function F4(x: bv32, y: bv32, z: bv32): (r: bv32)
    ensures r == Parity(x, y, z)
  {
    x ^ y ^ z
  }

  type Mixer = (bv32, bv32, bv32) -> bv32

  /** Which of the four macros the C code names in round t. */
  function MacroFor(t: nat): Mixer {
    if t < 20 then F1 else if t < 40 then F2 else if t < 60 then F3 else F4
  }

  lemma MacroIsF(t: nat, x: bv32, y: bv32, z: bv32)
    ensures MacroFor(t)(x, y, z) == F(t, x, y, z)
  {
    hide Ch, Parity, Maj, F1, F2, F3, F4;
    assert F1(x, y, z) == Ch(x, y, z);
    assert F3(x, y, z) == Maj(x, y, z);
  }

  const K1: bv32 := 0x5A827999
  const K2: bv32 := 0x6ED9EBA1
  const K3: bv32 := 0x8F1BBCDC
  const K4: bv32 := 0xCA62C1D6

  /** The sixteen words of `x` are the schedule words t-16 .. t-1, each in the slot given by its low four bits. */
  ghost predicate Window(x: seq<bv32>, m: Block, t: nat) {
    && |x| == 16 <= t
    && forall j | t - 16 <= j < t :: x[j % 16] == W(m, j)
  }

  lemma SlotsDiffer(i: nat, j: nat)
    requires i < j < i + 16
    ensures i % 16 != j % 16
  {
  }

  lemma XorReversed(p: bv32, q: bv32, r: bv32, s: bv32)
    ensures s ^ r ^ q ^ p == p ^ q ^ r ^ s
  {
  }

  /** The exclusive or of M, oldest word first. */
  function XorBack(s: bv32, r: bv32, q: bv32, p: bv32): (x: bv32)
    ensures x == Xor(p, q, r, s)
  {
    XorReversed(p, q, r, s);
    s ^ r ^ q ^ p
  }

  ghost predicate Scheduled(m: Block, t: nat, w: bv32) {
    w == W(m, t)
  }

  /** The macro M: overwrites the oldest schedule word with the next one. */
  method M(x: array<bv32>, i: nat, ghost m: Block) returns (w: bv32)
    requires x.Length == 16 && Window(x[..], m, i)
    modifies x
    ensures Window(x[..], m, i + 1)
    ensures Scheduled(m, i, w)
  {
    assert i % 16 == (i - 16) % 16;
    assert x[..][(i - 16) % 16] == W(m, i - 16);
    assert x[..][(i - 14) % 16] == W(m, i - 14);
    assert x[..][(i - 8) % 16] == W(m, i - 8);
    assert x[..][(i - 3) % 16] == W(m, i - 3);
    hide Xor, Rotl;
    var tm := XorBack(x[i % 16], x[(i - 14) % 16], x[(i - 8) % 16], x[(i - 3) % 16]);
    w := Rotl(tm, 1);
    ghost var before := x[..];
    x[i % 16] := w;
    forall j | i + 1 - 16 <= j < i + 1 ensures x[..][j % 16] == W(m, j) {
      if j < i {
        SlotsDiffer(j, i);
        assert before[j % 16] == W(m, j);
      }
    }
  }

  lemma SumIsRegrouped(e: bv32, r: bv32, f: bv32, k: bv32, w: bv32)
    ensures e + (r + f + k + w) == r + f + e + k + w
  {
  }

  /** The `e += rol(a, 5) + f(b, c, d) + k + m` of the macro R. */
  function Accumulate(e: bv32, r: bv32, f: bv32, k: bv32, w: bv32): (sum: bv32)
    ensures sum == Sum(r, f, e, k, w)
  {
    SumIsRegrouped(e, r, f, k, w);
    e + (r + f + k + w)
  }

  lemma EarlyWords(m: Block)
    ensures forall t | 0 <= t < 16 :: W(m, t) == m[t]
  {
    hide Rotl;
  }

  lemma Begin(h: Words, m: Block, x: seq<bv32>)
    requires x == m
    ensures Window(x, m, 16)
    ensures After(h, m, 0, h.a, h.b, h.c, h.d, h.e)
  {
    hide Rotl;
    EarlyWords(m);
  }

  lemma Finish(h: Words, m: Block, a: bv32, b: bv32, c: bv32, d: bv32, e: bv32)
    requires After(h, m, 80, a, b, c, d, e)
    ensures Compress(h, m) == Plus(Words(a, b, c, d, e), h)
  {
    hide Rounds, Plus;
  }

  lemma NextRound(h: Words, m: Block, t: nat)
    ensures Rounds(h, m, t + 1) == Round(t, Rounds(h, m, t), W(m, t))
  {
    hide W, Round;
  }

  /** The variables, taken in this order, are the working variables after t rounds. */
  ghost predicate After(h: Words, m: Block, t: nat, a: bv32, b: bv32, c: bv32, d: bv32, e: bv32) {
    Words(a, b, c, d, e) == Rounds(h, m, t)
  }

  /** The macro R: one round, with the five variables renamed by the caller instead of being shifted along. */
  method R(ghost h: Words, ghost m: Block, ghost t: nat, a: bv32, b: bv32, c: bv32, d: bv32, e: bv32, f: Mixer, k: bv32,
           w: bv32) returns (e': bv32, b': bv32)
    requires After(h, m, t, a, b, c, d, e)
    requires f == MacroFor(t) && k == K(t) && Scheduled(m, t, w)
    ensures After(h, m, t + 1, e', a, b', c, d)
  {
    hide Rounds, W, F, K, Rotl, Sum, Accumulate, MacroFor;
    NextRound(h, m, t);
    MacroIsF(t, b, c, d);
    e' := Accumulate(e, Rotl(a, 5), f(b, c, d), k, w);
    b' := Rotl(b, 30);
  }

  /** The macro R with the macro M as its last argument. */
  method RM(ghost h: Words, ghost m: Block, ghost t: nat, a: bv32, b: bv32, c: bv32, d: bv32, e: bv32, f: Mixer,
            k: bv32, x: array<bv32>, i: nat) returns (e': bv32, b': bv32)
    requires After(h, m, t, a, b, c, d, e) && i == t
    requires x.Length == 16 && Window(x[..], m, i) && f == MacroFor(t) && k == K(t)
    modifies x
    ensures After(h, m, t + 1, e', a, b', c, d) && Window(x[..], m, i + 1)
  {
    hide After, Scheduled, Window, MacroFor, K;
    var w := M(x, i, m);
    e', b' := R(h, m, t, a, b, c, d, e, f, k, w);
  }

  /** Copies a block into host words; the byte shuffle of the little-endian branch. */
  method LoadWords(data: ByteString) returns (x: array<bv32>)
    requires |data| == 64
    ensures fresh(x) && x[..] == BlockWords(data)
  {
    hide Word;
    x := new bv32[16];
    for i := 0 to 16
      invariant forall j | 0 <= j < i :: x[j] == BlockWords(data)[j]
    {
      x[i] := Word(data[4 * i], data[4 * i + 1], data[4 * i + 2], data[4 * i + 3]);
    }
  }

  lemma LoadedWords(x: seq<bv32>, m: Block)
    requires Window(x, m, 16)
    ensures |x| == 16 && forall j | 0 <= j < 16 :: Scheduled(m, j, x[j])
  {
    forall j | 0 <= j < 16 ensures Scheduled(m, j, x[j]) {
      assert x[j % 16] == W(m, j);
    }
  }

  /** Rounds 0 to 19. */
  method FirstRounds(ghost h: Words, ghost m: Block, x: array<bv32>, a0: bv32, b0: bv32, c0: bv32, d0: bv32, e0: bv32)
    returns (a: bv32, b: bv32, c: bv32, d: bv32, e: bv32)
    requires x.Length == 16 && Window(x[..], m, 16)
    requires After(h, m, 0, a0, b0, c0, d0, e0)
    modifies x
    ensures Window(x[..], m, 20)
    ensures After(h, m, 20, a, b, c, d, e)
  {
    hide After, Scheduled, Window;
    LoadedWords(x[..], m);
    a, b, c, d, e := a0, b0, c0, d0, e0;
    e, b := R(h, m, 0, a, b, c, d, e, F1, K1, x[0]);
    d, a := R(h, m, 1, e, a, b, c, d, F1, K1, x[1]);
    c, e := R(h, m, 2, d, e, a, b, c, F1, K1, x[2]);
    b, d := R(h, m, 3, c, d, e, a, b, F1, K1, x[3]);
    a, c := R(h, m, 4, b, c, d, e, a, F1, K1, x[4]);
    e, b := R(h, m, 5, a, b, c, d, e, F1, K1, x[5]);
    d, a := R(h, m, 6, e, a, b, c, d, F1, K1, x[6]);
    c, e := R(h, m, 7, d, e, a, b, c, F1, K1, x[7]);
    b, d := R(h, m, 8, c, d, e, a, b, F1, K1, x[8]);
    a, c := R(h, m, 9, b, c, d, e, a, F1, K1, x[9]);
    e, b := R(h, m, 10, a, b, c, d, e, F1, K1, x[10]);
    d, a := R(h, m, 11, e, a, b, c, d, F1, K1, x[11]);
    c, e := R(h, m, 12, d, e, a, b, c, F1, K1, x[12]);
    b, d := R(h, m, 13, c, d, e, a, b, F1, K1, x[13]);
    a, c := R(h, m, 14, b, c, d, e, a, F1, K1, x[14]);
    e, b := R(h, m, 15, a, b, c, d, e, F1, K1, x[15]);
    d, a := RM(h, m, 16, e, a, b, c, d, F1, K1, x, 16);
    c, e := RM(h, m, 17, d, e, a, b, c, F1, K1, x, 17);
    b, d := RM(h, m, 18, c, d, e, a, b, F1, K1, x, 18);
    a, c := RM(h, m, 19, b, c, d, e, a, F1, K1, x, 19);
  }

  /** Rounds 20 to 39. */
  method SecondRounds(ghost h: Words, ghost m: Block, x: array<bv32>, a0: bv32, b0: bv32, c0: bv32, d0: bv32, e0: bv32)
    returns (a: bv32, b: bv32, c: bv32, d: bv32, e: bv32)
    requires x.Length == 16 && Window(x[..], m, 20)
    requires After(h, m, 20, a0, b0, c0, d0, e0)
    modifies x
    ensures Window(x[..], m, 40)
    ensures After(h, m, 40, a, b, c, d, e)
  {
    hide After, Scheduled, Window;
    a, b, c, d, e := a0, b0, c0, d0, e0;
    e, b := RM(h, m, 20, a, b, c, d, e, F2, K2, x, 20);
    d, a := RM(h, m, 21, e, a, b, c, d, F2, K2, x, 21);
    c, e := RM(h, m, 22, d, e, a, b, c, F2, K2, x, 22);
    b, d := RM(h, m, 23, c, d, e, a, b, F2, K2, x, 23);
    a, c := RM(h, m, 24, b, c, d, e, a, F2, K2, x, 24);
    e, b := RM(h, m, 25, a, b, c, d, e, F2, K2, x, 25);
    d, a := RM(h, m, 26, e, a, b, c, d, F2, K2, x, 26);
    c, e := RM(h, m, 27, d, e, a, b, c, F2, K2, x, 27);
    b, d := RM(h, m, 28, c, d, e, a, b, F2, K2, x, 28);
    a, c := RM(h, m, 29, b, c, d, e, a, F2, K2, x, 29);
    e, b := RM(h, m, 30, a, b, c, d, e, F2, K2, x, 30);
    d, a := RM(h, m, 31, e, a, b, c, d, F2, K2, x, 31);
    c, e := RM(h, m, 32, d, e, a, b, c, F2, K2, x, 32);
    b, d := RM(h, m, 33, c, d, e, a, b, F2, K2, x, 33);
    a, c := RM(h, m, 34, b, c, d, e, a, F2, K2, x, 34);
    e, b := RM(h, m, 35, a, b, c, d, e, F2, K2, x, 35);
    d, a := RM(h, m, 36, e, a, b, c, d, F2, K2, x, 36);
    c, e := RM(h, m, 37, d, e, a, b, c, F2, K2, x, 37);
    b, d := RM(h, m, 38, c, d, e, a, b, F2, K2, x, 38);
    a, c := RM(h, m, 39, b, c, d, e, a, F2, K2, x, 39);
  }

  /** Rounds 40 to 59. */
  method ThirdRounds(ghost h: Words, ghost m: Block, x: array<bv32>, a0: bv32, b0: bv32, c0: bv32, d0: bv32, e0: bv32)
    returns (a: bv32, b: bv32, c: bv32, d: bv32, e: bv32)
    requires x.Length == 16 && Window(x[..], m, 40)
    requires After(h, m, 40, a0, b0, c0, d0, e0)
    modifies x
    ensures Window(x[..], m, 60)
    ensures After(h, m, 60, a, b, c, d, e)
  {
    hide After, Scheduled, Window;
    a, b, c, d, e := a0, b0, c0, d0, e0;
    e, b := RM(h, m, 40, a, b, c, d, e, F3, K3, x, 40);
    d, a := RM(h, m, 41, e, a, b, c, d, F3, K3, x, 41);
    c, e := RM(h, m, 42, d, e, a, b, c, F3, K3, x, 42);
    b, d := RM(h, m, 43, c, d, e, a, b, F3, K3, x, 43);
    a, c := RM(h, m, 44, b, c, d, e, a, F3, K3, x, 44);
    e, b := RM(h, m, 45, a, b, c, d, e, F3, K3, x, 45);
    d, a := RM(h, m, 46, e, a, b, c, d, F3, K3, x, 46);
    c, e := RM(h, m, 47, d, e, a, b, c, F3, K3, x, 47);
    b, d := RM(h, m, 48, c, d, e, a, b, F3, K3, x, 48);
    a, c := RM(h, m, 49, b, c, d, e, a, F3, K3, x, 49);
    e, b := RM(h, m, 50, a, b, c, d, e, F3, K3, x, 50);
    d, a := RM(h, m, 51, e, a, b, c, d, F3, K3, x, 51);
    c, e := RM(h, m, 52, d, e, a, b, c, F3, K3, x, 52);
    b, d := RM(h, m, 53, c, d, e, a, b, F3, K3, x, 53);
    a, c := RM(h, m, 54, b, c, d, e, a, F3, K3, x, 54);
    e, b := RM(h, m, 55, a, b, c, d, e, F3, K3, x, 55);
    d, a := RM(h, m, 56, e, a, b, c, d, F3, K3, x, 56);
    c, e := RM(h, m, 57, d, e, a, b, c, F3, K3, x, 57);
    b, d := RM(h, m, 58, c, d, e, a, b, F3, K3, x, 58);
    a, c := RM(h, m, 59, b, c, d, e, a, F3, K3, x, 59);
  }

  /** Rounds 60 to 79. */
  method FourthRounds(ghost h: Words, ghost m: Block, x: array<bv32>, a0: bv32, b0: bv32, c0: bv32, d0: bv32, e0: bv32)
    returns (a: bv32, b: bv32, c: bv32, d: bv32, e: bv32)
    requires x.Length == 16 && Window(x[..], m, 60)
    requires After(h, m, 60, a0, b0, c0, d0, e0)
    modifies x
    ensures Window(x[..], m, 80)
    ensures After(h, m, 80, a, b, c, d, e)
  {
    hide After, Scheduled, Window;
    a, b, c, d, e := a0, b0, c0, d0, e0;
    e, b := RM(h, m, 60, a, b, c, d, e, F4, K4, x, 60);
    d, a := RM(h, m, 61, e, a, b, c, d, F4, K4, x, 61);
    c, e := RM(h, m, 62, d, e, a, b, c, F4, K4, x, 62);
    b, d := RM(h, m, 63, c, d, e, a, b, F4, K4, x, 63);
    a, c := RM(h, m, 64, b, c, d, e, a, F4, K4, x, 64);
    e, b := RM(h, m, 65, a, b, c, d, e, F4, K4, x, 65);
    d, a := RM(h, m, 66, e, a, b, c, d, F4, K4, x, 66);
    c, e := RM(h, m, 67, d, e, a, b, c, F4, K4, x, 67);
    b, d := RM(h, m, 68, c, d, e, a, b, F4, K4, x, 68);
    a, c := RM(h, m, 69, b, c, d, e, a, F4, K4, x, 69);
    e, b := RM(h, m, 70, a, b, c, d, e, F4, K4, x, 70);
    d, a := RM(h, m, 71, e, a, b, c, d, F4, K4, x, 71);
    c, e := RM(h, m, 72, d, e, a, b, c, F4, K4, x, 72);
    b, d := RM(h, m, 73, c, d, e, a, b, F4, K4, x, 73);
    a, c := RM(h, m, 74, b, c, d, e, a, F4, K4, x, 74);
    e, b := RM(h, m, 75, a, b, c, d, e, F4, K4, x, 75);
    d, a := RM(h, m, 76, e, a, b, c, d, F4, K4, x, 76);
    c, e := RM(h, m, 77, d, e, a, b, c, F4, K4, x, 77);
    b, d := RM(h, m, 78, c, d, e, a, b, F4, K4, x, 78);
    a, c := RM(h, m, 79, b, c, d, e, a, F4, K4, x, 79);
  }

  lemma BlockHashed(before: ByteString, block: ByteString)
    requires |before| % 64 == 0 && |block| == 64
    ensures HashBlocks(before + block) == Compress(HashBlocks(before), BlockWords(block))
  {
    hide Compress, BlockWords;
    var all := before + block;
    assert all[..|all| - 64] == before && all[|all| - 64..] == block;
  }

  lemma BlockCounted(n: nat)
    requires n % 64 == 0
    ensures (n + 64) / 64 % TWO_TO_THE_32 == (n / 64 % TWO_TO_THE_32 + 1) % TWO_TO_THE_32
  {
    assert (n + 64) / 64 == n / 64 + 1;
  }

  /** What sha1_final leaves in the buffer, for a message of any length. */
  function WrappedDigest(message: ByteString): ByteString {
    DigestBytes(HashBlocks(message + Padding(|message|, 8 * (|message| % 0x40_0000_0000))))
  }

  lemma ShiftedBlocks(t: UInt32)
    ensures t * 64 == t / 0x400_0000 * TWO_TO_THE_32 + t * 64 % TWO_TO_THE_32
    ensures t / 0x400_0000 < 64
    ensures t * 64 % TWO_TO_THE_32 <= TWO_TO_THE_32 - 64
  {
    assert t * 64 % TWO_TO_THE_32 == 64 * (t % 0x400_0000);
  }

  lemma ShiftedBytes(t: UInt32)
    ensures t * 8 == t / 0x2000_0000 * TWO_TO_THE_32 + t * 8 % TWO_TO_THE_32
    ensures t / 0x2000_0000 < 8
  {
  }

  /** The 64-bit bit count of sha1_final, built from 32-bit halves. */
  method BitCount(nblocks: UInt32, count: nat) returns (msb: UInt32, lsb: UInt32)
    requires count < 64
    ensures msb * TWO_TO_THE_32 + lsb == 8 * (64 * nblocks + count)
  {
    var t: UInt32 := nblocks;
    ShiftedBlocks(t);
    lsb := t * 64 % TWO_TO_THE_32;
    msb := t / 0x400_0000;
    t := lsb;
    lsb := (lsb + count) % TWO_TO_THE_32;
    if lsb < t {
      assert false; // the carry never happens: lsb is a multiple of 64
    }
    t := lsb;
    ShiftedBytes(t);
    lsb := lsb * 8 % TWO_TO_THE_32;
    msb := msb * 8 % TWO_TO_THE_32;
    msb := msb + t / 0x2000_0000; // an `|=` in C; the three low bits of msb are clear
  }

  lemma LengthFromBlocks(length: nat, count: nat)
    requires count == length % 64
    ensures 64 * ((length - count) / 64 % TWO_TO_THE_32) + count == length % 0x40_0000_0000
  {
  }

  lemma BigEndianHalves(msb: UInt32, lsb: UInt32)
    ensures BigEndian64(msb * TWO_TO_THE_32 + lsb) == BigEndian32(msb) + BigEndian32(lsb)
  {
    hide BigEndian32;
  }

  lemma BigEndian32Value(x: UInt32)
    ensures var s: seq<int> := BigEndian32(x); ((s[0] * 256 + s[1]) * 256 + s[2]) * 256 + s[3] == x
  {
    assert x / 0x100_0000 % 256 == x / 0x1_0000 / 256;
    assert x / 0x1_0000 == x / 0x100 / 256;
  }

  lemma BigEndian32Injective(x: UInt32, y: UInt32)
    requires BigEndian32(x) == BigEndian32(y)
    ensures x == y
  {
    hide BigEndian32;
    BigEndian32Value(x);
    BigEndian32Value(y);
  }

  lemma BigEndian64Injective(x: UInt64, y: UInt64)
    requires BigEndian64(x) == BigEndian64(y)
    ensures x == y
  {
    hide BigEndian32;
    var s, t := BigEndian64(x), BigEndian64(y);
    assert s[..4] == BigEndian32(x / TWO_TO_THE_32) && t[..4] == BigEndian32(y / TWO_TO_THE_32);
    assert s[4..] == BigEndian32(x % TWO_TO_THE_32) && t[4..] == BigEndian32(y % TWO_TO_THE_32);
    BigEndian32Injective(x / TWO_TO_THE_32, y / TWO_TO_THE_32);
    BigEndian32Injective(x % TWO_TO_THE_32, y % TWO_TO_THE_32);
  }

  /** The padding sha1_final uses is the one FIPS 180-4 prescribes exactly below 2^38 octets. */
  lemma PaddingStandardIff(length: nat)
    requires length < 0x2000_0000_0000_0000
    ensures Padding(length, 8 * (length % 0x40_0000_0000)) == Padding(length, 8 * length) <==> length < 0x40_0000_0000
  {
    hide BigEndian64;
    var p, q := Padding(length, 8 * (length % 0x40_0000_0000)), Padding(length, 8 * length);
    if p == q {
      assert p[|p| - 8..] == BigEndian64(8 * (length % 0x40_0000_0000));
      assert q[|q| - 8..] == BigEndian64(8 * length);
      BigEndian64Injective(8 * (length % 0x40_0000_0000), 8 * length);
    }
  }

  lemma ZeroCount(length: nat, count: nat)
    requires count == length % 64
    ensures (55 - length) % 64 == if count < 56 then 55 - count else 119 - count
  {
  }

  lemma ZerosAdd(m: ByteString, n: nat)
    ensures m + [0x80] + Zeros(n) + Zeros(56) == m + [0x80] + Zeros(n + 56)
  {
    assert Zeros(n) + Zeros(56) == Zeros(n + 56);
    assert m + [0x80] + Zeros(n) + Zeros(56) == m + [0x80] + (Zeros(n) + Zeros(56));
  }

  lemma PaddingAssembled(m: ByteString, full: ByteString, padded: ByteString, last: ByteString, bits: nat)
    requires full + padded == m + [0x80] + Zeros((55 - |m|) % 64)
    requires last == padded + BigEndian64(bits)
    ensures full + last == m + Padding(|m|, bits)
  {
    hide BigEndian64;
    assert full + last == full + padded + BigEndian64(bits);
  }

  class Sha1Context {
    var h0: bv32
    var h1: bv32
    var h2: bv32
    var h3: bv32
    var h4: bv32
    var nblocks: UInt32
    const buf: array<Byte>
    var count: nat
    ghost var message: ByteString

    /** The octets that have already gone through the compression function. */
    ghost function Hashed(): ByteString
      reads this
      requires count <= |message|
    {
      message[..|message| - count]
    }

    function Chain(): Words
      reads this
    {
      Words(h0, h1, h2, h3, h4)
    }

    /** What holds at every flush point: `count` may still be 64. */
    ghost predicate Absorbed()
      reads this, buf
    {
      && buf.Length == 64
      && count <= 64 && count <= |message|
      && |Hashed()| % 64 == 0
      && Chain() == HashBlocks(Hashed())
      && buf[..count] == message[|message| - count..]
      && nblocks == |Hashed()| / 64 % TWO_TO_THE_32
    }

    /** What holds between calls. */
    ghost predicate Valid()
      reads this, buf
    {
      Absorbed() && count < 64
    }

    /** sha1_init. */
    constructor ()
      ensures Valid() && fresh(buf)
      ensures message == []
    {
      buf := new Byte[64](_ => 0);
      h0 := 0x67452301;
      h1 := 0xefcdab89;
      h2 := 0x98badcfe;
      h3 := 0x10325476;
      h4 := 0xc3d2e1f0;
      nblocks := 0;
      count := 0;
      message := [];
    }

    /** transform: the compression function of section 6.1.2, computed the way section 6.1.3 describes. */
    method Transform(data: ByteString)
      requires |data| == 64
      modifies this`h0, this`h1, this`h2, this`h3, this`h4
      ensures Chain() == Compress(old(Chain()), BlockWords(data))
    {
      hide After, Window, Rounds, Add, BlockWords;
      ghost var h, m := Chain(), BlockWords(data);
      var x := LoadWords(data);
      Begin(h, m, x[..]);
      var a, b, c, d, e := FirstRounds(h, m, x, h0, h1, h2, h3, h4);
      a, b, c, d, e := SecondRounds(h, m, x, a, b, c, d, e);
      a, b, c, d, e := ThirdRounds(h, m, x, a, b, c, d, e);
      a, b, c, d, e := FourthRounds(h, m, x, a, b, c, d, e);
      Finish(h, m, a, b, c, d, e);
      h0 := Add(a, h0);
      h1 := Add(b, h1);
      h2 := Add(c, h2);
      h3 := Add(d, h3);
      h4 := Add(e, h4);
    }

    /** sha1_write with a null buffer: compresses the buffer once it is full. */
    method Flush()
      requires Absorbed()
      modifies this
      ensures Valid()
      ensures message == old(message)
      ensures count == if old(count) == 64 then 0 else old(count)
    {
      hide HashBlocks, Compress, BlockWords;
      if count == 64 {
        assert message == Hashed() + buf[..];
        BlockHashed(Hashed(), buf[..]);
        BlockCounted(|Hashed()|);
        Transform(buf[..]);
        count := 0;
        nblocks := (nblocks + 1) % TWO_TO_THE_32;
        assert Hashed() == message;
      }
    }

    /** One step of the two copying loops. */
    method Push(b: Byte)
      requires Absorbed() && count < 64
      modifies this`count, this`message, buf
      ensures Absorbed()
      ensures message == old(message) + [b] && count == old(count) + 1
    {
      hide HashBlocks;
      buf[count] := b;
      count := count + 1;
      message := message + [b];
      assert Hashed() == old(Hashed());
      assert buf[..count] == old(buf[..count]) + [b];
    }

    /** One step of the whole-block loop, which bypasses the buffer. */
    method PushBlock(block: ByteString)
      requires Valid() && count == 0 && |block| == 64
      modifies this
      ensures Valid() && count == 0
      ensures message == old(message) + block
    {
      hide HashBlocks, Compress, BlockWords;
      assert Hashed() == message;
      BlockHashed(message, block);
      BlockCounted(|message|);
      Transform(block);
      count := 0;
      nblocks := (nblocks + 1) % TWO_TO_THE_32;
      message := message + block;
      assert Hashed() == message;
    }

    /** sha1_write. */
    method Write(inbuf: ByteString)
      requires Valid()
      modifies this, buf
      ensures Valid()
      ensures message == old(message) + inbuf
    {
      hide Absorbed;
      Flush();
      var i := 0;
      if count != 0 {
        while i < |inbuf| && count < 64
          invariant 0 <= i <= |inbuf|
          invariant Absorbed() && message == old(message) + inbuf[..i]
        {
          Push(inbuf[i]);
          i := i + 1;
        }
        Flush();
        if i == |inbuf| {
          return;
        }
      }
      while |inbuf| - i >= 64
        invariant 0 <= i <= |inbuf|
        invariant Valid() && message == old(message) + inbuf[..i]
        invariant i < |inbuf| ==> count == 0
      {
        PushBlock(inbuf[i..i + 64]);
        assert inbuf[..i] + inbuf[i..i + 64] == inbuf[..i + 64];
        i := i + 64;
      }
      while i < |inbuf| && count < 64
        invariant 0 <= i <= |inbuf|
        invariant count + (|inbuf| - i) < 64
        invariant Absorbed() && message == old(message) + inbuf[..i]
      {
        Push(inbuf[i]);
        i := i + 1;
      }
    }

    method MessageBits() returns (msb: UInt32, lsb: UInt32)
      requires Valid()
      ensures msb * TWO_TO_THE_32 + lsb == 8 * (|message| % 0x40_0000_0000)
    {
      hide HashBlocks;
      LengthFromBlocks(|message|, count);
      msb, lsb := BitCount(nblocks, count);
    }

    /** A padding loop of sha1_final. */
    method PushZeros(upTo: nat)
      requires Absorbed() && count <= upTo <= 64
      modifies this`count, this`message, buf
      ensures Absorbed() && count == upTo
      ensures message == old(message) + Zeros(upTo - old(count))
    {
      hide Absorbed;
      while count < upTo
        invariant Absorbed() && old(count) <= count <= upTo
        invariant message == old(message) + Zeros(count - old(count))
      {
        Push(0);
      }
    }

    /** The padding of sha1_final up to the bit count, in one block or in two; `full` is what has been hashed. */
    method Pad() returns (ghost full: ByteString)
      requires Valid()
      modifies this, buf
      ensures buf.Length == 64
      ensures |full| % 64 == 0 && Chain() == HashBlocks(full)
      ensures full + buf[..56] == old(message) + [0x80] + Zeros((55 - |old(message)|) % 64)
    {
      hide HashBlocks;
      ZeroCount(|message|, count);
      if count < 56 {
        Push(0x80);
        PushZeros(56);
        full := Hashed();
        assert message == Hashed() + buf[..56];
      } else {
        full := PadTwoBlocks();
      }
    }

    /** The case that needs one extra block. */
    method PadTwoBlocks() returns (ghost full: ByteString)
      requires Valid() && count >= 56
      modifies this, buf
      ensures buf.Length == 64
      ensures |full| % 64 == 0 && Chain() == HashBlocks(full)
      ensures full + buf[..56] == old(message) + [0x80] + Zeros((55 - |old(message)|) % 64)
    {
      hide HashBlocks;
      ZeroCount(|message|, count);
      ghost var m0, r := message, count;
      Push(0x80);
      PushZeros(64);
      Flush();
      ClearBuffer();
      full := message;
      assert Hashed() == message;
      ZerosAdd(m0, 63 - r);
    }

    /** The memset of sha1_final. */
    method ClearBuffer()
      requires Valid() && count == 0
      modifies buf
      ensures Valid()
      ensures buf[..56] == Zeros(56)
    {
      hide HashBlocks;
      for i := 0 to 56
        invariant forall j | 0 <= j < i :: buf[j] == 0
      {
        buf[i] := 0;
      }
    }

    /** Stores half of the bit count. */
    method StoreCount(at: nat, n: UInt32)
      requires at + 4 <= buf.Length
      modifies buf
      ensures buf[..at + 4] == old(buf[..at]) + BigEndian32(n)
    {
      ghost var before := buf[..at];
      buf[at] := n / 0x100_0000 % 256;
      buf[at + 1] := n / 0x1_0000 % 256;
      buf[at + 2] := n / 0x100 % 256;
      buf[at + 3] := n % 256;
      assert buf[..at + 4] == before + [buf[at], buf[at + 1], buf[at + 2], buf[at + 3]];
    }

    /** The macro X: stores one word of the digest. */
    method StoreWord(at: nat, w: bv32)
      requires at + 4 <= buf.Length
      modifies buf
      ensures buf[..at + 4] == old(buf[..at]) + WordBytes(w)
    {
      ghost var before := buf[..at];
      buf[at] := ((w >> 24) & 0xff) as int;
      buf[at + 1] := ((w >> 16) & 0xff) as int;
      buf[at + 2] := ((w >> 8) & 0xff) as int;
      buf[at + 3] := (w & 0xff) as int;
      assert buf[..at + 4] == before + [buf[at], buf[at + 1], buf[at + 2], buf[at + 3]];
    }

    method StoreDigest()
      requires buf.Length == 64
      modifies buf
      ensures buf[..20] == DigestBytes(Chain())
    {
      hide WordBytes;
      StoreWord(0, h0);
      StoreWord(4, h1);
      StoreWord(8, h2);
      StoreWord(12, h3);
      StoreWord(16, h4);
    }

    /**
     sha1_final. The bit count it appends is that of the message length modulo 2^38 octets, because `nblocks`
     has 32 bits; below that bound the digest left in `buf` is SHA-1 of the message.
     */
    method Final()
      requires Valid()
      modifies this, buf
      ensures buf.Length == 64
      ensures buf[..20] == WrappedDigest(old(message))
      ensures |old(message)| < 0x40_0000_0000 ==> buf[..20] == Std.Sha1(old(message))
    {
      hide HashBlocks, Compress, BlockWords, BigEndian32, BigEndian64, DigestBytes, Padding, Absorbed;
      Flush();
      ghost var m0 := message;
      var msb, lsb := MessageBits();
      BigEndianHalves(msb, lsb);
      ghost var full := Pad();
      ghost var padded := buf[..56];
      StoreCount(56, msb);
      StoreCount(60, lsb);
      PaddingAssembled(m0, full, padded, buf[..], 8 * (|m0| % 0x40_0000_0000));
      BlockHashed(full, buf[..]);
      Transform(buf[..]);
      StoreDigest();
    }
  }

  /** The concatenation of what a sequence of reads returned. */
  function Joined(chunks: seq<ByteString>): ByteString {
    if |chunks| == 0 then [] else Joined(chunks[..|chunks| - 1]) + chunks[|chunks| - 1]
  }

  /** How many reads return something before one returns nothing. */
  function UntilEmpty(chunks: seq<ByteString>): (n: nat)
    ensures n <= |chunks| && (n < |chunks| ==> chunks[n] == [])
    ensures forall i | 0 <= i < n :: chunks[i] != []
  {
    if chunks == [] || chunks[0] == [] then 0 else 1 + UntilEmpty(chunks[1..])
  }

  /** How many chunks calc_sha1 uses: its counter is tested after the chunk has been used. */
  function ChunksRead(chunks: seq<ByteString>, calcSize: nat): (n: nat)
    ensures n <= |chunks| && n <= calcSize / 4096 + 2
    ensures forall i | 0 <= i < n :: chunks[i] != []
    ensures n < |chunks| && chunks[n] != [] ==> n == calcSize / 4096 + 2
  {
    var available := UntilEmpty(chunks);
    if available < calcSize / 4096 + 2 then available else calcSize / 4096 + 2
  }

  /**
   calc_sha1 on a file whose successive reads return `chunks`: however the file is cut, the digest is that of
   the concatenation of the chunks read. There is none if the file cannot be opened or read.
   */
  method CalcSha1(canOpen: bool, chunks: seq<ByteString>, failed: bool, calcSize: nat)
    returns (ok: bool, digest: ByteString)
    ensures ok == (canOpen && !failed)
    ensures ok ==> digest == WrappedDigest(Joined(chunks[..ChunksRead(chunks, calcSize)]))
    ensures ok && |Joined(chunks[..ChunksRead(chunks, calcSize)])| < 0x40_0000_0000
      ==> digest == Std.Sha1(Joined(chunks[..ChunksRead(chunks, calcSize)]))
  {
    hide HashBlocks, Padding, Sha1Context.Absorbed;
    if !canOpen {
      return false, [];
    }
    var readCount, maxReadCount := 0, calcSize / 4096;
    var ctx := new Sha1Context();
    var n := 0;
    while n < |chunks| && chunks[n] != []
      invariant 0 <= n == readCount <= maxReadCount + 1
      invariant n <= UntilEmpty(chunks) && fresh(ctx) && fresh(ctx.buf)
      invariant ctx.Valid() && ctx.message == Joined(chunks[..n])
    {
      assert chunks[..n + 1][..n] == chunks[..n];
      ctx.Write(chunks[n]);
      n := n + 1;
      readCount := readCount + 1;
      if readCount - 1 > maxReadCount {
        break;
      }
    }
    assert n == ChunksRead(chunks, calcSize);
    if failed {
      return false, [];
    }
    ctx.Final();
    ok, digest := true, ctx.buf[..20];
  }
}
