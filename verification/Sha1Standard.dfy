/**
 SHA-1 as FIPS 180-4 defines it: the functions and constants of sections 4.1.1 and 4.2.1, the padding of
 section 5.1.1, the initial value of section 5.3.1 and the computation of section 6.1.2. Nothing here follows
 the C code; it is what the C code is proved against.
 */
module Sha1Standard {
  import opened Bytes

  /** The five working variables a..e, and equally the five words of an intermediate hash value. */
  datatype Words = Words(a: bv32, b: bv32, c: bv32, d: bv32, e: bv32)

  const IV := Words(0x67452301, 0xefcdab89, 0x98badcfe, 0x10325476, 0xc3d2e1f0)

  function Rotl(x: bv32, n: nat): bv32
    requires n <= 32
  {
    (x << n) | (x >> (32 - n))
  }

  function Ch(x: bv32, y: bv32, z: bv32): bv32 { (x & y) ^ (!x & z) }

  function Parity(x: bv32, y: bv32, z: bv32): bv32 { x ^ y ^ z }

  function Maj(x: bv32, y: bv32, z: bv32): bv32 { (x & y) ^ (x & z) ^ (y & z) }

  function F(t: nat, x: bv32, y: bv32, z: bv32): bv32 {
    if t < 20 then Ch(x, y, z)
    else if t < 40 then Parity(x, y, z)
    else if t < 60 then Maj(x, y, z)
    else Parity(x, y, z)
  }

  function K(t: nat): bv32 {
    if t < 20 then 0x5A827999
    else if t < 40 then 0x6ED9EBA1
    else if t < 60 then 0x8F1BBCDC
    else 0xCA62C1D6
  }

  /** Addition modulo 2^32, section 3.2. */
  function Add(x: bv32, y: bv32): bv32 { x + y }

  function Sum(p: bv32, q: bv32, r: bv32, s: bv32, t: bv32): bv32 { p + q + r + s + t }

  function Xor(p: bv32, q: bv32, r: bv32, s: bv32): bv32 { p ^ q ^ r ^ s }

  /** A message block: sixteen 32-bit words. */
  type Block = m: seq<bv32> | |m| == 16 witness seq(16, _ => 0)

  /** The message schedule W_0, W_1, ... */
  function W(m: Block, t: nat): bv32 {
    if t < 16 then m[t]
    else Rotl(Xor(W(m, t - 3), W(m, t - 8), W(m, t - 14), W(m, t - 16)), 1)
  }

  function Round(t: nat, s: Words, w: bv32): Words {
    Words(Sum(Rotl(s.a, 5), F(t, s.b, s.c, s.d), s.e, K(t), w), s.a, Rotl(s.b, 30), s.c, s.d)
  }

  /** The working variables after rounds 0 .. t-1. */
  function Rounds(h: Words, m: Block, t: nat): Words {
    if t == 0 then h else Round(t - 1, Rounds(h, m, t - 1), W(m, t - 1))
  }

  function Plus(x: Words, y: Words): Words {
    Words(Add(x.a, y.a), Add(x.b, y.b), Add(x.c, y.c), Add(x.d, y.d), Add(x.e, y.e))
  }

  /** One application of the compression function. */
  function Compress(h: Words, m: Block): Words {
    Plus(Rounds(h, m, 80), h)
  }

  /** Four octets as a word, most significant octet first. */
  function Word(b0: Byte, b1: Byte, b2: Byte, b3: Byte): bv32 {
    (b0 * 0x100_0000 + b1 * 0x1_0000 + b2 * 0x100 + b3) as bv32
  }

  function BlockWords(s: ByteString): Block
    requires |s| == 64
  {
    seq(16, i requires 0 <= i < 16 => Word(s[4 * i], s[4 * i + 1], s[4 * i + 2], s[4 * i + 3]))
  }

  /** The intermediate hash value after every full 64-octet block of `s`; a partial last block is not used. */
  function HashBlocks(s: ByteString): Words
    requires |s| % 64 == 0
  {
    if |s| == 0 then IV
    else Compress(HashBlocks(s[..|s| - 64]), BlockWords(s[|s| - 64..]))
  }

  function Zeros(n: nat): (s: ByteString)
    ensures |s| == n
  {
    seq(n, _ => 0)
  }

  /** A 32-bit integer, most significant octet first. */
  function BigEndian32(n: int): (s: ByteString)
    ensures |s| == 4
  {
    [n / 0x100_0000 % 256, n / 0x1_0000 % 256, n / 0x100 % 256, n % 256]
  }

  /** A 64-bit integer, most significant octet first. */
  function BigEndian64(n: int): (s: ByteString)
    ensures |s| == 8
  {
    BigEndian32(n / TWO_TO_THE_32) + BigEndian32(n % TWO_TO_THE_32)
  }

  /** What is appended to a message of `length` octets: a one bit, the fewest zero bits, then `bits` in 64 bits. */
  function Padding(length: nat, bits: nat): (s: ByteString)
    ensures |s| == 9 + (55 - length) % 64
    ensures (length + |s|) % 64 == 0
  {
    [0x80] + Zeros((55 - length) % 64) + BigEndian64(bits)
  }

  /** The four octets of a word, most significant first. */
  function WordBytes(w: bv32): (s: ByteString)
    ensures |s| == 4
  {
    [((w >> 24) & 0xff) as int, ((w >> 16) & 0xff) as int, ((w >> 8) & 0xff) as int, (w & 0xff) as int]
  }

  function DigestBytes(h: Words): (s: ByteString)
    ensures |s| == 20
  {
    WordBytes(h.a) + WordBytes(h.b) + WordBytes(h.c) + WordBytes(h.d) + WordBytes(h.e)
  }

  /** The SHA-1 digest of a message of fewer than 2^61 octets. */
  function Sha1(message: ByteString): (digest: ByteString)
    ensures |digest| == 20
  {
    DigestBytes(HashBlocks(message + Padding(|message|, 8 * |message|)))
  }
}
