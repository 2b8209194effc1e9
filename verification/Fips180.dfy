/** The SHA-1, SHA-224 and SHA-256 functions of FIPS 180-2, defined on bit strings. */
module Fips180 {
  type byte = bv8
  type word = bv32

  datatype ShaVersion = SHA1 | SHA224 | SHA256 {
    // Digest length in bytes.
    function HashSize(): nat {
      match this
      case SHA1 => 20
      case SHA224 => 28
      case SHA256 => 32
    }

    // Number of 32-bit words in the chaining value.
    function Words(): nat {
      if SHA1? then 5 else 8
    }
  }

  // ----- Bit strings, most significant bit first (section 3.1) -----

  function ByteBits(b: byte): (r: seq<bool>)
    ensures |r| == 8
  {
    [b & 0x80 != 0, b & 0x40 != 0, b & 0x20 != 0, b & 0x10 != 0,
     b & 0x08 != 0, b & 0x04 != 0, b & 0x02 != 0, b & 0x01 != 0]
  }

  function BitsByte(bits: seq<bool>): byte
    requires |bits| == 8
  {
    (if bits[0] then 0x80 else 0) | (if bits[1] then 0x40 else 0) |
    (if bits[2] then 0x20 else 0) | (if bits[3] then 0x10 else 0) |
    (if bits[4] then 0x08 else 0) | (if bits[5] then 0x04 else 0) |
    (if bits[6] then 0x02 else 0) | (if bits[7] then 0x01 else 0)
  }

  function Bits(bytes: seq<byte>): (r: seq<bool>)
    ensures |r| == 8 * |bytes|
  {
    if bytes == [] then [] else ByteBits(bytes[0]) + Bits(bytes[1..])
  }

  function BytesOf(bits: seq<bool>): (r: seq<byte>)
    requires |bits| % 8 == 0
    ensures 8 * |r| == |bits|
  {
    if bits == [] then [] else [BitsByte(bits[..8])] + BytesOf(bits[8..])
  }

  // The w-bit binary representation of n modulo 2^w.
  function NatBits(n: nat, w: nat): (r: seq<bool>)
    ensures |r| == w
  {
    if w == 0 then [] else NatBits(n / 2, w - 1) + [n % 2 == 1]
  }

  function Zeros(n: nat): (r: seq<bool>)
    ensures |r| == n
  {
    seq(n, _ => false)
  }

  // ----- Padding (section 5.1.1) -----

  // The smallest k with l + 1 + k congruent to 448 modulo 512.
  function PadZeros(l: nat): (k: nat)
    ensures k < 512 && (l + 1 + k) % 512 == 448
  {
    (447 - l) % 512
  }

  function Pad(m: seq<bool>): (r: seq<bool>)
    ensures |r| % 512 == 0 && |m| + 65 <= |r| < |m| + 65 + 512  // the fewest blocks that fit
  {
    m + [true] + Zeros(PadZeros(|m|)) + NatBits(|m|, 64)
  }

  // ----- Logical functions (sections 4.1.1 and 4.1.2) -----

  function Ch(x: word, y: word, z: word): word { (x & y) ^ (!x & z) }
  function Parity(x: word, y: word, z: word): word { x ^ y ^ z }
  function Maj(x: word, y: word, z: word): word { (x & y) ^ (x & z) ^ (y & z) }

  // Operations on 32-bit words (section 3.2).
  function Plus(x: word, y: word): word { x + y }
  function Rotr(n: word, x: word): word
    requires n <= 32
  {
    (x >> n) | (x << (32 - n))
  }
  function Rotl(n: word, x: word): word
    requires n <= 32
  {
    (x << n) | (x >> (32 - n))
  }

  function BigSigma0(x: word): word { Rotr(2, x) ^ Rotr(13, x) ^ Rotr(22, x) }
  function BigSigma1(x: word): word { Rotr(6, x) ^ Rotr(11, x) ^ Rotr(25, x) }
  function SmallSigma0(x: word): word { Rotr(7, x) ^ Rotr(18, x) ^ (x >> 3) }
  function SmallSigma1(x: word): word { Rotr(17, x) ^ Rotr(19, x) ^ (x >> 10) }

  function BigEndianWord(a: byte, b: byte, c: byte, d: byte): word {
    (a as word << 24) | (b as word << 16) | (c as word << 8) | (d as word)
  }

  // The t-th word of a 512-bit block (section 5.2.1).
  function BlockWord(block: seq<byte>, t: nat): word
    requires |block| == 64 && t < 16
  {
    BigEndianWord(block[4 * t], block[4 * t + 1], block[4 * t + 2], block[4 * t + 3])
  }

  function AddWords(h: seq<word>, s: seq<word>): (r: seq<word>)
    requires |h| == |s|
    ensures |r| == |h| && forall i | 0 <= i < |r| :: r[i] == Plus(h[i], s[i])
  {
    seq(|h|, i requires 0 <= i < |h| => Plus(h[i], s[i]))
  }

  // ----- SHA-1 computation (section 6.1.2) -----

  datatype Registers1 = Registers1(a: word, b: word, c: word, d: word, e: word)

  function F1(t: nat, x: word, y: word, z: word): word {
    if t < 20 then Ch(x, y, z)
    else if t < 40 then Parity(x, y, z)
    else if t < 60 then Maj(x, y, z)
    else Parity(x, y, z)
  }

  // Section 4.2.1.
  function K1(t: nat): word {
    if t < 20 then 0x5A827999 else if t < 40 then 0x6ED9EBA1 else if t < 60 then 0x8F1BBCDC else 0xCA62C1D6
  }

  function Expand1(a: word, b: word, c: word, d: word): word { Rotl(1, a ^ b ^ c ^ d) }

  function Schedule1(block: seq<byte>, t: nat): word
    requires |block| == 64
  {
    if t < 16 then BlockWord(block, t)
    else Expand1(Schedule1(block, t - 3), Schedule1(block, t - 8), Schedule1(block, t - 14), Schedule1(block, t - 16))
  }

  function Round1(r: Registers1, f: word, k: word, w: word): Registers1 {
    Registers1(Plus(Plus(Plus(Plus(Rotl(5, r.a), f), r.e), w), k), r.a, Rotl(30, r.b), r.c, r.d)
  }

  function Rounds1(h: seq<word>, block: seq<byte>, n: nat): Registers1
    requires |h| == 5 && |block| == 64
  {
    if n == 0 then Registers1(h[0], h[1], h[2], h[3], h[4])
    else
      var r := Rounds1(h, block, n - 1);
      Round1(r, F1(n - 1, r.b, r.c, r.d), K1(n - 1), Schedule1(block, n - 1))
  }

  function Compress1(h: seq<word>, block: seq<byte>): (r: seq<word>)
    requires |h| == 5 && |block| == 64
    ensures |r| == 5
  {
    var s := Rounds1(h, block, 80);
    AddWords(h, [s.a, s.b, s.c, s.d, s.e])
  }

  // ----- SHA-224 and SHA-256 computation (section 6.2.2) -----

  datatype Registers2 = Registers2(a: word, b: word, c: word, d: word, e: word, f: word, g: word, h: word)

  // Section 4.2.2, eight constants to a row.
  function K2Row(i: nat): (r: seq<word>)
    requires i < 8
    ensures |r| == 8
  {
    match i
    case 0 =>
      [0x428a2f98, 0x71374491, 0xb5c0fbcf, 0xe9b5dba5, 0x3956c25b, 0x59f111f1, 0x923f82a4, 0xab1c5ed5]
    case 1 =>
      [0xd807aa98, 0x12835b01, 0x243185be, 0x550c7dc3, 0x72be5d74, 0x80deb1fe, 0x9bdc06a7, 0xc19bf174]
    case 2 =>
      [0xe49b69c1, 0xefbe4786, 0x0fc19dc6, 0x240ca1cc, 0x2de92c6f, 0x4a7484aa, 0x5cb0a9dc, 0x76f988da]
    case 3 =>
      [0x983e5152, 0xa831c66d, 0xb00327c8, 0xbf597fc7, 0xc6e00bf3, 0xd5a79147, 0x06ca6351, 0x14292967]
    case 4 =>
      [0x27b70a85, 0x2e1b2138, 0x4d2c6dfc, 0x53380d13, 0x650a7354, 0x766a0abb, 0x81c2c92e, 0x92722c85]
    case 5 =>
      [0xa2bfe8a1, 0xa81a664b, 0xc24b8b70, 0xc76c51a3, 0xd192e819, 0xd6990624, 0xf40e3585, 0x106aa070]
    case 6 =>
      [0x19a4c116, 0x1e376c08, 0x2748774c, 0x34b0bcb5, 0x391c0cb3, 0x4ed8aa4a, 0x5b9cca4f, 0x682e6ff3]
    case _ =>
      [0x748f82ee, 0x78a5636f, 0x84c87814, 0x8cc70208, 0x90befffa, 0xa4506ceb, 0xbef9a3f7, 0xc67178f2]
  }

  function K2At(t: nat): word
    requires t < 64
  {
    K2Row(t / 8)[t % 8]
  }

  function Expand2(a: word, b: word, c: word, d: word): word {
    Plus(Plus(Plus(SmallSigma1(a), b), SmallSigma0(c)), d)
  }

  function Schedule2(block: seq<byte>, t: nat): word
    requires |block| == 64
  {
    if t < 16 then BlockWord(block, t)
    else Expand2(Schedule2(block, t - 2), Schedule2(block, t - 7), Schedule2(block, t - 15), Schedule2(block, t - 16))
  }

  function Round2(r: Registers2, k: word, w: word): Registers2 {
    var t1 := Plus(Plus(Plus(Plus(r.h, BigSigma1(r.e)), Ch(r.e, r.f, r.g)), k), w);
    var t2 := Plus(BigSigma0(r.a), Maj(r.a, r.b, r.c));
    Registers2(Plus(t1, t2), r.a, r.b, r.c, Plus(r.d, t1), r.e, r.f, r.g)
  }

  function Rounds2(h: seq<word>, block: seq<byte>, n: nat): Registers2
    requires |h| == 8 && |block| == 64 && n <= 64
  {
    if n == 0 then Registers2(h[0], h[1], h[2], h[3], h[4], h[5], h[6], h[7])
    else Round2(Rounds2(h, block, n - 1), K2At(n - 1), Schedule2(block, n - 1))
  }

  function Compress2(h: seq<word>, block: seq<byte>): (r: seq<word>)
    requires |h| == 8 && |block| == 64
    ensures |r| == 8
  {
    var s := Rounds2(h, block, 64);
    AddWords(h, [s.a, s.b, s.c, s.d, s.e, s.f, s.g, s.h])
  }

  // ----- Whole messages -----

  // Initial hash values (sections 5.3.1, 5.3.2 and Change Notice 1).
  function InitialHash(v: ShaVersion): (r: seq<word>)
    ensures |r| == v.Words()
  {
    match v
    case SHA1 => [0x67452301, 0xEFCDAB89, 0x98BADCFE, 0x10325476, 0xC3D2E1F0]
    case SHA224 => [0xC1059ED8, 0x367CD507, 0x3070DD17, 0xF70E5939, 0xFFC00B31, 0x68581511, 0x64F98FA7, 0xBEFA4FA4]
    case SHA256 => [0x6A09E667, 0xBB67AE85, 0x3C6EF372, 0xA54FF53A, 0x510E527F, 0x9B05688C, 0x1F83D9AB, 0x5BE0CD19]
  }

  function Compress(v: ShaVersion, h: seq<word>, block: seq<byte>): (r: seq<word>)
    requires |h| == v.Words() && |block| == 64
    ensures |r| == v.Words()
  {
    if v.SHA1? then Compress1(h, block) else Compress2(h, block)
  }

  // The chaining value after a whole number of blocks.
  function HashBlocks(v: ShaVersion, blocks: seq<byte>): (r: seq<word>)
    requires |blocks| % 64 == 0
    ensures |r| == v.Words()
  {
    if blocks == [] then InitialHash(v)
    else Compress(v, HashBlocks(v, blocks[..|blocks| - 64]), blocks[|blocks| - 64..])
  }

  function WordByte(w: word, j: nat): byte
    requires j < 4
  {
    if j == 0 then (w >> 24) as byte
    else if j == 1 then ((w >> 16) & 0xFF) as byte
    else if j == 2 then ((w >> 8) & 0xFF) as byte
    else (w & 0xFF) as byte
  }

  // The leftmost n bytes of the concatenated hash words.
  function DigestBytes(h: seq<word>, n: nat): (r: seq<byte>)
    requires n <= 4 * |h|
    ensures |r| == n
  {
    seq(n, i requires 0 <= i < n => WordByte(h[i / 4], i % 4))
  }

  // The padded message as whole 64-byte blocks.
  function PaddedBlocks(m: seq<bool>): (r: seq<byte>)
    ensures |r| % 64 == 0
  {
    var bytes := BytesOf(Pad(m));
    WholeBlocks(|Pad(m)|, |bytes|);
    bytes
  }

  lemma WholeBlocks(bits: nat, bytes: nat)
    requires bits % 512 == 0 && 8 * bytes == bits
    ensures bytes % 64 == 0
  {
  }

  // The message digest of the bit string m.
  function Sha(v: ShaVersion, m: seq<bool>): (r: seq<byte>)
    ensures |r| == v.HashSize()
  {
    DigestBytes(HashBlocks(v, PaddedBlocks(m)), v.HashSize())
  }
}
