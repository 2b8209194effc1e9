/** Facts about the FIPS 180-2 padding: its byte layout, its length and its injectivity. */
module Padding {
  import opened Fips180
  import opened Words

  // ----- Bits and bytes -----

  lemma ByteRoundTrip(b: byte)
    ensures BitsByte(ByteBits(b)) == b
  {
  }

  lemma BitsByteRoundTrip(s: seq<bool>)
    requires |s| == 8
    ensures ByteBits(BitsByte(s)) == s
  {
  }

  lemma {:induction false} BitsAppend(a: seq<byte>, b: seq<byte>)
    ensures Bits(a + b) == Bits(a) + Bits(b)
  {
    if a == [] {
      assert a + b == b;
    } else {
      assert (a + b)[1..] == a[1..] + b;
      BitsAppend(a[1..], b);
    }
  }

  lemma {:induction false} BytesOfPrefix(a: seq<byte>, rest: seq<bool>)
    requires |rest| % 8 == 0
    ensures BytesOf(Bits(a) + rest) == a + BytesOf(rest)
  {
    var s := Bits(a) + rest;
    if a == [] {
      assert s == rest;
    } else {
      ByteRoundTrip(a[0]);
      assert s[..8] == ByteBits(a[0]);
      assert s[8..] == Bits(a[1..]) + rest;
      BytesOfPrefix(a[1..], rest);
    }
  }

  /** Packing the bits of a byte string gives the byte string back. */
  lemma BytesOfBits(a: seq<byte>)
    ensures BytesOf(Bits(a)) == a
  {
    BytesOfPrefix(a, []);
    assert Bits(a) + [] == Bits(a);
  }

  lemma {:induction false} BitsOfBytes(s: seq<bool>)
    requires |s| % 8 == 0
    ensures Bits(BytesOf(s)) == s
  {
    if s != [] {
      BitsByteRoundTrip(s[..8]);
      BitsOfBytes(s[8..]);
      assert s == s[..8] + s[8..];
    }
  }

  function ZeroBytes(n: nat): (r: seq<byte>)
    ensures |r| == n
  {
    seq(n, _ => 0)
  }

  lemma {:induction false} ZeroBytesBits(n: nat)
    ensures Bits(ZeroBytes(n)) == Zeros(8 * n)
  {
    if n != 0 {
      assert ZeroBytes(n)[1..] == ZeroBytes(n - 1);
      ZeroBytesBits(n - 1);
    }
  }

  // ----- The 64-bit length field -----

  function Pow2(k: nat): (p: nat)
    ensures p > 0
  {
    if k == 0 then 1 else 2 * Pow2(k - 1)
  }

  lemma {:induction false} NatBitsJoin(a: nat, w: nat, b: nat, k: nat)
    requires b < Pow2(k)
    ensures NatBits(a * Pow2(k) + b, w + k) == NatBits(a, w) + NatBits(b, k)
    decreases k
  {
    if k != 0 {
      var x := a * Pow2(k - 1);
      assert a * Pow2(k) == 2 * x;
      assert (2 * x + b) / 2 == x + b / 2 && (2 * x + b) % 2 == b % 2;
      NatBitsJoin(a, w, b / 2, k - 1);
    }
  }

  // NatBitsJoin for one byte.
  lemma NatBitsByte(n: nat, w: nat)
    ensures NatBits(n, w + 8) == NatBits(n / 256, w) + NatBits(n % 256, 8)
  {
    assert Pow2(4) == 16;
    Pow2Add(4, 4);
    NatBitsJoin(n / 256, w, n % 256, 8);
  }

  lemma Pow2At(k: nat, l: nat)
    requires k == 32 && l == 64
    ensures Pow2(k) == 0x1_0000_0000 && Pow2(l) == TWO_64
  {
    assert Pow2(4) == 16;
    Pow2Add(4, 4);
    Pow2Add(8, 8);
    Pow2Add(16, 16);
    Pow2Add(k, k);
  }

  lemma {:induction false} Pow2Add(a: nat, b: nat)
    ensures Pow2(a + b) == Pow2(a) * Pow2(b)
  {
    if a != 0 {
      Pow2Add(a - 1, b);
      assert Pow2(a + b) == 2 * Pow2(a + b - 1);
    }
  }

  lemma {:induction false} NatBitsAt(n: nat, w: nat, i: nat)
    requires i < w
    ensures NatBits(n, w)[i] == (n / Pow2(w - 1 - i) % 2 == 1)
  {
    if i < w - 1 {
      NatBitsAt(n / 2, w - 1, i);
      DivDiv(n, Pow2(w - 2 - i));
    }
  }

  lemma DivDiv(n: nat, q: nat)
    requires q > 0
    ensures n / 2 / q == n / (2 * q)
  {
    var d, m := n / 2 / q, n / 2 % q;
    assert n == (2 * q) * d + (2 * m + n % 2);
    DivUnique(n, 2 * q, d, 2 * m + n % 2);
  }

  lemma DivUnique(n: nat, b: nat, d: nat, m: nat)
    requires m < b && n == b * d + m
    ensures n / b == d
  {
    var e := n / b - d;
    assert b * (n / b) + n % b == n;
    assert b * e == m - n % b;
  }

  lemma EightBits(x: nat)
    ensures NatBits(x, 8) == [x / 128 % 2 == 1, x / 64 % 2 == 1, x / 32 % 2 == 1, x / 16 % 2 == 1,
                              x / 8 % 2 == 1, x / 4 % 2 == 1, x / 2 % 2 == 1, x % 2 == 1]
  {
    assert Pow2(3) == 8;
    assert Pow2(4) == 16 && Pow2(5) == 32 && Pow2(6) == 64 && Pow2(7) == 128;
    NatBitsAt(x, 8, 0);
    NatBitsAt(x, 8, 1);
    NatBitsAt(x, 8, 2);
    NatBitsAt(x, 8, 3);
    NatBitsAt(x, 8, 4);
    NatBitsAt(x, 8, 5);
    NatBitsAt(x, 8, 6);
    NatBitsAt(x, 8, 7);
  }

  lemma ByteNatBits(x: nat)
    requires x < 256
    ensures ByteBits(x as byte) == NatBits(x, 8)
  {
    EightBits(x);
    ByteOfNat(x);
  }

  lemma ByteOfNat(x: nat)
    requires x < 256
    ensures var b := x as byte;
            && (b & 0x80 != 0 <==> x / 128 % 2 == 1) && (b & 0x40 != 0 <==> x / 64 % 2 == 1)
            && (b & 0x20 != 0 <==> x / 32 % 2 == 1) && (b & 0x10 != 0 <==> x / 16 % 2 == 1)
            && (b & 0x08 != 0 <==> x / 8 % 2 == 1) && (b & 0x04 != 0 <==> x / 4 % 2 == 1)
            && (b & 0x02 != 0 <==> x / 2 % 2 == 1) && (b & 0x01 != 0 <==> x % 2 == 1)
  {
  }

  // The byte of x with the given weight, as the cast to uint8_t produces it.
  function CountByte(x: nat, weight: nat): byte
    requires weight > 0
  {
    (x / weight % 0x100) as byte
  }

  // Four big-endian bytes of a 32-bit count.
  function CountBytes(x: nat): (r: seq<byte>)
    ensures |r| == 4
  {
    [CountByte(x, 0x100_0000), CountByte(x, 0x1_0000), CountByte(x, 0x100), CountByte(x, 1)]
  }

  lemma FourDigits(x: nat)
    ensures NatBits(x, 32) == NatBits(x / 0x100_0000, 8) + NatBits(x / 0x1_0000 % 0x100, 8) +
                              NatBits(x / 0x100 % 0x100, 8) + NatBits(x % 0x100, 8)
  {
    NatBitsByte(x, 24);
    var y := x / 0x100;
    NatBitsByte(y, 16);
    var z := y / 0x100;
    NatBitsByte(z, 8);
    assert z == x / 0x1_0000 && z / 0x100 == x / 0x100_0000;
  }

  lemma CountByteBits(x: nat, weight: nat)
    requires weight > 0
    ensures ByteBits(CountByte(x, weight)) == NatBits(x / weight % 0x100, 8)
  {
    ByteNatBits(x / weight % 0x100);
  }

  lemma CountBytesBits(x: nat)
    requires x < 0x1_0000_0000
    ensures Bits(CountBytes(x)) == NatBits(x, 32)
  {
    hide CountByte, NatBits, ByteBits, Bits;
    assert x / 0x100_0000 % 0x100 == x / 0x100_0000 && x / 1 == x;
    FourDigits(x);
    CountByteBits(x, 0x100_0000);
    CountByteBits(x, 0x1_0000);
    CountByteBits(x, 0x100);
    CountByteBits(x, 1);
    FourBytes(CountByte(x, 0x100_0000), CountByte(x, 0x1_0000), CountByte(x, 0x100), CountByte(x, 1));
  }

  lemma FourBytes(a: byte, b: byte, c: byte, d: byte)
    ensures Bits([a, b, c, d]) == ByteBits(a) + ByteBits(b) + ByteBits(c) + ByteBits(d)
  {
    BitsAppend([a], [b]);
    BitsAppend([c], [d]);
    BitsAppend([a] + [b], [c] + [d]);
    assert ([a] + [b]) + ([c] + [d]) == [a, b, c, d];
    BitsOne(a);
    BitsOne(b);
    BitsOne(c);
    BitsOne(d);
    Regroup2(ByteBits(a), ByteBits(b), ByteBits(c), ByteBits(d));
  }

  lemma Regroup2<T>(a: seq<T>, b: seq<T>, c: seq<T>, d: seq<T>)
    ensures (a + b) + (c + d) == a + b + c + d
  {
  }

  lemma BitsOne(a: byte)
    ensures Bits([a]) == ByteBits(a)
  {
    assert [a][1..] == [];
  }

  lemma LengthParts(a: seq<byte>, b: seq<byte>, high: nat, low: nat, k: nat)
    requires k == 32 && low < 0x1_0000_0000
    requires Bits(a) == NatBits(high, k) && Bits(b) == NatBits(low, k)
    ensures Bits(a + b) == NatBits(high * 0x1_0000_0000 + low, k + k)
  {
    Pow2At(k, 64);
    BitsAppend(a, b);
    NatBitsJoin(high, k, low, k);
  }

  /** The eight bytes written from Length_High and Length_Low are the 64-bit length. */
  lemma LengthBits(high: nat, low: nat)
    requires high < 0x1_0000_0000 && low < 0x1_0000_0000
    ensures Bits(CountBytes(high) + CountBytes(low)) == NatBits(high * 0x1_0000_0000 + low, 64)
  {
    var a, b := CountBytes(high), CountBytes(low);
    CountBytesBits(high);
    CountBytesBits(low);
    LengthParts(a, b, high, low, 32);
  }

  // ----- Byte layout of a padded message -----

  ghost predicate IsPadByte(pad: byte, tail: seq<bool>) {
    |tail| < 8 && ByteBits(pad) == tail + [true] + Zeros(7 - |tail|)
  }

  // The number of zero bytes between the pad byte and the length.
  function ZeroFill(n: nat): (z: nat)
    ensures z < 64 && (n + 1 + z) % 64 == 56
  {
    (55 - n) % 64
  }

  function PaddedBytes(message: seq<byte>, pad: byte, len: seq<byte>): (r: seq<byte>) {
    (message + ([pad] + ZeroBytes(ZeroFill(|message|)))) + len
  }

  lemma PadTail(tail: seq<bool>, pad: byte, z: nat)
    requires IsPadByte(pad, tail)
    ensures Bits([pad] + ZeroBytes(z)) == tail + [true] + Zeros(7 - |tail| + 8 * z)
  {
    BitsAppend([pad], ZeroBytes(z));
    BitsOne(pad);
    ZeroBytesBits(z);
  }

  lemma Regroup<T>(a: seq<T>, b: seq<T>, c: seq<T>, d: seq<T>, e: seq<T>)
    ensures (a + (b + c + d)) + e == a + b + c + d + e
  {
  }

  lemma PadIs(m: seq<bool>, k: nat, len: seq<bool>)
    requires k == PadZeros(|m|) && len == NatBits(|m|, 64)
    ensures Pad(m) == m + [true] + Zeros(k) + len
  {
  }

  lemma PadFromParts(message: seq<byte>, tail: seq<bool>, fill: seq<byte>, len: seq<byte>, n: nat, k: nat)
    requires n == |Bits(message) + tail| && k == PadZeros(n)
    requires Bits(fill) == tail + [true] + Zeros(k)
    requires Bits(len) == NatBits(n, 64)
    ensures Bits((message + fill) + len) == Pad(Bits(message) + tail)
  {
    BitsAppend(message + fill, len);
    BitsAppend(message, fill);
    Regroup(Bits(message), tail, [true], Zeros(k), Bits(len));
    PadIs(Bits(message) + tail, k, Bits(len));
  }

  lemma FillMatches(n: nat, t: nat)
    requires t < 8
    ensures PadZeros(8 * n + t) == 7 - t + 8 * ZeroFill(n)
  {
  }

  /** Message, pad byte, zero bytes and length are exactly the padded bit string of section 5.1.1. */
  lemma PadLayout(message: seq<byte>, tail: seq<bool>, pad: byte, len: seq<byte>, n: nat)
    requires IsPadByte(pad, tail)
    requires n == 8 * |message| + |tail| && Bits(len) == NatBits(n, 64)
    ensures Bits(PaddedBytes(message, pad, len)) == Pad(Bits(message) + tail)
    ensures PaddedBlocks(Bits(message) + tail) == PaddedBytes(message, pad, len)
  {
    var z := ZeroFill(|message|);
    PadTail(tail, pad, z);
    FillMatches(|message|, |tail|);
    PadFromParts(message, tail, [pad] + ZeroBytes(z), len, n, 7 - |tail| + 8 * z);
    BytesOfBits(PaddedBytes(message, pad, len));
  }

  // ----- Injectivity and size -----

  lemma {:induction false} NatBitsInjective(a: nat, b: nat, w: nat)
    requires a < Pow2(w) && b < Pow2(w) && NatBits(a, w) == NatBits(b, w)
    ensures a == b
  {
    if w != 0 {
      var x, y := NatBits(a / 2, w - 1), NatBits(b / 2, w - 1);
      assert NatBits(a, w)[..w - 1] == x && NatBits(b, w)[..w - 1] == y;
      assert NatBits(a, w)[w - 1] == (a % 2 == 1) && NatBits(b, w)[w - 1] == (b % 2 == 1);
      NatBitsInjective(a / 2, b / 2, w - 1);
    }
  }

  lemma PadParts(m: seq<bool>)
    ensures var p := Pad(m); p[..|m|] == m && p[|p| - 64..] == NatBits(|m|, 64)
  {
  }

  lemma PadDeterminesMessage(m: seq<bool>, n: seq<bool>, w: nat)
    requires w == 64 && |m| < TWO_64 && |n| < TWO_64
    requires Pad(m) == Pad(n)
    ensures m == n
  {
    PadParts(m);
    PadParts(n);
    Pow2At(32, w);
    NatBitsInjective(|m|, |n|, w);
  }

  /** Two different bit strings under 2^64 bits never have the same padded form, nor the same blocks. */
  lemma PadInjective(m: seq<bool>, n: seq<bool>)
    requires |m| < TWO_64 && |n| < TWO_64
    requires PaddedBlocks(m) == PaddedBlocks(n)
    ensures m == n
  {
    BitsOfBytes(Pad(m));
    BitsOfBytes(Pad(n));
    PadDeterminesMessage(m, n, 64);
  }
}
