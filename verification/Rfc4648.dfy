/** The base 64 and base 32 encodings of RFC 4648, by definition: each character from its own bits of the input. */
module Rfc4648 {
  import opened Fips180

  const PAD: byte := 0x3D   // '='

  // Table 1; characters are ASCII codes.
  function Symbol64(v: byte): byte {
    if v < 26 then 0x41 + v
    else if v < 52 then 0x61 + (v - 26)
    else if v < 62 then 0x30 + (v - 52)
    else if v == 62 then 0x2B
    else 0x2F
  }

  // Table 3, in lower case.
  function Symbol32(v: byte): byte {
    if v < 26 then 0x61 + v else 0x32 + (v - 26)
  }

  // The p-th bit of a byte string, most significant bits first; zero beyond its end.
  function BitOf(source: seq<byte>, p: nat): bool {
    p / 8 < |source| && ByteBits(source[p / 8])[p % 8]
  }

  function Sextet(source: seq<byte>, i: nat): byte {
    var p := 6 * i;
    BitsByte([false, false, BitOf(source, p), BitOf(source, p + 1), BitOf(source, p + 2),
              BitOf(source, p + 3), BitOf(source, p + 4), BitOf(source, p + 5)])
  }

  function Quintet(source: seq<byte>, i: nat): byte {
    var p := 5 * i;
    BitsByte([false, false, false, BitOf(source, p), BitOf(source, p + 1), BitOf(source, p + 2),
              BitOf(source, p + 3), BitOf(source, p + 4)])
  }

  /** Section 4: a character for every six bits begun, and padding up to a multiple of four characters. */
  function Base64Of(source: seq<byte>): seq<byte> {
    seq((|source| + 2) / 3 * 4, i requires i >= 0 =>
      if 6 * i < 8 * |source| then Symbol64(Sextet(source, i)) else PAD)
  }

  /** Section 6: a character for every five bits begun, and padding up to a multiple of eight characters. */
  function Base32Of(source: seq<byte>): seq<byte> {
    seq((|source| + 4) / 5 * 8, i requires i >= 0 =>
      if 5 * i < 8 * |source| then Symbol32(Quintet(source, i)) else PAD)
  }

  // The bits of the n-th byte, at its place p == 8 * n.
  lemma ByteAt(source: seq<byte>, n: nat, p: nat)
    requires p == 8 * n
    ensures n < |source| ==>
              var b := ByteBits(source[n]);
              && BitOf(source, p) == b[0] && BitOf(source, p + 1) == b[1] && BitOf(source, p + 2) == b[2]
              && BitOf(source, p + 3) == b[3] && BitOf(source, p + 4) == b[4] && BitOf(source, p + 5) == b[5]
              && BitOf(source, p + 6) == b[6] && BitOf(source, p + 7) == b[7]
    ensures n >= |source| ==>
              && !BitOf(source, p) && !BitOf(source, p + 1) && !BitOf(source, p + 2) && !BitOf(source, p + 3)
              && !BitOf(source, p + 4) && !BitOf(source, p + 5) && !BitOf(source, p + 6) && !BitOf(source, p + 7)
  {
    hide ByteBits;
  }

  lemma BitOfRest(block: seq<byte>, rest: seq<byte>, p: nat)
    ensures BitOf(block + rest, 8 * |block| + p) == BitOf(rest, p)
  {
    var n := |block|;
    assert (8 * n + p) / 8 == n + p / 8 && (8 * n + p) % 8 == p % 8;
  }

  lemma BitOfBlock(block: seq<byte>, rest: seq<byte>, p: nat)
    requires p < 8 * |block|
    ensures BitOf(block + rest, p) == BitOf(block, p)
  {
  }

  lemma SextetOfRest(block: seq<byte>, rest: seq<byte>, i: nat)
    requires |block| == 3
    ensures Sextet(block + rest, i + 4) == Sextet(rest, i)
  {
    hide BitOf, BitsByte;
    var p := 6 * i;
    BitOfRest(block, rest, p);
    BitOfRest(block, rest, p + 1);
    BitOfRest(block, rest, p + 2);
    BitOfRest(block, rest, p + 3);
    BitOfRest(block, rest, p + 4);
    BitOfRest(block, rest, p + 5);
  }

  lemma QuintetOfRest(block: seq<byte>, rest: seq<byte>, i: nat)
    requires |block| == 5
    ensures Quintet(block + rest, i + 8) == Quintet(rest, i)
  {
    hide BitOf, BitsByte;
    var p := 5 * i;
    BitOfRest(block, rest, p);
    BitOfRest(block, rest, p + 1);
    BitOfRest(block, rest, p + 2);
    BitOfRest(block, rest, p + 3);
    BitOfRest(block, rest, p + 4);
  }

  lemma SextetOfBlock(block: seq<byte>, rest: seq<byte>, i: nat)
    requires |block| == 3 && i < 4
    ensures Sextet(block + rest, i) == Sextet(block, i)
  {
    hide BitOf, BitsByte;
    var p := 6 * i;
    BitOfBlock(block, rest, p);
    BitOfBlock(block, rest, p + 1);
    BitOfBlock(block, rest, p + 2);
    BitOfBlock(block, rest, p + 3);
    BitOfBlock(block, rest, p + 4);
    BitOfBlock(block, rest, p + 5);
  }

  lemma QuintetOfBlock(block: seq<byte>, rest: seq<byte>, i: nat)
    requires |block| == 5 && i < 8
    ensures Quintet(block + rest, i) == Quintet(block, i)
  {
    hide BitOf, BitsByte;
    var p := 5 * i;
    BitOfBlock(block, rest, p);
    BitOfBlock(block, rest, p + 1);
    BitOfBlock(block, rest, p + 2);
    BitOfBlock(block, rest, p + 3);
    BitOfBlock(block, rest, p + 4);
  }

  lemma Joined(all: seq<byte>, a: seq<byte>, b: seq<byte>)
    requires |all| == |a| + |b|
    requires forall i | 0 <= i < |a| :: all[i] == a[i]
    requires forall i | 0 <= i < |b| :: all[i + |a|] == b[i]
    ensures all == a + b
  {
    forall i | 0 <= i < |all|
      ensures all[i] == (a + b)[i]
    {
      if i >= |a| {
        assert all[(i - |a|) + |a|] == b[i - |a|];
      }
    }
  }

  /** The encoding of a full block is the start of the encoding of the whole. */
  lemma Base64Step(block: seq<byte>, rest: seq<byte>)
    requires |block| == 3
    ensures Base64Of(block + rest) == Base64Of(block) + Base64Of(rest)
  {
    hide Sextet, Symbol64;
    var all, e, r := Base64Of(block + rest), Base64Of(block), Base64Of(rest);
    assert |e| == 4 && |all| == 4 + |r|;
    forall i | 0 <= i < 4
      ensures all[i] == e[i]
    {
      SextetOfBlock(block, rest, i);
    }
    forall i | 0 <= i < |r|
      ensures all[i + 4] == r[i]
    {
      SextetOfRest(block, rest, i);
    }
    Joined(all, e, r);
  }

  lemma Base32Step(block: seq<byte>, rest: seq<byte>)
    requires |block| == 5
    ensures Base32Of(block + rest) == Base32Of(block) + Base32Of(rest)
  {
    hide Quintet, Symbol32;
    var all, e, r := Base32Of(block + rest), Base32Of(block), Base32Of(rest);
    assert |e| == 8 && |all| == 8 + |r|;
    forall i | 0 <= i < 8
      ensures all[i] == e[i]
    {
      QuintetOfBlock(block, rest, i);
    }
    forall i | 0 <= i < |r|
      ensures all[i + 8] == r[i]
    {
      QuintetOfRest(block, rest, i);
    }
    Joined(all, e, r);
  }
}
