/** hmac.c: keyed hashing streamed over a hashing context, against section 2 of RFC 2104. */
module Hmac {
  import opened Fips180
  import opened ShaContext
  import opened Words

  const MAX_BLOCK_SIZE := 128
  const INT_MAX := 0x7FFF_FFFF
  const IPAD: byte := 0x36
  const OPAD: byte := 0x5c

  // ----- RFC 2104, section 2 -----

  function XorPad(key: seq<byte>, pad: byte): (r: seq<byte>)
    ensures |r| == |key|
  {
    seq(|key|, i requires 0 <= i < |key| => key[i] ^ pad)
  }

  // The key hashed first when longer than a block, then extended with zero bytes to a block.
  function BlockKey(v: ShaVersion, key: seq<byte>): (r: seq<byte>)
    ensures |r| == BLOCK_SIZE
  {
    var k := if |key| > BLOCK_SIZE then Sha(v, Bits(key)) else key;
    k + seq(BLOCK_SIZE - |k|, _ => 0)
  }

  // H(K xor opad, H(K xor ipad, text)) for a text of whole bytes followed by fewer than eight bits.
  function HmacBits(v: ShaVersion, key: seq<byte>, text: seq<byte>, tail: seq<bool>): (r: seq<byte>)
    ensures |r| == v.HashSize()
  {
    var inner := Sha(v, Bits(XorPad(BlockKey(v, key), IPAD) + text) + tail);
    Sha(v, Bits(XorPad(BlockKey(v, key), OPAD) + inner))
  }

  // A key of at most 64 bytes, extended with zero bytes, with every byte XORed with b.
  function Padded(key: seq<byte>, b: byte): (r: seq<byte>)
    ensures |r| == 64
  {
    seq(64, i requires 0 <= i < 64 => (if i < |key| then key[i] else 0) ^ b)
  }

  /** Up to a block, the key is XORed with 0x36 for the inner hash and with 0x5c for the outer one. */
  lemma HmacOfShortKey(v: ShaVersion, key: seq<byte>, text: seq<byte>)
    requires |key| <= 64
    ensures HmacBits(v, key, text, []) == Sha(v, Bits(Padded(key, 0x5c) + Sha(v, Bits(Padded(key, 0x36) + text))))
  {
    hide Sha, Bits;
    assert XorPad(BlockKey(v, key), IPAD) == Padded(key, 0x36);
    assert XorPad(BlockKey(v, key), OPAD) == Padded(key, 0x5c);
    var inner := Padded(key, 0x36) + text;
    assert Bits(inner) + [] == Bits(inner);
  }

  /** A longer key is the same as its digest. */
  lemma HmacOfLongKey(v: ShaVersion, key: seq<byte>, text: seq<byte>, tail: seq<bool>)
    requires |key| > 64
    ensures HmacBits(v, key, text, tail) == HmacBits(v, Sha(v, Bits(key)), text, tail)
  {
    hide Sha, Bits;
  }

  lemma NoTail(bytes: seq<byte>)
    ensures Bits(bytes) + [] == Bits(bytes)
  {
  }

  class HmacContext {
    var whichSha: ShaVersion
    var blockSize: nat
    var hashSize: nat
    const kOpad: array<byte>
    const shaContext: Context
    ghost var key: seq<byte>
    ghost var text: seq<byte>

    ghost predicate Shape()
      reads this, shaContext, shaContext.intermediateHash, shaContext.messageBlock
    {
      && kOpad.Length == MAX_BLOCK_SIZE && kOpad != shaContext.messageBlock
      && shaContext.Valid()
    }

    // The key has been absorbed, and then the text.
    ghost predicate Keyed()
      reads this, kOpad, shaContext, shaContext.intermediateHash, shaContext.messageBlock
    {
      && Shape()
      && whichSha == shaContext.version && blockSize == BLOCK_SIZE && hashSize == whichSha.HashSize()
      && kOpad[..BLOCK_SIZE] == XorPad(BlockKey(whichSha, key), OPAD)
      && (shaContext.corrupted == 0 ==> shaContext.message == XorPad(BlockKey(whichSha, key), IPAD) + text)
    }

    constructor ()
      ensures Shape()
      ensures fresh(kOpad) && fresh(shaContext) && fresh(shaContext.intermediateHash) && fresh(shaContext.messageBlock)
    {
      kOpad := new byte[MAX_BLOCK_SIZE];
      shaContext := new Context(SHA1);
    }

    // Both pads, from a key of at most one block.
    method FillPads(key: seq<byte>) returns (kIpad: array<byte>)
      requires kOpad.Length == MAX_BLOCK_SIZE && |key| <= BLOCK_SIZE && blockSize == BLOCK_SIZE
      modifies kOpad
      ensures fresh(kIpad) && kIpad.Length == MAX_BLOCK_SIZE
      ensures var k := key + seq(BLOCK_SIZE - |key|, _ => 0);
              kIpad[..BLOCK_SIZE] == XorPad(k, IPAD) && kOpad[..BLOCK_SIZE] == XorPad(k, OPAD)
    {
      kIpad := new byte[MAX_BLOCK_SIZE];
      var i := 0;
      while i < |key|
        invariant 0 <= i <= |key|
        invariant forall j | 0 <= j < i :: kIpad[j] == key[j] ^ IPAD && kOpad[j] == key[j] ^ OPAD
      {
        kIpad[i] := key[i] ^ IPAD;
        kOpad[i] := key[i] ^ OPAD;
        i := i + 1;
      }
      while i < blockSize
        invariant |key| <= i <= BLOCK_SIZE
        invariant forall j | 0 <= j < |key| :: kIpad[j] == key[j] ^ IPAD && kOpad[j] == key[j] ^ OPAD
        invariant forall j | |key| <= j < i :: kIpad[j] == IPAD && kOpad[j] == OPAD
      {
        kIpad[i] := IPAD;
        kOpad[i] := OPAD;
        i := i + 1;
      }
      XorZero(IPAD);
      XorZero(OPAD);
    }

    method Reset(which: ShaVersion, newKey: seq<byte>) returns (code: int)
      requires Shape() && |newKey| <= INT_MAX
      modifies this, kOpad, shaContext, shaContext.intermediateHash, shaContext.messageBlock
      ensures Keyed() && code == SHA_SUCCESS
      ensures whichSha == which && key == newKey && text == []
      ensures !shaContext.computed && shaContext.corrupted == 0 && shaContext.tail == []
    {
      hide Sha, Bits, XorPad, Context.Finished, Context.Absorbing;
      blockSize := BLOCK_SIZE;
      hashSize := which.HashSize();
      whichSha := which;
      key := newKey;
      text := [];
      var padKey := newKey;
      if |newKey| > blockSize {
        padKey := HashKey(which, newKey);
      }
      var kIpad := FillPads(padKey);
      assert padKey + seq(BLOCK_SIZE - |padKey|, _ => 0) == BlockKey(which, newKey);
      shaContext.Reset(which);
      code := shaContext.Input(kIpad[..blockSize]);
      assert XorPad(BlockKey(which, newKey), IPAD) + [] == XorPad(BlockKey(which, newKey), IPAD);
    }

    method Input(bytes: seq<byte>) returns (code: int)
      requires Keyed()
      modifies `text, shaContext, shaContext.intermediateHash, shaContext.messageBlock
      ensures Keyed() && text == old(text) + bytes
      ensures shaContext.computed == old(shaContext.computed) && shaContext.tail == old(shaContext.tail)
      ensures !old(shaContext.computed) && old(shaContext.corrupted) == 0 ==>
                code == SHA_SUCCESS && (shaContext.corrupted == 0 <==> 8 * (BLOCK_SIZE + |text|) < TWO_64)
      ensures bytes != [] && old(shaContext.computed) ==> code == SHA_STATE_ERROR && shaContext.corrupted != 0
      ensures old(shaContext.corrupted) != 0 ==> shaContext.corrupted != 0
    {
      hide Sha, Bits, XorPad, Context.Finished, Context.Absorbing;
      if shaContext.corrupted == 0 && !shaContext.computed {
        shaContext.CountBound();
      }
      code := shaContext.Input(bytes);
      text := text + bytes;
    }

    method FinalBits(bits: byte, bitCount: nat) returns (code: int)
      requires Keyed()
      modifies shaContext, shaContext.intermediateHash, shaContext.messageBlock
      ensures Keyed() && text == old(text)
      ensures 0 < bitCount < 8 && !old(shaContext.computed) && old(shaContext.corrupted) == 0 ==>
                && code == SHA_SUCCESS && shaContext.corrupted == 0
                && shaContext.tail == ByteBits(bits)[..bitCount]
    {
      hide Sha, Bits, XorPad, Context.Finished, Context.Absorbing;
      code := shaContext.FinalBits(bits, bitCount);
    }

    // The digest buffer first holds the inner digest, then the outer one.
    method Result(digest: array<byte>) returns (code: int)
      requires Keyed() && digest.Length >= 64 && digest != kOpad && digest != shaContext.messageBlock
      modifies shaContext, shaContext.intermediateHash, shaContext.messageBlock, digest
      ensures code == if old(shaContext.corrupted) == 0 then 0 else 1
      ensures code == 0 ==> digest[..hashSize] == HmacBits(whichSha, key, text, old(shaContext.tail))
    {
      hide Sha, Bits, XorPad, BlockKey, Context.Finished, Context.Absorbing;
      var r := shaContext.Result(digest);
      if r != SHA_SUCCESS { return 1; }
      ghost var inner := digest[..hashSize];
      assert inner == Sha(whichSha, Bits(XorPad(BlockKey(whichSha, key), IPAD) + text) + old(shaContext.tail));
      shaContext.Reset(whichSha);
      r := shaContext.Input(kOpad[..blockSize]);
      if r != SHA_SUCCESS { return 1; }
      r := shaContext.Input(digest[..hashSize]);
      if r != SHA_SUCCESS { return 1; }
      assert shaContext.message == XorPad(BlockKey(whichSha, key), OPAD) + inner;
      r := shaContext.Result(digest);
      if r != SHA_SUCCESS { return 1; }
      NoTail(shaContext.message);
      assert digest[..hashSize] == Sha(whichSha, shaContext.MessageBits());
      code := 0;
    }
  }

  // The digest that stands in for a key longer than a block.
  method HashKey(which: ShaVersion, key: seq<byte>) returns (hashed: seq<byte>)
    requires |key| <= INT_MAX
    ensures hashed == Sha(which, Bits(key))
  {
    hide Sha, Bits, Context.Finished, Context.Absorbing;
    var tctx := new Context(which);
    var tempKey := new byte[64];
    var code := tctx.Input(key);
    code := tctx.Result(tempKey);
    NoTail(key);
    assert tctx.message == key by { assert [] + key == key; }
    hashed := tempKey[..which.HashSize()];
  }

  lemma XorZero(pad: byte)
    ensures 0 ^ pad == pad
  {
  }
}
