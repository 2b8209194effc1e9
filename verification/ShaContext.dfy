/**
 The mutable hashing context shared, line for line, by sha1.c and sha224.c: a 64-byte block filled one
 byte at a time, a split bit counter, a two-branch padder and the block transforms. The variant chosen
 by USHAReset selects the transform.
 */
module ShaContext {
  import opened Fips180
  import opened Padding
  import opened Words

  type uint32 = x: int | 0 <= x < 0x1_0000_0000

  const SHA_SUCCESS := 0
  const SHA_STATE_ERROR := 3
  // The value the length macro leaves in Corrupted when the 64-bit count wraps.
  const LENGTH_WRAPPED := 1
  const BLOCK_SIZE := 64

  /** The alternative macros of USE_MODIFIED_MACROS compute the same functions. */
  lemma ModifiedMacros(x: word, y: word, z: word)
    ensures (x & (y ^ z)) ^ z == Ch(x, y, z)
    ensures (x & (y | z)) | (y & z) == Maj(x, y, z)
  {
  }

  lemma HashBlocksStart(v: ShaVersion)
    ensures HashBlocks(v, []) == InitialHash(v)
  {
  }

  lemma HashBlocksStep(v: ShaVersion, done: seq<byte>, block: seq<byte>)
    requires |done| % 64 == 0 && |block| == 64
    ensures HashBlocks(v, done + block) == Compress(v, HashBlocks(v, done), block)
  {
    var all := done + block;
    assert all[..|all| - 64] == done && all[|all| - 64..] == block;
  }

  lemma Schedule2First(block: seq<byte>, t: nat)
    requires |block| == 64 && t < 16
    ensures Schedule2(block, t) == BigEndianWord(block[4 * t], block[4 * t + 1], block[4 * t + 2], block[4 * t + 3])
  {
  }

  lemma Schedule2Later(block: seq<byte>, t: nat)
    requires |block| == 64 && 16 <= t
    ensures Schedule2(block, t)
         == Plus(Plus(Plus(SmallSigma1(Schedule2(block, t - 2)), Schedule2(block, t - 7)), SmallSigma0(Schedule2(block, t - 15))),
                 Schedule2(block, t - 16))
  {
  }

  class Context {
    var version: ShaVersion
    const intermediateHash: array<word>
    const messageBlock: array<byte>
    var messageBlockIndex: nat
    var lengthLow: uint32
    var lengthHigh: uint32
    var computed: bool
    var corrupted: int
    // The whole bytes accepted since the last reset, and the final bits after them.
    ghost var message: seq<byte>
    ghost var tail: seq<bool>

    ghost predicate Shape()
      reads this
    {
      intermediateHash.Length == 8 && messageBlock.Length == 64 && messageBlockIndex <= 64
    }

    ghost function State(): (h: seq<word>)
      requires intermediateHash.Length == 8
      reads this, intermediateHash
      ensures |h| == version.Words()
    {
      intermediateHash[..version.Words()]
    }

    ghost function MessageBits(): (m: seq<bool>)
      reads this
      ensures |m| == 8 * |message| + |tail|
    {
      Bits(message) + tail
    }

    // Bytes beyond the last whole block are in the block buffer; the rest are hashed.
    ghost predicate Absorbed()
      requires Shape()
      reads this, intermediateHash, messageBlock
    {
      && messageBlockIndex <= |message|
      && (|message| - messageBlockIndex) % 64 == 0
      && messageBlock[..messageBlockIndex] == message[|message| - messageBlockIndex..]
      && State() == HashBlocks(version, message[..|message| - messageBlockIndex])
    }

    ghost predicate Counted()
      reads this
    {
      lengthHigh * 0x1_0000_0000 + lengthLow == 8 * |message| + |tail|
    }

    ghost predicate Absorbing()
      requires Shape()
      reads this, intermediateHash, messageBlock
    {
      messageBlockIndex < 64 && tail == [] && Counted() && Absorbed()
    }

    ghost predicate Finished()
      requires Shape()
      reads this, intermediateHash
    {
      |tail| < 8 && 8 * |message| + |tail| < TWO_64 && State() == HashBlocks(version, PaddedBlocks(MessageBits()))
    }

    ghost predicate Valid()
      reads this, intermediateHash, messageBlock
    {
      && Shape()
      && (corrupted == 0 ==> if computed then Finished() else Absorbing())
    }

    constructor (which: ShaVersion)
      ensures Valid() && fresh(intermediateHash) && fresh(messageBlock)
      ensures version == which && message == [] && tail == [] && !computed && corrupted == 0
    {
      intermediateHash := new word[8];
      messageBlock := new byte[64];
      new;
      Reset(which);
    }

    method LoadInitialHash()
      requires intermediateHash.Length == 8
      modifies intermediateHash
      ensures State() == InitialHash(version)
    {
      hide InitialHash;
      var h0 := InitialHash(version);
      forall i | 0 <= i < |h0| {
        intermediateHash[i] := h0[i];
      }
      assert State() == h0;
    }

    method Reset(which: ShaVersion)
      requires intermediateHash.Length == 8 && messageBlock.Length == 64
      modifies this, intermediateHash
      ensures Valid()
      ensures version == which && message == [] && tail == [] && !computed && corrupted == 0
    {
      hide HashBlocks, InitialHash, Absorbing, Finished;
      version := which;
      lengthLow := 0;
      lengthHigh := 0;
      messageBlockIndex := 0;
      computed := false;
      corrupted := 0;
      message := [];
      tail := [];
      LoadInitialHash();
      EmptyIsAbsorbing();
    }

    lemma EmptyIsAbsorbing()
      requires Shape() && messageBlockIndex == 0 && message == [] && tail == []
      requires lengthHigh == 0 && lengthLow == 0 && State() == InitialHash(version)
      ensures Absorbing()
    {
      hide HashBlocks, InitialHash;
      HashBlocksStart(version);
      assert message[..0] == [];
    }

    lemma CountBound()
      requires Valid() && !computed && corrupted == 0
      ensures 8 * |message| < TWO_64
    {
    }

    // The length macro: true when the 64-bit count wraps.
    method AddLength(n: uint32) returns (wrapped: bool)
      modifies `lengthLow, `lengthHigh, `corrupted
      ensures var total := old(lengthHigh) * 0x1_0000_0000 + old(lengthLow) + n;
              && wrapped == (total >= TWO_64)
              && lengthHigh * 0x1_0000_0000 + lengthLow == (if wrapped then total - TWO_64 else total)
      ensures corrupted == if wrapped then LENGTH_WRAPPED else 0
    {
      var addTemp := lengthLow;
      lengthLow := (lengthLow + n) % 0x1_0000_0000;
      wrapped := false;
      if lengthLow < addTemp {
        lengthHigh := (lengthHigh + 1) % 0x1_0000_0000;
        wrapped := lengthHigh == 0;
      }
      corrupted := if wrapped then LENGTH_WRAPPED else 0;
    }

    method ProcessSha1Block()
      requires Shape() && version == SHA1
      modifies intermediateHash, `messageBlockIndex
      ensures messageBlockIndex == 0
      ensures State() == Compress1(old(State()), messageBlock[..])
    {
      hide Plus, Rounds1, Schedule1;
      ghost var block := messageBlock[..];
      var w := Schedule1Words();
      var r := Sha1Rounds(w, block);
      var sum := [r.a, r.b, r.c, r.d, r.e];
      forall i | 0 <= i < 5 {
        intermediateHash[i] := Plus(intermediateHash[i], sum[i]);
      }
      assert State() == AddWords(old(State()), sum);
      assert messageBlock[..] == block;
      messageBlockIndex := 0;
    }

    method Schedule1Words() returns (w: array<word>)
      requires Shape()
      ensures fresh(w) && w.Length == 80
      ensures forall j | 0 <= j < 80 :: w[j] == Schedule1(messageBlock[..], j)
    {
      hide BigEndianWord, Expand1;
      w := new word[80];
      for t := 0 to 16
        invariant forall j | 0 <= j < t :: w[j] == Schedule1(messageBlock[..], j)
      {
        w[t] := BigEndianWord(messageBlock[t * 4], messageBlock[t * 4 + 1], messageBlock[t * 4 + 2], messageBlock[t * 4 + 3]);
      }
      for t := 16 to 80
        invariant forall j | 0 <= j < t :: w[j] == Schedule1(messageBlock[..], j)
      {
        w[t] := Expand1(w[t - 3], w[t - 8], w[t - 14], w[t - 16]);
      }
    }

    method Sha1Rounds(w: array<word>, ghost block: seq<byte>) returns (r: Registers1)
      requires Shape() && version == SHA1 && w.Length == 80 && |block| == 64
      requires forall j | 0 <= j < 80 :: w[j] == Schedule1(block, j)
      ensures r == Rounds1(State(), block, 80)
    {
      hide Schedule1, Ch, Parity, Maj, Plus, Rotl;
      ghost var h := State();
      var a, b, c := intermediateHash[0], intermediateHash[1], intermediateHash[2];
      var d, e := intermediateHash[3], intermediateHash[4];
      for t := 0 to 20
        invariant Registers1(a, b, c, d, e) == Rounds1(h, block, t)
      {
        var temp := Plus(Plus(Plus(Plus(Rotl(5, a), Ch(b, c, d)), e), w[t]), 0x5A827999);
        e := d;
        d := c;
        c := Rotl(30, b);
        b := a;
        a := temp;
      }
      for t := 20 to 40
        invariant Registers1(a, b, c, d, e) == Rounds1(h, block, t)
      {
        var temp := Plus(Plus(Plus(Plus(Rotl(5, a), Parity(b, c, d)), e), w[t]), 0x6ED9EBA1);
        e := d;
        d := c;
        c := Rotl(30, b);
        b := a;
        a := temp;
      }
      for t := 40 to 60
        invariant Registers1(a, b, c, d, e) == Rounds1(h, block, t)
      {
        var temp := Plus(Plus(Plus(Plus(Rotl(5, a), Maj(b, c, d)), e), w[t]), 0x8F1BBCDC);
        e := d;
        d := c;
        c := Rotl(30, b);
        b := a;
        a := temp;
      }
      for t := 60 to 80
        invariant Registers1(a, b, c, d, e) == Rounds1(h, block, t)
      {
        var temp := Plus(Plus(Plus(Plus(Rotl(5, a), Parity(b, c, d)), e), w[t]), 0xCA62C1D6);
        e := d;
        d := c;
        c := Rotl(30, b);
        b := a;
        a := temp;
      }
      r := Registers1(a, b, c, d, e);
    }

    method Schedule2Words() returns (w: array<word>)
      requires Shape()
      ensures fresh(w) && w.Length == 64
      ensures forall j | 0 <= j < 64 :: w[j] == Schedule2(messageBlock[..], j)
    {
      hide BigEndianWord, SmallSigma0, SmallSigma1, Plus, Schedule2;
      w := new word[64];
      var t4 := 0;
      for t := 0 to 16
        invariant t4 == 4 * t
        invariant forall j | 0 <= j < t :: w[j] == Schedule2(messageBlock[..], j)
      {
        Schedule2First(messageBlock[..], t);
        w[t] := BigEndianWord(messageBlock[t4], messageBlock[t4 + 1], messageBlock[t4 + 2], messageBlock[t4 + 3]);
        t4 := t4 + 4;
      }
      for t := 16 to 64
        invariant forall j | 0 <= j < t :: w[j] == Schedule2(messageBlock[..], j)
      {
        Schedule2Later(messageBlock[..], t);
        w[t] := Plus(Plus(Plus(SmallSigma1(w[t - 2]), w[t - 7]), SmallSigma0(w[t - 15])), w[t - 16]);
      }
    }

    method Sha2Rounds(w: array<word>, ghost block: seq<byte>) returns (r: Registers2)
      requires Shape() && version != SHA1 && w.Length == 64 && |block| == 64
      requires forall j | 0 <= j < 64 :: w[j] == Schedule2(block, j)
      ensures r == Rounds2(State(), block, 64)
    {
      hide Schedule2, Ch, Maj, Plus, BigSigma0, BigSigma1, K2At;
      ghost var init := State();
      var a, b, c, d := intermediateHash[0], intermediateHash[1], intermediateHash[2], intermediateHash[3];
      var e, f, g, h := intermediateHash[4], intermediateHash[5], intermediateHash[6], intermediateHash[7];
      for t := 0 to 64
        invariant Registers2(a, b, c, d, e, f, g, h) == Rounds2(init, block, t)
      {
        var temp1 := Plus(Plus(Plus(Plus(h, BigSigma1(e)), Ch(e, f, g)), K2At(t)), w[t]);
        var temp2 := Plus(BigSigma0(a), Maj(a, b, c));
        h := g;
        g := f;
        f := e;
        e := Plus(d, temp1);
        d := c;
        c := b;
        b := a;
        a := Plus(temp1, temp2);
      }
      r := Registers2(a, b, c, d, e, f, g, h);
    }

    method ProcessSha2Block()
      requires Shape() && version != SHA1
      modifies intermediateHash, `messageBlockIndex
      ensures messageBlockIndex == 0
      ensures State() == Compress2(old(State()), messageBlock[..])
    {
      hide Plus, Rounds2, Schedule2;
      ghost var block := messageBlock[..];
      var w := Schedule2Words();
      var r := Sha2Rounds(w, block);
      var sum := [r.a, r.b, r.c, r.d, r.e, r.f, r.g, r.h];
      forall i | 0 <= i < 8 {
        intermediateHash[i] := Plus(intermediateHash[i], sum[i]);
      }
      assert State() == AddWords(old(State()), sum);
      assert messageBlock[..] == block;
      messageBlockIndex := 0;
    }

    // Hash the full block buffer; `done` is what was hashed before it.
    method ProcessMessageBlock(ghost done: seq<byte>)
      requires Shape() && |done| % 64 == 0 && State() == HashBlocks(version, done)
      modifies intermediateHash, `messageBlockIndex
      ensures Shape() && messageBlockIndex == 0
      ensures State() == HashBlocks(version, done + messageBlock[..])
    {
      hide Compress1, Compress2, HashBlocks;
      HashBlocksStep(version, done, messageBlock[..]);
      if version == SHA1 {
        ProcessSha1Block();
      } else {
        ProcessSha2Block();
      }
    }

    method StoreByte(b: byte)
      requires Shape() && messageBlockIndex < 64 && Absorbed()
      modifies `messageBlockIndex, `message, messageBlock
      ensures Shape() && messageBlockIndex == old(messageBlockIndex) + 1 && message == old(message) + [b]
      ensures Absorbed()
    {
      hide HashBlocks;
      messageBlock[messageBlockIndex] := b;
      messageBlockIndex := messageBlockIndex + 1;
      message := message + [b];
      assert message[..|message| - messageBlockIndex] == old(message[..|message| - messageBlockIndex]);
      assert messageBlock[..messageBlockIndex] == message[|message| - messageBlockIndex..];
    }

    method ProcessFullBlock()
      requires Shape() && messageBlockIndex == 64 && Absorbed()
      modifies intermediateHash, `messageBlockIndex
      ensures Shape() && messageBlockIndex == 0 && Absorbed()
    {
      hide HashBlocks;
      ghost var done := message[..|message| - 64];
      assert message == done + messageBlock[..];
      ProcessMessageBlock(done);
      assert message[..|message|] == message;
    }

    // One iteration of the input loop.
    method InputByte(b: byte)
      requires Shape() && !computed && corrupted == 0 && Absorbing()
      modifies this, intermediateHash, messageBlock
      ensures Shape() && version == old(version) && !computed && tail == [] && message == old(message) + [b]
      ensures corrupted == if 8 * |message| == TWO_64 then LENGTH_WRAPPED else 0
      ensures corrupted == 0 ==> Absorbing()
    {
      hide HashBlocks;
      StoreByte(b);
      var wrapped := AddLength(8);
      if !wrapped && messageBlockIndex == BLOCK_SIZE {
        ProcessFullBlock();
      }
    }

    method Input(bytes: seq<byte>) returns (code: int)
      requires Valid()
      modifies this, intermediateHash, messageBlock
      ensures Valid() && version == old(version) && computed == old(computed) && tail == old(tail)
      ensures bytes == [] ==> code == SHA_SUCCESS && corrupted == old(corrupted) && message == old(message)
      ensures bytes != [] && old(computed) ==> code == SHA_STATE_ERROR == corrupted
      ensures bytes != [] && !old(computed) && old(corrupted) != 0 ==> code == old(corrupted) == corrupted
      // The count of bits is kept modulo 2^64: wrapping marks the context, and the call still reports success.
      ensures bytes != [] && !old(computed) && old(corrupted) == 0 ==>
                && code == SHA_SUCCESS
                && corrupted == (if 8 * (|old(message)| + |bytes|) < TWO_64 then 0 else LENGTH_WRAPPED)
                && (corrupted == 0 ==> message == old(message) + bytes)
    {
      hide HashBlocks;
      if |bytes| == 0 {
        return SHA_SUCCESS;
      }
      if computed {
        corrupted := SHA_STATE_ERROR;
        return SHA_STATE_ERROR;
      }
      if corrupted != 0 {
        return corrupted;
      }
      var i := 0;
      while i < |bytes| && corrupted == 0
        invariant i <= |bytes|
        invariant Shape() && version == old(version) && !computed && tail == []
        invariant message == old(message) + bytes[..i]
        invariant corrupted == 0 ==> Absorbing()
        invariant corrupted != 0 ==> corrupted == LENGTH_WRAPPED && 8 * |message| == TWO_64
        invariant tail == old(tail)
        decreases |bytes| - i
      {
        InputByte(bytes[i]);
        i := i + 1;
      }
      code := SHA_SUCCESS;
    }

    // Write zero bytes from the index up to the limit.
    method ZeroUpTo(limit: nat)
      requires Shape() && messageBlockIndex <= limit <= 64
      modifies `messageBlockIndex, messageBlock
      ensures messageBlockIndex == limit
      ensures messageBlock[..limit] == old(messageBlock[..messageBlockIndex]) + ZeroBytes(limit - old(messageBlockIndex))
    {
      while messageBlockIndex < limit
        invariant Shape() && old(messageBlockIndex) <= messageBlockIndex <= limit
        invariant messageBlock[..messageBlockIndex] ==
                  old(messageBlock[..messageBlockIndex]) + ZeroBytes(messageBlockIndex - old(messageBlockIndex))
      {
        messageBlock[messageBlockIndex] := 0;
        messageBlockIndex := messageBlockIndex + 1;
      }
    }

    method StoreCount(at: nat, x: uint32)
      requires Shape() && at <= 60
      modifies messageBlock
      ensures messageBlock[at..at + 4] == CountBytes(x)
      ensures messageBlock[..at] == old(messageBlock[..at]) && messageBlock[at + 4..] == old(messageBlock[at + 4..])
    {
      hide CountByte;
      messageBlock[at] := CountByte(x, 0x100_0000);
      messageBlock[at + 1] := CountByte(x, 0x1_0000);
      messageBlock[at + 2] := CountByte(x, 0x100);
      messageBlock[at + 3] := CountByte(x, 1);
    }

    // Zero-fill the current block, store the length in its last eight bytes and hash it.
    method PadLastBlock(ghost done: seq<byte>)
      requires Shape() && messageBlockIndex <= 56
      requires |done| % 64 == 0 && State() == HashBlocks(version, done)
      modifies intermediateHash, `messageBlockIndex, messageBlock
      ensures Shape()
      ensures var part := old(messageBlock[..messageBlockIndex]);
              var block := part + ZeroBytes(56 - |part|) + (CountBytes(lengthHigh) + CountBytes(lengthLow));
              |block| == 64 && State() == HashBlocks(version, done + block)
    {
      hide HashBlocks, CountBytes, ZeroBytes;
      ZeroUpTo(BLOCK_SIZE - 8);
      ghost var front := messageBlock[..56];
      StoreCount(56, lengthHigh);
      ghost var before := messageBlock[..60];
      assert before == front + CountBytes(lengthHigh);
      StoreCount(60, lengthLow);
      assert messageBlock[..] == messageBlock[..60] + messageBlock[60..64] == front + (CountBytes(lengthHigh) + CountBytes(lengthLow));
      ProcessMessageBlock(done);
    }

    // The block is too full for the length: pad and hash it, and leave an empty block.
    method PadFullBlock(padByte: byte, ghost done: seq<byte>)
      requires Shape() && 56 <= messageBlockIndex < 64
      requires |done| % 64 == 0 && State() == HashBlocks(version, done)
      modifies intermediateHash, `messageBlockIndex, messageBlock
      ensures Shape() && messageBlockIndex == 0
      ensures var part := old(messageBlock[..messageBlockIndex]);
              var block := part + [padByte] + ZeroBytes(63 - |part|);
              |block| == 64 && State() == HashBlocks(version, done + block)
    {
      hide HashBlocks, ZeroBytes;
      ghost var part := messageBlock[..messageBlockIndex];
      messageBlock[messageBlockIndex] := padByte;
      messageBlockIndex := messageBlockIndex + 1;
      assert messageBlock[..messageBlockIndex] == part + [padByte];
      ZeroUpTo(BLOCK_SIZE);
      assert messageBlock[..] == messageBlock[..64];
      ProcessMessageBlock(done);
    }

    method PadMessage(padByte: byte)
      requires Shape() && messageBlockIndex < 64 && Absorbed() && Counted()
      requires IsPadByte(padByte, tail)
      modifies intermediateHash, `messageBlockIndex, messageBlock
      ensures Shape()
      ensures State() == HashBlocks(version, PaddedBlocks(MessageBits()))
    {
      hide HashBlocks, CountBytes, ZeroBytes, PaddedBlocks, Bits;
      ghost var done, part := message[..|message| - messageBlockIndex], messageBlock[..messageBlockIndex];
      PaddedSplit(message, tail, padByte, lengthHigh, lengthLow, messageBlockIndex);
      if messageBlockIndex >= BLOCK_SIZE - 8 {
        PadFullBlock(padByte, done);
        done := done + (part + [padByte] + ZeroBytes(63 - |part|));
        assert messageBlock[..0] == [];
      } else {
        messageBlock[messageBlockIndex] := padByte;
        messageBlockIndex := messageBlockIndex + 1;
        assert messageBlock[..messageBlockIndex] == part + [padByte];
      }
      PadLastBlock(done);
    }

    method Finalize(padByte: byte)
      requires Shape() && messageBlockIndex < 64 && Absorbed() && Counted()
      requires IsPadByte(padByte, tail)
      modifies this, intermediateHash, messageBlock
      ensures Shape() && Finished() && computed
      ensures version == old(version) && message == old(message) && tail == old(tail) && corrupted == old(corrupted)
    {
      hide HashBlocks, PaddedBlocks;
      PadMessage(padByte);
      ghost var h := State();
      for i := 0 to BLOCK_SIZE
        modifies messageBlock
        invariant Shape() && State() == h
      {
        messageBlock[i] := 0;
      }
      lengthLow := 0;
      lengthHigh := 0;
      computed := true;
    }

    method FinalBits(messageBits: byte, length: nat) returns (code: int)
      requires Valid()
      modifies this, intermediateHash, messageBlock
      ensures Valid() && version == old(version) && message == old(message)
      ensures length == 0 ==> code == SHA_SUCCESS && corrupted == old(corrupted) && computed == old(computed) && tail == old(tail)
      ensures length > 0 && (old(computed) || length >= 8) ==> code == SHA_STATE_ERROR == corrupted
      ensures 0 < length < 8 && !old(computed) && old(corrupted) != 0 ==> code == old(corrupted) == corrupted
      // Adding fewer than eight bits to a whole number of bytes never wraps the count.
      ensures 0 < length < 8 && !old(computed) && old(corrupted) == 0 ==>
                code == SHA_SUCCESS && corrupted == 0 && computed && tail == ByteBits(messageBits)[..length]
    {
      hide HashBlocks, PaddedBlocks, Bits;
      if length == 0 {
        return SHA_SUCCESS;
      }
      if computed || length >= 8 {
        corrupted := SHA_STATE_ERROR;
        return SHA_STATE_ERROR;
      }
      if corrupted != 0 {
        return corrupted;
      }
      var wrapped := AddLength(length);
      assert !wrapped;
      tail := ByteBits(messageBits)[..length];
      MarkBit(messageBits, length);
      Finalize(MarkedBits(messageBits, length));
      code := SHA_SUCCESS;
    }

    method Result(digest: array<byte>) returns (code: int)
      requires Valid() && digest.Length >= version.HashSize() && digest != messageBlock
      modifies this, intermediateHash, messageBlock, digest
      ensures Valid() && version == old(version) && message == old(message) && tail == old(tail)
      ensures corrupted == old(corrupted) == code
      ensures corrupted != 0 ==> digest[..] == old(digest[..])
      ensures corrupted == 0 ==> computed && digest[..] == Sha(version, MessageBits()) + old(digest[version.HashSize()..])
    {
      hide HashBlocks, PaddedBlocks, Bits, WordByte;
      if corrupted != 0 {
        return corrupted;
      }
      if !computed {
        PadByte80();
        Finalize(0x80);
      }
      WriteDigest(digest);
      code := SHA_SUCCESS;
    }

    method WriteDigest(digest: array<byte>)
      requires Valid() && digest.Length >= version.HashSize() && digest != messageBlock
      modifies digest
      ensures digest[..] == DigestBytes(State(), version.HashSize()) + old(digest[version.HashSize()..])
    {
      hide WordByte;
      ghost var h, rest := State(), digest[version.HashSize()..];
      for i := 0 to version.HashSize()
        invariant forall j | 0 <= j < i :: digest[j] == WordByte(h[j / 4], j % 4)
        invariant digest[version.HashSize()..] == rest
      {
        digest[i] := ShiftedByte(intermediateHash[i / 4], i % 4);
      }
      assert digest[..version.HashSize()] == DigestBytes(h, version.HashSize());
      assert digest[..] == digest[..version.HashSize()] + rest;
    }
  }

  // The cast to uint8_t of the word shifted right by 8 * (3 - j).
  function ShiftedByte(w: word, j: nat): (b: byte)
    requires j < 4
    ensures b == WordByte(w, j)
  {
    ((w >> (8 * (3 - j))) & 0xFF) as byte
  }

  lemma PadByte80()
    ensures IsPadByte(0x80, [])
  {
  }

  // The pad byte of FinalBits: its mask and mark tables, combined.
  function MarkedBits(bits: byte, n: nat): byte
    requires 0 < n < 8
  {
    if n == 1 then (bits & 0x80) | 0x40
    else if n == 2 then (bits & 0xC0) | 0x20
    else if n == 3 then (bits & 0xE0) | 0x10
    else if n == 4 then (bits & 0xF0) | 0x08
    else if n == 5 then (bits & 0xF8) | 0x04
    else if n == 6 then (bits & 0xFC) | 0x02
    else (bits & 0xFE) | 0x01
  }

  /** The tables keep the first n bits, set the next one and clear the rest. */
  lemma MarkBit(bits: byte, n: nat)
    requires 0 < n < 8
    ensures IsPadByte(MarkedBits(bits, n), ByteBits(bits)[..n])
  {
    hide ByteBits, Zeros;
    MarkedByte(bits);
  }

  lemma MarkedByte(b: byte)
    ensures ByteBits((b & 0x80) | 0x40) == ByteBits(b)[..1] + [true] + Zeros(6)
    ensures ByteBits((b & 0xC0) | 0x20) == ByteBits(b)[..2] + [true] + Zeros(5)
    ensures ByteBits((b & 0xE0) | 0x10) == ByteBits(b)[..3] + [true] + Zeros(4)
    ensures ByteBits((b & 0xF0) | 0x08) == ByteBits(b)[..4] + [true] + Zeros(3)
    ensures ByteBits((b & 0xF8) | 0x04) == ByteBits(b)[..5] + [true] + Zeros(2)
    ensures ByteBits((b & 0xFC) | 0x02) == ByteBits(b)[..6] + [true] + Zeros(1)
    ensures ByteBits((b & 0xFE) | 0x01) == ByteBits(b)[..7] + [true] + Zeros(0)
  {
  }

  // What PadMessage hashes in all: the message, then one or two final blocks.
  ghost function FinalBlocks(message: seq<byte>, pad: byte, len: seq<byte>, i: nat): seq<byte>
    requires i < 64 && i <= |message|
  {
    var done, part := message[..|message| - i], message[|message| - i..];
    if i >= 56 then (done + (part + [pad] + ZeroBytes(63 - i))) + ([] + ZeroBytes(56) + len)
    else done + ((part + [pad]) + ZeroBytes(55 - i) + len)
  }

  /** Both branches of PadMessage complete the padded message of section 5.1.1. */
  lemma PaddedSplit(message: seq<byte>, tail: seq<bool>, pad: byte, high: uint32, low: uint32, i: nat)
    requires i < 64 && i <= |message| && (|message| - i) % 64 == 0
    requires IsPadByte(pad, tail) && high * 0x1_0000_0000 + low == 8 * |message| + |tail|
    ensures PaddedBlocks(Bits(message) + tail) == FinalBlocks(message, pad, CountBytes(high) + CountBytes(low), i)
  {
    hide CountBytes, FinalBlocks, PaddedBytes, PaddedBlocks, NatBits, Bits;
    var len := CountBytes(high) + CountBytes(low);
    LengthBits(high, low);
    PadLayout(message, tail, pad, len, 8 * |message| + |tail|);
    SplitBytes(message, pad, len, i);
  }

  lemma SplitBytes(message: seq<byte>, pad: byte, len: seq<byte>, i: nat)
    requires i < 64 && i <= |message| && (|message| - i) % 64 == 0
    ensures PaddedBytes(message, pad, len) == FinalBlocks(message, pad, len, i)
  {
    var done, part := message[..|message| - i], message[|message| - i..];
    assert message == done + part;
    assert ZeroFill(|message|) == if i >= 56 then 63 - i + 56 else 55 - i;
    if i >= 56 {
      assert ZeroBytes(63 - i + 56) == ZeroBytes(63 - i) + ZeroBytes(56);
    }
  }
}
