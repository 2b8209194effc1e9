/** Whole runs: every way of splitting the input over the calls gives the one-shot digest. */
module HashRuns {
  import opened Fips180
  import opened Hmac
  import opened Lists
  import opened ShaContext
  import opened Words

  lemma ConcatStep<T>(parts: seq<seq<T>>, i: nat)
    requires i < |parts|
    ensures Concat(parts[..i + 1]) == Concat(parts[..i]) + parts[i]
  {
    assert parts[..i + 1] == parts[..i] + [parts[i]];
    ConcatLast(parts[..i], parts[i]);
  }

  /**
   Reset, any number of Input calls (empty ones included), optionally FinalBits, then Result twice: the
   digest of FIPS 180-2 both times, exactly when the whole bytes number fewer than 2^61.
   */
  method Digest(v: ShaVersion, parts: seq<seq<byte>>, lastBits: byte, bitCount: nat)
    returns (code: int, first: seq<byte>, second: seq<byte>)
    requires bitCount < 8
    ensures code == SHA_SUCCESS <==> 8 * |Concat(parts)| < TWO_64
    ensures code == SHA_SUCCESS ==> first == second == Sha(v, Bits(Concat(parts)) + ByteBits(lastBits)[..bitCount])
  {
    hide Sha, Bits, ByteBits, Context.Finished, Context.Absorbing;
    var c := new Context(v);
    for i := 0 to |parts|
      invariant c.Valid() && c.version == v && !c.computed && c.tail == []
      invariant c.corrupted == 0 ==> c.message == Concat(parts[..i])
      invariant c.corrupted == 0 <==> 8 * |Concat(parts[..i])| < TWO_64
    {
      ConcatStep(parts, i);
      var r := c.Input(parts[i]);
    }
    assert parts[..|parts|] == parts;
    var r := c.FinalBits(lastBits, bitCount);
    assert c.corrupted == 0 ==> c.tail == ByteBits(lastBits)[..bitCount];
    var digest := new byte[32];
    code := c.Result(digest);
    first := digest[..v.HashSize()];
    code := c.Result(digest);
    second := digest[..v.HashSize()];
  }

  /** hmacReset, any number of hmacInput calls and hmacResult: the HMAC of RFC 2104 of the whole text. */
  method HmacDigest(v: ShaVersion, key: seq<byte>, parts: seq<seq<byte>>) returns (code: int, mac: seq<byte>)
    requires |key| <= INT_MAX
    ensures code == 0 <==> 8 * (BLOCK_SIZE + |Concat(parts)|) < TWO_64
    ensures code == 0 ==> mac == HmacBits(v, key, Concat(parts), [])
  {
    hide HmacBits, BlockKey, XorPad, Context.Valid;
    var c := new HmacContext();
    var r := c.Reset(v, key);
    for i := 0 to |parts|
      invariant c.Keyed() && c.whichSha == v && c.key == key
      invariant !c.shaContext.computed && c.shaContext.tail == [] && c.text == Concat(parts[..i])
      invariant c.shaContext.corrupted == 0 <==> 8 * (BLOCK_SIZE + |Concat(parts[..i])|) < TWO_64
    {
      ConcatStep(parts, i);
      r := c.Input(parts[i]);
    }
    assert parts[..|parts|] == parts;
    var digest := new byte[64];
    code := c.Result(digest);
    mac := digest[..c.hashSize];
  }
}
