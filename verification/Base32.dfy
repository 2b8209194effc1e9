/** The base 32 encoder and decoder of base32.c. */
module Base32 {
  import opened Bytes
  import opened Fips180
  import opened Lists
  import opened Rfc4648
  import opened Wrappers

  const EQUAL_SIGN: byte := 32   // the place of '=' in the table of characters

  // ----- Characters, as ASCII codes -----

  // The table "abcdefghijklmnopqrstuvwxyz234567=".
  function Symbol(pos: byte): byte
    requires pos <= 32
  {
    if pos < 26 then 0x61 + pos else if pos < 32 then 0x32 + (pos - 26) else PAD
  }

  function Convert(value: byte): byte {
    if 50 <= value <= 55 then 0x1A + (value - 50)
    else if value == 61 then 0x20
    else if value <= 49 || 56 <= value <= 64 then 0xFF
    else if 65 <= value <= 90 then value - 65
    else if 91 <= value <= 96 then 0xFF
    else if 97 <= value <= 123 then value - 97
    else 0xFF
  }

  lemma ConvertOfSymbol(pos: byte)
    requires pos <= 32
    ensures Convert(Symbol(pos)) == pos && Symbol(pos) < 0x80
  {
  }

  // ----- Encoding -----

  function ByteOr0(block: seq<byte>, i: nat): byte {
    if i < |block| then block[i] else 0
  }

  // The five-bit places of a block of up to five bytes.
  function Place(block: seq<byte>, i: nat): byte {
    var b0, b1, b2, b3, b4 :=
      ByteOr0(block, 0), ByteOr0(block, 1), ByteOr0(block, 2), ByteOr0(block, 3), ByteOr0(block, 4);
    if i == 0 then (b0 & 0xF8) >> 3
    else if i == 1 then ((b1 & 0xC0) >> 6) | ((b0 & 0x07) << 2)
    else if i == 2 then (b1 & 0x3E) >> 1
    else if i == 3 then ((b2 & 0xF0) >> 4) | ((b1 & 0x01) << 4)
    else if i == 4 then ((b3 & 0x80) >> 7) | ((b2 & 0x0F) << 1)
    else if i == 5 then (b3 & 0x7C) >> 2
    else if i == 6 then ((b4 & 0xE0) >> 5) | ((b3 & 0x03) << 3)
    else b4 & 0x1F
  }

  // How many of the eight places a block of n bytes uses.
  function Used(n: nat): nat {
    if n == 1 then 2 else if n == 2 then 4 else if n == 3 then 5 else if n == 4 then 7 else 8
  }

  function PaddedPlace(block: seq<byte>, i: nat): (pos: byte)
    ensures pos <= 32
  {
    if i < Used(|block|) then Place(block, i) else EQUAL_SIGN
  }

  function EncodeBlock(block: seq<byte>): (r: seq<byte>)
    ensures |r| == 8
  {
    [Symbol(PaddedPlace(block, 0)), Symbol(PaddedPlace(block, 1)), Symbol(PaddedPlace(block, 2)),
     Symbol(PaddedPlace(block, 3)), Symbol(PaddedPlace(block, 4)), Symbol(PaddedPlace(block, 5)),
     Symbol(PaddedPlace(block, 6)), Symbol(PaddedPlace(block, 7))]
  }

  function Min(a: nat, b: nat): nat {
    if a < b then a else b
  }

  function Encode(source: seq<byte>): seq<byte>
    decreases |source|
  {
    if source == [] then []
    else
      var n := Min(5, |source|);
      EncodeBlock(source[..n]) + Encode(source[n..])
  }

  lemma {:induction false} EncodeLength(source: seq<byte>)
    ensures |Encode(source)| == (|source| + 4) / 5 * 8
    decreases |source|
  {
    if source != [] {
      EncodeLength(source[Min(5, |source|)..]);
    }
  }

  // The two switches over the length of the block, each falling through to the next cases.
  method Places(block: seq<byte>)
    returns (pos1: byte, pos2: byte, pos3: byte, pos4: byte, pos5: byte, pos6: byte, pos7: byte, pos8: byte)
    requires 1 <= |block| <= 5
    ensures pos1 == PaddedPlace(block, 0) && pos2 == PaddedPlace(block, 1)
    ensures pos3 == PaddedPlace(block, 2) && pos4 == PaddedPlace(block, 3)
    ensures pos5 == PaddedPlace(block, 4) && pos6 == PaddedPlace(block, 5)
    ensures pos7 == PaddedPlace(block, 6) && pos8 == PaddedPlace(block, 7)
  {
    pos1, pos2, pos3, pos4, pos5, pos6, pos7, pos8 := 0, 0, 0, 0, 0, 0, 0, 0;
    if |block| >= 5 {
      pos8 := block[4] & 0x1F;
      pos7 := (block[4] & 0xE0) >> 5;
    }
    if |block| >= 4 {
      pos7 := pos7 | ((block[3] & 0x03) << 3);
      pos6 := (block[3] & 0x7C) >> 2;
      pos5 := (block[3] & 0x80) >> 7;
    }
    if |block| >= 3 {
      pos5 := pos5 | ((block[2] & 0x0F) << 1);
      pos4 := (block[2] & 0xF0) >> 4;
    }
    if |block| >= 2 {
      pos4 := pos4 | ((block[1] & 0x01) << 4);
      pos3 := (block[1] & 0x3E) >> 1;
      pos2 := (block[1] & 0xC0) >> 6;
    }
    pos2 := pos2 | ((block[0] & 0x07) << 2);
    pos1 := (block[0] & 0xF8) >> 3;

    if |block| <= 1 {
      pos3, pos4 := EQUAL_SIGN, EQUAL_SIGN;
    }
    if |block| <= 2 {
      pos5 := EQUAL_SIGN;
    }
    if |block| <= 3 {
      pos6, pos7 := EQUAL_SIGN, EQUAL_SIGN;
    }
    if |block| <= 4 {
      pos8 := EQUAL_SIGN;
    }
  }

  method EncodeBlockAt(block: seq<byte>, result: array<byte>, resultLen: nat)
    requires 1 <= |block| <= 5 && resultLen + 8 <= result.Length
    modifies result
    ensures result[..resultLen + 8] == old(result[..resultLen]) + EncodeBlock(block)
    ensures forall i | resultLen + 8 <= i < result.Length :: result[i] == old(result[i])
  {
    hide PaddedPlace, Symbol;
    var pos1, pos2, pos3, pos4, pos5, pos6, pos7, pos8 := Places(block);
    Put(result, resultLen, [Symbol(pos1), Symbol(pos2), Symbol(pos3), Symbol(pos4),
                            Symbol(pos5), Symbol(pos6), Symbol(pos7), Symbol(pos8)]);
  }

  /** The string, its terminator included, fits its buffer exactly. */
  method EncodeImpl(source: seq<byte>) returns (result: array<byte>)
    ensures fresh(result) && result[..] == Encode(source) + [0]
  {
    hide EncodeBlock;
    EncodeLength(source);
    var outputLen := (|source| + 4) / 5 * 8;
    assert outputLen == |Encode(source)|;
    result := new byte[outputLen + 1](_ => 0);
    var position: nat, srcSize: nat, resultLen: nat := 0, |source|, 0;
    assert source[0..] == source;
    while srcSize >= 1
      invariant position + srcSize == |source|
      invariant resultLen + |Encode(source[position..])| == outputLen
      invariant result[..resultLen] + Encode(source[position..]) == Encode(source)
      invariant result[outputLen] == 0
    {
      var blockLen := if srcSize > 5 then 5 else srcSize;
      ghost var before, rest := result[..resultLen], source[position..];
      var block := source[position..position + blockLen];
      assert rest[..blockLen] == block && rest[blockLen..] == source[position + blockLen..];
      EncodeBlockAt(block, result, resultLen);
      Reassociate(before, EncodeBlock(block), Encode(source[position + blockLen..]));
      position := position + blockLen;
      srcSize := srcSize - blockLen;
      resultLen := resultLen + 8;
    }
    assert result[..] == result[..outputLen] + [result[outputLen]];
  }

  // ----- Decoding -----

  // Five bytes out of eight places of five bits.
  function PackPlaces(i0: byte, i1: byte, i2: byte, i3: byte, i4: byte, i5: byte, i6: byte, i7: byte): (r: seq<byte>)
    ensures |r| == 5
  {
    [((i0 & 0x1F) << 3) | ((i1 & 0x1C) >> 2),
     ((i1 & 0x03) << 6) | ((i2 & 0x1F) << 1) | ((i3 & 0x10) >> 4),
     ((i3 & 0x0F) << 4) | ((i4 & 0x1E) >> 1),
     ((i4 & 0x01) << 7) | ((i5 & 0x1F) << 2) | ((i6 & 0x18) >> 3),
     ((i6 & 0x07) << 5) | (i7 & 0x1F)]
  }

  function DecodeBlock(chars: seq<byte>): (r: seq<byte>)
    requires |chars| == 8
    ensures |r| == 5
  {
    PackPlaces(Convert(chars[0]), Convert(chars[1]), Convert(chars[2]), Convert(chars[3]),
               Convert(chars[4]), Convert(chars[5]), Convert(chars[6]), Convert(chars[7]))
  }

  // How many of the five bytes are kept: the padding is looked for in every other place.
  function Kept(chars: seq<byte>): (n: nat)
    requires |chars| == 8
    ensures 1 <= n <= 5
  {
    if Convert(chars[7]) != EQUAL_SIGN then 5
    else if Convert(chars[5]) != EQUAL_SIGN then 4
    else if Convert(chars[4]) != EQUAL_SIGN then 3
    else if Convert(chars[2]) != EQUAL_SIGN then 2
    else 1
  }

  // The bytes written to the buffer, five for every block.
  function Unpacked(s: seq<byte>): seq<byte> {
    if |s| < 8 then [] else DecodeBlock(s[..8]) + Unpacked(s[8..])
  }

  // The length of the result.
  function DestSize(s: seq<byte>): nat {
    if |s| < 8 then 0 else Kept(s[..8]) + DestSize(s[8..])
  }

  lemma {:induction false} UnpackedLength(s: seq<byte>)
    ensures |s| % 8 == 0 ==> |Unpacked(s)| == |s| * 5 / 8
    ensures DestSize(s) <= |Unpacked(s)|
  {
    hide DecodeBlock, Kept;
    if |s| >= 8 {
      UnpackedLength(s[8..]);
    }
  }

  /** No result for a length that is not a multiple of eight, for a character beyond ASCII, or without memory. */
  function Decode(s: seq<byte>, memory: bool): Option<seq<byte>> {
    if |s| % 8 != 0 || !memory || !Ascii(s) then None
    else
      UnpackedLength(s);
      Some(Unpacked(s)[..DestSize(s)])
  }

  // The places of eight characters; not ok when one of them is not ASCII.
  method ReadBlock(chars: seq<byte>) returns (input: seq<byte>, ok: bool)
    requires |chars| == 8
    ensures ok <==> Ascii(chars)
    ensures ok ==> |input| == 8 && forall i | 0 <= i < 8 :: input[i] == Convert(chars[i])
  {
    hide Convert;
    input, ok := [], true;
    for index := 0 to 8
      invariant |input| == index
      invariant forall i | 0 <= i < index :: chars[i] < 0x80
      invariant forall i | 0 <= i < index :: input[i] == Convert(chars[i])
    {
      if chars[index] >= 0x80 {
        return input, false;
      }
      input := input + [Convert(chars[index])];
    }
  }

  method DecodeImpl(s: seq<byte>, memory: bool) returns (result: Option<seq<byte>>)
    ensures result == Decode(s, memory)
  {
    hide Convert, PackPlaces, Kept, Unpacked, DestSize, Ascii, Decode;
    DecodeIs(s, memory);
    if |s| % 8 != 0 || !memory {
      return None;
    }
    UnpackedLength(s);
    var allocationLen := |s| * 5 / 8;
    var buffer := new byte[allocationLen];
    var position: nat, dest: nat, destSize: nat := 0, 0, 0;
    assert s[0..] == s && s[..0] == [];
    ghost var blocks: nat := |s| / 8;
    AsciiNothing();
    while position < |s|
      invariant position <= |s| && |s| - position == 8 * blocks && destSize <= dest
      invariant Ascii(s[..position]) && buffer.Length == allocationLen
      invariant dest + |Unpacked(s[position..])| == allocationLen
      invariant buffer[..dest] + Unpacked(s[position..]) == Unpacked(s)
      invariant destSize + DestSize(s[position..]) == DestSize(s)
    {
      ghost var before := buffer[..dest];
      var chars := s[position..position + 8];
      UnpackStep(s, position);
      AsciiStep(s, position);
      var input, ok := ReadBlock(chars);
      if !ok {
        return None;
      }
      // The check for an overflow of the buffer at this point never fires.
      assert destSize + 5 <= allocationLen;
      var bytes := PackPlaces(input[0], input[1], input[2], input[3], input[4], input[5], input[6], input[7]);
      assert bytes == DecodeBlock(chars);
      hide DecodeBlock;
      Put(buffer, dest, bytes);
      Reassociate(before, bytes, Unpacked(s[position + 8..]));
      var kept := Unpad(input, chars);
      dest := dest + 5;
      destSize := destSize + kept;
      blocks := blocks - 1;
      position := position + 8;
    }
    assert s[..position] == s && s[position..] == [];
    UnpackNothing();
    assert buffer[..dest] + [] == buffer[..dest];
    assert buffer[..destSize] == buffer[..dest][..destSize];
    result := Some(buffer[..destSize]);
  }

  lemma DecodeIs(s: seq<byte>, memory: bool)
    ensures |s| % 8 != 0 || !memory || !Ascii(s) ==> Decode(s, memory) == None
    ensures |s| % 8 == 0 && memory && Ascii(s) ==>
              DestSize(s) <= |Unpacked(s)| && Decode(s, memory) == Some(Unpacked(s)[..DestSize(s)])
  {
    if |s| % 8 == 0 {
      UnpackedLength(s);
    }
  }

  lemma UnpackStep(s: seq<byte>, i: nat)
    requires i + 8 <= |s|
    ensures Unpacked(s[i..]) == DecodeBlock(s[i..i + 8]) + Unpacked(s[i + 8..])
    ensures DestSize(s[i..]) == Kept(s[i..i + 8]) + DestSize(s[i + 8..])
  {
    hide DecodeBlock, Kept;
    assert s[i..][..8] == s[i..i + 8] && s[i..][8..] == s[i + 8..];
  }

  lemma UnpackNothing()
    ensures Unpacked([]) == [] && DestSize([]) == 0
  {
  }

  lemma AsciiNothing()
    ensures Ascii([])
  {
  }

  lemma AsciiStep(s: seq<byte>, i: nat)
    requires i + 8 <= |s| && Ascii(s[..i])
    ensures if Ascii(s[i..i + 8]) then Ascii(s[..i + 8]) else !Ascii(s)
  {
    var chars := s[i..i + 8];
    if !Ascii(chars) {
      var j :| 0 <= j < 8 && chars[j] >= 0x80;
      assert s[i + j] >= 0x80;
    } else {
      assert s[..i + 8] == s[..i] + chars;
    }
  }

  method Unpad(input: seq<byte>, ghost chars: seq<byte>) returns (kept: nat)
    requires |input| == |chars| == 8 && forall i | 0 <= i < 8 :: input[i] == Convert(chars[i])
    ensures kept == Kept(chars)
  {
    hide Convert;
    kept := 5;
    if input[7] == EQUAL_SIGN {
      kept := kept - 1;
      if input[5] == EQUAL_SIGN {
        kept := kept - 1;
        if input[4] == EQUAL_SIGN {
          kept := kept - 1;
          if input[2] == EQUAL_SIGN {
            kept := kept - 1;
          }
        }
      }
    }
  }

  // ----- Round trip -----

  lemma ConvertedBlock(block: seq<byte>)
    requires 1 <= |block| <= 5
    ensures var e := EncodeBlock(block);
            Ascii(e) && forall i | 0 <= i < 8 :: Convert(e[i]) == PaddedPlace(block, i)
  {
    ConvertOfSymbol(PaddedPlace(block, 0));
    ConvertOfSymbol(PaddedPlace(block, 1));
    ConvertOfSymbol(PaddedPlace(block, 2));
    ConvertOfSymbol(PaddedPlace(block, 3));
    ConvertOfSymbol(PaddedPlace(block, 4));
    ConvertOfSymbol(PaddedPlace(block, 5));
    ConvertOfSymbol(PaddedPlace(block, 6));
    ConvertOfSymbol(PaddedPlace(block, 7));
    hide Convert, Symbol, PaddedPlace;
  }

  // The forty bits of eight places are those of the five bytes; padding counts as zero bits.
  lemma FortyBits(block: seq<byte>)
    requires 1 <= |block| <= 5
    ensures DecodeBlock(EncodeBlock(block))[..|block|] == block
    ensures Kept(EncodeBlock(block)) == |block|
  {
    hide Convert, EncodeBlock, Symbol, PackPlaces;
    ConvertedBlock(block);
    PlacesPack(block);
    PlacesKept(block);
    hide PaddedPlace;
  }

  // Padding is found at the places looked at, and only there.
  lemma PlacesKept(block: seq<byte>)
    requires 1 <= |block| <= 5
    ensures PaddedPlace(block, 7) == EQUAL_SIGN <==> |block| < 5
    ensures PaddedPlace(block, 5) == EQUAL_SIGN <==> |block| < 4
    ensures PaddedPlace(block, 4) == EQUAL_SIGN <==> |block| < 3
    ensures PaddedPlace(block, 2) == EQUAL_SIGN <==> |block| < 2
  {
  }

  lemma PlacesPack(block: seq<byte>)
    requires 1 <= |block| <= 5
    ensures PackPlaces(PaddedPlace(block, 0), PaddedPlace(block, 1), PaddedPlace(block, 2), PaddedPlace(block, 3),
                       PaddedPlace(block, 4), PaddedPlace(block, 5), PaddedPlace(block, 6), PaddedPlace(block, 7))[..|block|]
         == block
  {
    PlacesBits(block);
    hide PaddedPlace;
    var r := PackPlaces(PaddedPlace(block, 0), PaddedPlace(block, 1), PaddedPlace(block, 2), PaddedPlace(block, 3),
                        PaddedPlace(block, 4), PaddedPlace(block, 5), PaddedPlace(block, 6), PaddedPlace(block, 7));
    SameStart(r, block);
  }

  lemma SameStart(r: seq<byte>, block: seq<byte>)
    requires |block| <= 5 == |r|
    requires |block| > 0 ==> r[0] == block[0]
    requires |block| > 1 ==> r[1] == block[1]
    requires |block| > 2 ==> r[2] == block[2]
    requires |block| > 3 ==> r[3] == block[3]
    requires |block| > 4 ==> r[4] == block[4]
    ensures r[..|block|] == block
  {
  }

  lemma PlacesBits(block: seq<byte>)
    requires 1 <= |block| <= 5
    ensures var p0, p1, p2, p3 := PaddedPlace(block, 0), PaddedPlace(block, 1), PaddedPlace(block, 2), PaddedPlace(block, 3);
            var p4, p5, p6, p7 := PaddedPlace(block, 4), PaddedPlace(block, 5), PaddedPlace(block, 6), PaddedPlace(block, 7);
            && ((p0 & 0x1F) << 3) | ((p1 & 0x1C) >> 2) == block[0]
            && (|block| > 1 ==> ((p1 & 0x03) << 6) | ((p2 & 0x1F) << 1) | ((p3 & 0x10) >> 4) == block[1])
            && (|block| > 2 ==> ((p3 & 0x0F) << 4) | ((p4 & 0x1E) >> 1) == block[2])
            && (|block| > 3 ==> ((p4 & 0x01) << 7) | ((p5 & 0x1F) << 2) | ((p6 & 0x18) >> 3) == block[3])
            && (|block| > 4 ==> ((p6 & 0x07) << 5) | (p7 & 0x1F) == block[4])
  {
  }

  /** Decoding an encoding gives the bytes back, and their exact number, whatever the length of the last block. */
  lemma {:induction false} DecodeEncode(source: seq<byte>)
    ensures Decode(Encode(source), true) == Some(source)
  {
    Unpacks(source);
  }

  // What the decoder unpacks from an encoding.
  ghost predicate UnpacksTo(e: seq<byte>, source: seq<byte>) {
    && |e| % 8 == 0 && Ascii(e) && DestSize(e) == |source|
    && |source| <= |Unpacked(e)| && Unpacked(e)[..|source|] == source
  }

  lemma {:induction false} Unpacks(source: seq<byte>)
    ensures UnpacksTo(Encode(source), source)
    decreases |source|
  {
    if source != [] {
      var n := Min(5, |source|);
      var block, rest := source[..n], source[n..];
      Unpacks(rest);
      FortyBits(block);
      ConvertedBlock(block);
      hide EncodeBlock, DecodeBlock, Kept, UnpacksTo;
      UnpacksBlock(EncodeBlock(block), Encode(rest), block, rest);
      assert source == block + rest;
    }
  }

  lemma UnpacksBlock(e: seq<byte>, more: seq<byte>, block: seq<byte>, rest: seq<byte>)
    requires |e| == 8 && Ascii(e) && UnpacksTo(more, rest)
    requires 1 <= |block| <= 5 && (|block| < 5 ==> rest == [])
    requires DecodeBlock(e)[..|block|] == block && Kept(e) == |block|
    ensures UnpacksTo(e + more, block + rest)
  {
    hide DecodeBlock, Kept;
    var all := e + more;
    assert all[..8] == e && all[8..] == more;
    var u := DecodeBlock(e) + Unpacked(more);
    assert u[..|block| + |rest|] == block + rest;
  }

  // ----- The encoding is that of section 6 of RFC 4648 -----

  lemma ByteOr0At(block: seq<byte>, n: nat, p: nat)
    requires p == 8 * n
    ensures var b := ByteBits(ByteOr0(block, n));
            && BitOf(block, p) == b[0] && BitOf(block, p + 1) == b[1] && BitOf(block, p + 2) == b[2]
            && BitOf(block, p + 3) == b[3] && BitOf(block, p + 4) == b[4] && BitOf(block, p + 5) == b[5]
            && BitOf(block, p + 6) == b[6] && BitOf(block, p + 7) == b[7]
  {
    ByteAt(block, n, p);
    hide BitOf;
  }

  // The five-bit values that one or two bytes spell.
  lemma FiveOfOne(x: byte, a: seq<bool>)
    requires a == ByteBits(x)
    ensures BitsByte([false, false, false, a[0], a[1], a[2], a[3], a[4]]) == (x & 0xF8) >> 3
    ensures BitsByte([false, false, false, a[2], a[3], a[4], a[5], a[6]]) == (x & 0x3E) >> 1
    ensures BitsByte([false, false, false, a[1], a[2], a[3], a[4], a[5]]) == (x & 0x7C) >> 2
    ensures BitsByte([false, false, false, a[3], a[4], a[5], a[6], a[7]]) == x & 0x1F
  {
  }

  lemma ThreeAndTwo(x: byte, a: seq<bool>, y: byte, b: seq<bool>)
    requires a == ByteBits(x) && b == ByteBits(y)
    ensures BitsByte([false, false, false, a[5], a[6], a[7], b[0], b[1]]) == ((y & 0xC0) >> 6) | ((x & 0x07) << 2)
  {
  }

  lemma OneAndFour(x: byte, a: seq<bool>, y: byte, b: seq<bool>)
    requires a == ByteBits(x) && b == ByteBits(y)
    ensures BitsByte([false, false, false, a[7], b[0], b[1], b[2], b[3]]) == ((y & 0xF0) >> 4) | ((x & 0x01) << 4)
  {
  }

  lemma FourAndOne(x: byte, a: seq<bool>, y: byte, b: seq<bool>)
    requires a == ByteBits(x) && b == ByteBits(y)
    ensures BitsByte([false, false, false, a[4], a[5], a[6], a[7], b[0]]) == ((y & 0x80) >> 7) | ((x & 0x0F) << 1)
  {
  }

  lemma TwoAndThree(x: byte, a: seq<bool>, y: byte, b: seq<bool>)
    requires a == ByteBits(x) && b == ByteBits(y)
    ensures BitsByte([false, false, false, a[6], a[7], b[0], b[1], b[2]]) == ((y & 0xE0) >> 5) | ((x & 0x03) << 3)
  {
  }

  lemma FirstQuintets(block: seq<byte>)
    requires 1 <= |block| <= 5
    ensures Quintet(block, 0) == Place(block, 0) && Quintet(block, 1) == Place(block, 1)
    ensures Quintet(block, 2) == Place(block, 2) && Quintet(block, 3) == Place(block, 3)
  {
    hide BitOf, BitsByte, ByteBits, ByteOr0;
    var b0, b1, b2 := ByteOr0(block, 0), ByteOr0(block, 1), ByteOr0(block, 2);
    ByteOr0At(block, 0, 0);
    ByteOr0At(block, 1, 8);
    ByteOr0At(block, 2, 16);
    FiveOfOne(b0, ByteBits(b0));
    ThreeAndTwo(b0, ByteBits(b0), b1, ByteBits(b1));
    FiveOfOne(b1, ByteBits(b1));
    OneAndFour(b1, ByteBits(b1), b2, ByteBits(b2));
  }

  lemma LastQuintets(block: seq<byte>)
    requires 1 <= |block| <= 5
    ensures Quintet(block, 4) == Place(block, 4) && Quintet(block, 5) == Place(block, 5)
    ensures Quintet(block, 6) == Place(block, 6) && Quintet(block, 7) == Place(block, 7)
  {
    hide BitOf, BitsByte, ByteBits, ByteOr0;
    var b2, b3, b4 := ByteOr0(block, 2), ByteOr0(block, 3), ByteOr0(block, 4);
    ByteOr0At(block, 2, 16);
    ByteOr0At(block, 3, 24);
    ByteOr0At(block, 4, 32);
    FourAndOne(b2, ByteBits(b2), b3, ByteBits(b3));
    FiveOfOne(b3, ByteBits(b3));
    TwoAndThree(b3, ByteBits(b3), b4, ByteBits(b4));
    FiveOfOne(b4, ByteBits(b4));
  }

  lemma UsedPlaces(block: seq<byte>, i: nat)
    requires 1 <= |block| <= 5 && i < 8
    ensures 5 * i < 8 * |block| <==> i < Used(|block|)
    ensures Place(block, i) < 32
  {
  }

  lemma SameSymbol(pos: byte)
    requires pos <= 32
    ensures Symbol(pos) == if pos == EQUAL_SIGN then PAD else Symbol32(pos)
  {
  }

  lemma QuintetIs(block: seq<byte>, i: nat)
    requires 1 <= |block| <= 5 && i < 8
    ensures Quintet(block, i) == Place(block, i)
  {
    hide Quintet, Place;
    FirstQuintets(block);
    LastQuintets(block);
  }

  lemma CharacterIs(block: seq<byte>, i: nat)
    requires 1 <= |block| <= 5 && i < 8
    ensures Symbol(PaddedPlace(block, i)) == if 5 * i < 8 * |block| then Symbol32(Quintet(block, i)) else PAD
  {
    hide Quintet, Place, Symbol, Symbol32, Used;
    QuintetIs(block, i);
    UsedPlaces(block, i);
    SameSymbol(PaddedPlace(block, i));
  }

  lemma BlockIsBase32(block: seq<byte>)
    requires 1 <= |block| <= 5
    ensures EncodeBlock(block) == Base32Of(block)
  {
    hide Quintet, PaddedPlace, Symbol, Symbol32;
    var e, r := EncodeBlock(block), Base32Of(block);
    assert |r| == 8;
    forall i | 0 <= i < 8
      ensures r[i] == Symbol(PaddedPlace(block, i))
    {
      CharacterIs(block, i);
    }
    hide Base32Of;
  }

  /** The encoder computes the base 32 encoding as the standard defines it, in lower case. */
  lemma {:induction false} EncodeIsBase32(source: seq<byte>)
    ensures Encode(source) == Base32Of(source)
    decreases |source|
  {
    hide EncodeBlock, Quintet, Symbol32;
    if source != [] {
      var n := Min(5, |source|);
      var block, rest := source[..n], source[n..];
      EncodeIsBase32(rest);
      BlockIsBase32(block);
      if n == 5 {
        Base32Step(block, rest);
        assert source == block + rest;
      } else {
        assert source == block && rest == [];
      }
      hide Base32Of;
    }
  }

  // ----- What the decoder makes of other characters -----

  // The alphabet character an ASCII character is read as.
  function ReadAs(c: byte): byte {
    if Convert(c) == 0xFF then 0x37 else Symbol(Convert(c))
  }

  lemma ReadAsPlace(c: byte)
    ensures var v, w := Convert(c), Convert(ReadAs(c));
            && v & 0x1F == w & 0x1F && (v == EQUAL_SIGN <==> w == EQUAL_SIGN)
            && (v != 0xFF ==> v == w) && (v == 0xFF ==> w == 31)
            && ReadAs(c) < 0x80
  {
  }

  function ReadAll(s: seq<byte>): (r: seq<byte>)
    ensures |r| == |s|
  {
    seq(|s|, i requires 0 <= i < |s| => ReadAs(s[i]))
  }

  lemma SamePacking(v: byte, w: byte)
    requires v == w || (v == 0xFF && w == 31)
    ensures v & 0x1F == w & 0x1F && v & 0x1C == w & 0x1C && v & 0x03 == w & 0x03 && v & 0x10 == w & 0x10
    ensures v & 0x0F == w & 0x0F && v & 0x1E == w & 0x1E && v & 0x01 == w & 0x01 && v & 0x18 == w & 0x18
    ensures v & 0x07 == w & 0x07
  {
  }

  lemma ReadBlockAs(chars: seq<byte>)
    requires |chars| == 8
    ensures DecodeBlock(chars) == DecodeBlock(ReadAll(chars)) && Kept(chars) == Kept(ReadAll(chars))
  {
    var r := ReadAll(chars);
    forall i | 0 <= i < 8
      ensures var v, w := Convert(chars[i]), Convert(r[i]);
              && (v == w || (v == 0xFF && w == 31)) && (v == EQUAL_SIGN <==> w == EQUAL_SIGN)
              && v & 0x1F == w & 0x1F && v & 0x1C == w & 0x1C && v & 0x03 == w & 0x03 && v & 0x10 == w & 0x10
              && v & 0x0F == w & 0x0F && v & 0x1E == w & 0x1E && v & 0x01 == w & 0x01 && v & 0x18 == w & 0x18
              && v & 0x07 == w & 0x07
    {
      ReadAsPlace(chars[i]);
      SamePacking(Convert(chars[i]), Convert(r[i]));
    }
    hide ReadAll, Convert;
  }

  /**
   The decoder rejects no ASCII character: upper case is read as lower case, '{' as '2', and every other
   character outside the alphabet as '7'.
   */
  lemma {:induction false} ReadsEveryAsciiString(s: seq<byte>)
    requires Ascii(s)
    ensures Decode(s, true) == Decode(ReadAll(s), true)
  {
    forall i | 0 <= i < |s|
      ensures ReadAll(s)[i] < 0x80
    {
      ReadAsPlace(s[i]);
    }
    UnpacksTheSame(s);
    hide ReadAs, Unpacked, DestSize;
  }

  lemma {:induction false} UnpacksTheSame(s: seq<byte>)
    ensures Unpacked(s) == Unpacked(ReadAll(s)) && DestSize(s) == DestSize(ReadAll(s))
  {
    if |s| >= 8 {
      hide DecodeBlock, Kept, ReadAs;
      ReadBlockAs(s[..8]);
      UnpacksTheSame(s[8..]);
      assert ReadAll(s)[..8] == ReadAll(s[..8]) && ReadAll(s)[8..] == ReadAll(s[8..]);
    }
  }

  lemma ReadAsIs(c: byte)
    requires c < 0x80
    ensures Convert(c) < 0xFF <==> 0x61 <= c <= 0x7B || 0x41 <= c <= 0x5A || 0x32 <= c <= 0x37 || c == PAD
    ensures 0x61 <= c <= 0x7A || 0x32 <= c <= 0x37 || c == PAD ==> ReadAs(c) == c
    ensures 0x41 <= c <= 0x5A ==> ReadAs(c) == c + 0x20
    ensures c == 0x7B ==> ReadAs(c) == 0x32
  {
  }
}
