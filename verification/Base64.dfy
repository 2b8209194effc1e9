/** The base 64 encoder and decoder of base64.c. */
module Base64 {
  import opened Bytes
  import opened Fips180
  import opened Lists
  import opened Rfc4648

  // ----- Characters, as ASCII codes -----

  function Char(val: byte): byte {
    if val < 26 then 0x41 + val               // 'A'
    else if val < 52 then 0x61 + (val - 26)   // 'a'
    else if val < 62 then 0x30 + (val - 52)   // '0'
    else if val == 62 then 0x2B               // '+'
    else 0x2F                                 // '/'
  }

  function JoinChars(a: byte, b: byte, c: byte, d: byte): bv32 {
    (a as bv32) + ((b as bv32) << 8) + ((c as bv32) << 16) + ((d as bv32) << 24)
  }

  function SplitInt(v: bv32, pos: byte): byte {
    var shifted := if pos == 0 then v else if pos == 1 then v >> 8 else if pos == 2 then v >> 16 else v >> 24;
    (shifted & 0xFF) as byte
  }

  // The character of a four-bit value followed by two zero bits, from a table of packed characters.
  function B16(val: byte): byte {
    var row := val >> 2;
    var values :=
      if row == 0 then JoinChars(0x41, 0x45, 0x49, 0x4D)        // A E I M
      else if row == 1 then JoinChars(0x51, 0x55, 0x59, 0x63)   // Q U Y c
      else if row == 2 then JoinChars(0x67, 0x6B, 0x6F, 0x73)   // g k o s
      else JoinChars(0x77, 0x30, 0x34, 0x38);                   // w 0 4 8
    SplitInt(values, val & 0x03)
  }

  // The character of a two-bit value followed by four zero bits.
  function B8(val: byte): byte {
    SplitInt(JoinChars(0x41, 0x51, 0x67, 0x77), val)   // A Q g w
  }

  /** The packed tables hold the characters of the shifted values. */
  lemma TablesAgree(val: byte)
    ensures val < 16 ==> B16(val) == Char(val << 2)
    ensures val < 4 ==> B8(val) == Char(val << 4)
  {
    if val < 16 {
      B16Agrees(val);
    }
    if val < 4 {
      B8Agrees(val);
    }
  }

  lemma B16Agrees(val: byte)
    requires val < 16
    ensures B16(val) == Char(val << 2)
  {
  }

  lemma B8Agrees(val: byte)
    requires val < 4
    ensures B8(val) == Char(val << 4)
  {
  }

  predicate InAlphabet(c: byte) {
    0x41 <= c <= 0x5A || 0x61 <= c <= 0x7A || 0x30 <= c <= 0x39 || c == 0x2B || c == 0x2F
  }

  function Value(c: byte): byte {
    if 0x41 <= c <= 0x5A then c - 0x41
    else if 0x61 <= c <= 0x7A then 26 + (c - 0x61)
    else if 0x30 <= c <= 0x39 then 52 + (c - 0x30)
    else if c == 0x2B then 62
    else if c == 0x2F then 63
    else 0
  }

  lemma ValueOfChar(val: byte)
    requires val < 64
    ensures InAlphabet(Char(val)) && Value(Char(val)) == val
  {
  }

  // ----- What the two loops compute -----

  function Encode3(a: byte, b: byte, c: byte): (r: seq<byte>)
    ensures |r| == 4
  {
    [Char(a >> 2), Char(((a & 3) << 4) | (b >> 4)), Char(((b & 0x0F) << 2) | ((c >> 6) & 3)), Char(c & 0x3F)]
  }

  function Encode2(a: byte, b: byte): (r: seq<byte>)
    ensures |r| == 4
  {
    [Char(a >> 2), Char(((a & 0x03) << 4) | (b >> 4)), B16(b & 0x0F), PAD]
  }

  function Encode1(a: byte): (r: seq<byte>)
    ensures |r| == 4
  {
    [Char(a >> 2), B8(a & 0x03), PAD, PAD]
  }

  function Encode(source: seq<byte>): seq<byte> {
    if |source| >= 3 then Encode3(source[0], source[1], source[2]) + Encode(source[3..])
    else if |source| == 2 then Encode2(source[0], source[1])
    else if |source| == 1 then Encode1(source[0])
    else []
  }

  function Decode4(w: byte, x: byte, y: byte, z: byte): (r: seq<byte>)
    ensures |r| == 3
  {
    var c1, c2, c3, c4 := Value(w), Value(x), Value(y), Value(z);
    [(c1 << 2) | (c2 >> 4), ((c2 & 0x0F) << 4) | (c3 >> 2), ((c3 & 0x03) << 6) | c4]
  }

  function Decode3(w: byte, x: byte, y: byte): (r: seq<byte>)
    ensures |r| == 2
  {
    var c1, c2, c3 := Value(w), Value(x), Value(y);
    [(c1 << 2) | (c2 >> 4), ((c2 & 0x0F) << 4) | (c3 >> 2)]
  }

  function Decode2(w: byte, x: byte): (r: seq<byte>)
    ensures |r| == 1
  {
    var c1, c2 := Value(w), Value(x);
    [(c1 << 2) | (c2 >> 4)]
  }

  // The bytes of a string of alphabet characters; a single character left over is ignored.
  function DecodeChars(s: seq<byte>): seq<byte> {
    if |s| >= 4 then Decode4(s[0], s[1], s[2], s[3]) + DecodeChars(s[4..])
    else if |s| == 3 then Decode3(s[0], s[1], s[2])
    else if |s| == 2 then Decode2(s[0], s[1])
    else []
  }

  function AlphabetPrefix(s: seq<byte>): (n: nat)
    ensures n <= |s|
    ensures forall i | 0 <= i < n :: InAlphabet(s[i])
    ensures n < |s| ==> !InAlphabet(s[n])
  {
    if s == [] || !InAlphabet(s[0]) then 0 else 1 + AlphabetPrefix(s[1..])
  }

  function DecodeLen(s: seq<byte>): nat
    requires |s| % 4 == 0
  {
    if s == [] then 0 else |s| / 4 * 3 - Padded(s)
  }

  // How many of the last two characters are padding, as the decoder counts them.
  function Padded(s: seq<byte>): nat
    requires |s| >= 2
  {
    if s[|s| - 1] != PAD then 0 else if s[|s| - 2] != PAD then 1 else 2
  }

  lemma {:induction false} EncodeLength(source: seq<byte>)
    ensures |Encode(source)| == (if |source| == 0 then 0 else ((|source| - 1) / 3 + 1) * 4)
  {
    if |source| >= 3 {
      EncodeLength(source[3..]);
    }
  }

  // ----- The loops -----

  method EncodeGroup(encoded: array<byte>, d: nat, b0: byte, b1: byte, b2: byte)
    requires d + 4 <= encoded.Length
    modifies encoded
    ensures encoded[..d + 4] == old(encoded[..d]) + Encode3(b0, b1, b2)
  {
    var c1 := Char(b0 >> 2);
    var c2 := Char(((b0 & 3) << 4) | (b1 >> 4));
    var c3 := Char(((b1 & 0x0F) << 2) | ((b2 >> 6) & 3));
    var c4 := Char(b2 & 0x3F);
    hide Char;
    Put(encoded, d, [c1, c2, c3, c4]);
  }

  // The one or two bytes after the last full group.
  method EncodeRest(encoded: array<byte>, d: nat, source: seq<byte>, position: nat) returns (d': nat)
    requires position <= |source| < position + 3 && d + (if position == |source| then 0 else 4) <= encoded.Length
    modifies encoded
    ensures d' == d + |Encode(source[position..])| <= encoded.Length
    ensures encoded[..d'] == old(encoded[..d]) + Encode(source[position..])
  {
    hide Char, B16, B8;
    EncodeEnd(source[position..]);
    d' := d;
    if |source| - position == 2 {
      var b0, b1 := source[position], source[position + 1];
      Put(encoded, d, [Char(b0 >> 2), Char(((b0 & 0x03) << 4) | (b1 >> 4)), B16(b1 & 0x0F), PAD]);
      d' := d + 4;
    } else if |source| - position == 1 {
      var b0 := source[position];
      Put(encoded, d, [Char(b0 >> 2), B8(b0 & 0x03), PAD, PAD]);
      d' := d + 4;
    }
  }

  /** The string, its terminator included, fits its buffer exactly. */
  method EncodeInternal(source: seq<byte>) returns (encoded: array<byte>)
    ensures fresh(encoded) && encoded[..] == Encode(source) + [0]
  {
    hide Char, B16, B8;
    EncodeLength(source);
    hide Encode, Encode3, Encode2, Encode1;
    var size := |source|;
    var neededSize := if size == 0 then 0 else ((size - 1) / 3 + 1) * 4;
    neededSize := neededSize + 1;
    encoded := new byte[neededSize];
    var position := 0;
    var d := 0;
    assert source[0..] == source;
    while size - position >= 3
      invariant 0 <= position <= size && d <= encoded.Length
      invariant encoded.Length == d + |Encode(source[position..])| + 1
      invariant encoded[..d] + Encode(source[position..]) == Encode(source)
    {
      ghost var before := encoded[..d];
      var b0, b1, b2 := source[position], source[position + 1], source[position + 2];
      EncodeStep(source, position);
      EncodeGroup(encoded, d, b0, b1, b2);
      Reassociate(before, Encode3(b0, b1, b2), Encode(source[position + 3..]));
      position := position + 3;
      d := d + 4;
    }
    EncodeEnd(source[position..]);
    d := EncodeRest(encoded, d, source, position);
    encoded[d] := 0;
    assert encoded[..] == encoded[..d] + [encoded[d]];
  }

  lemma EncodeEnd(source: seq<byte>)
    requires |source| < 3
    ensures Encode(source) == if |source| == 2 then Encode2(source[0], source[1])
                              else if |source| == 1 then Encode1(source[0]) else []
  {
  }

  lemma EncodeStep(source: seq<byte>, i: nat)
    requires i + 3 <= |source|
    ensures Encode(source[i..]) == Encode3(source[i], source[i + 1], source[i + 2]) + Encode(source[i + 3..])
  {
    hide Encode3;
    assert source[i..][3..] == source[i + 3..];
  }

  method NumberOfBase64Characters(s: seq<byte>) returns (length: nat)
    ensures length == AlphabetPrefix(s)
  {
    length := 0;
    assert s[0..] == s;
    while length < |s| && InAlphabet(s[length])
      invariant length <= |s| && length + AlphabetPrefix(s[length..]) == AlphabetPrefix(s)
    {
      assert s[length..][1..] == s[length + 1..];
      length := length + 1;
    }
  }

  lemma DecodeStep(p: seq<byte>, i: nat)
    requires i + 4 <= |p|
    ensures DecodeChars(p[i..]) == Decode4(p[i], p[i + 1], p[i + 2], p[i + 3]) + DecodeChars(p[i + 4..])
  {
    hide Decode4;
    assert p[i..][4..] == p[i + 4..];
  }

  lemma DecodeEnd(p: seq<byte>)
    requires |p| < 4
    ensures DecodeChars(p) == if |p| == 3 then Decode3(p[0], p[1], p[2]) else if |p| == 2 then Decode2(p[0], p[1]) else []
  {
  }

  /** The alphabet characters at the start are decoded; the rest of the buffer keeps what it held. */
  method Decode(decoded: array<byte>, s: seq<byte>)
    requires |DecodeChars(s[..AlphabetPrefix(s)])| <= decoded.Length
    modifies decoded
    ensures var bytes := DecodeChars(s[..AlphabetPrefix(s)]);
            decoded[..] == bytes + old(decoded[..])[|bytes|..]
  {
    hide Value, Decode4, Decode3, Decode2, DecodeChars, AlphabetPrefix;
    var n := NumberOfBase64Characters(s);
    ghost var p := s[..n];
    var i, d := 0, 0;
    assert p[0..] == p;
    while n >= 4
      invariant i + n == |p| && d + |DecodeChars(p[i..])| == |DecodeChars(p)|
      invariant decoded[..d] + DecodeChars(p[i..]) == DecodeChars(p)
      invariant forall k | d <= k < decoded.Length :: decoded[k] == old(decoded[k])
    {
      ghost var before, group := decoded[..d], Decode4(s[i], s[i + 1], s[i + 2], s[i + 3]);
      DecodeStep(p, i);
      Put(decoded, d, Decode4(s[i], s[i + 1], s[i + 2], s[i + 3]));
      Reassociate(before, group, DecodeChars(p[i + 4..]));
      d := d + 3;
      n := n - 4;
      i := i + 4;
    }
    DecodeEnd(p[i..]);
    if n == 2 {
      Put(decoded, d, Decode2(s[i], s[i + 1]));
      d := d + 1;
    } else if n == 3 {
      Put(decoded, d, Decode3(s[i], s[i + 1], s[i + 2]));
      d := d + 2;
    }
    assert decoded[..] == decoded[..d] + decoded[d..];
  }

  // ----- How much the decoder writes -----

  // The number of bytes that so many alphabet characters decode to.
  function Written(chars: nat): nat {
    chars / 4 * 3 + if chars % 4 < 2 then 0 else chars % 4 - 1
  }

  lemma {:induction false} DecodedLength(p: seq<byte>)
    ensures |DecodeChars(p)| == Written(|p|)
  {
    if |p| >= 4 {
      DecodedLength(p[4..]);
    }
  }

  lemma {:induction false} PrefixIs(s: seq<byte>, n: nat)
    requires n <= |s| && (n < |s| ==> !InAlphabet(s[n]))
    requires forall i | 0 <= i < n :: InAlphabet(s[i])
    ensures AlphabetPrefix(s) == n
  {
  }

  /**
   For any string of a length divisible by four, well-formed or not, the decoder stays within the buffer
   allotted to it, and fills it if and only if all characters before the padding are in the alphabet.
   */
  lemma WritesWithinBuffer(s: seq<byte>)
    requires |s| % 4 == 0
    ensures var bytes := DecodeChars(s[..AlphabetPrefix(s)]);
            && |bytes| <= DecodeLen(s)
            && (|bytes| == DecodeLen(s) <==> s == [] || forall i | 0 <= i < |s| - Padded(s) :: InAlphabet(s[i]))
  {
    var n := AlphabetPrefix(s);
    DecodedLength(s[..n]);
    if s != [] {
      var m := |s| - Padded(s);
      assert forall i | m <= i < |s| :: s[i] == PAD;
      if forall i | 0 <= i < m :: InAlphabet(s[i]) {
        PrefixIs(s, m);
      } else {
        assert n < m;
      }
      WrittenBound(|s|, m, n);
    }
  }

  lemma WrittenBound(length: nat, m: nat, n: nat)
    requires length % 4 == 0 && n <= m <= length <= m + 2
    ensures Written(n) <= length / 4 * 3 - (length - m)
    ensures Written(n) == length / 4 * 3 - (length - m) <==> n == m
  {
  }

  /** The decoder: no result for a length that is not a multiple of four, or when memory runs out. */
  method Decoder(source: seq<byte>, memory: bool) returns (result: array?<byte>)
    ensures result == null <==> |source| % 4 != 0 || !memory
    ensures result != null ==> fresh(result) && result.Length == DecodeLen(source)
    ensures result != null ==> DecodeChars(source[..AlphabetPrefix(source)]) <= result[..]
  {
    if |source| % 4 != 0 || !memory {
      return null;
    }
    WritesWithinBuffer(source);
    result := new byte[DecodeLen(source)];
    if result.Length > 0 {
      Decode(result, source);
    }
  }

  // ----- Round trip -----

  // Four six-bit values carry three bytes.
  lemma SixBits(a: byte, b: byte, c: byte)
    ensures var c1, c2, c3, c4 := a >> 2, ((a & 3) << 4) | (b >> 4), ((b & 0x0F) << 2) | ((c >> 6) & 3), c & 0x3F;
            && c1 < 64 && c2 < 64 && c3 < 64 && c4 < 64
            && (c1 << 2) | (c2 >> 4) == a && ((c2 & 0x0F) << 4) | (c3 >> 2) == b && ((c3 & 0x03) << 6) | c4 == c
  {
  }

  lemma DecodeOfEncode3(a: byte, b: byte, c: byte)
    ensures var e := Encode3(a, b, c);
            (forall i | 0 <= i < 4 :: InAlphabet(e[i])) && Decode4(e[0], e[1], e[2], e[3]) == [a, b, c]
  {
    hide Char, Value, InAlphabet;
    SixBits(a, b, c);
    var c1, c2, c3, c4 := a >> 2, ((a & 3) << 4) | (b >> 4), ((b & 0x0F) << 2) | ((c >> 6) & 3), c & 0x3F;
    ValueOfChar(c1);
    ValueOfChar(c2);
    ValueOfChar(c3);
    ValueOfChar(c4);
    assert Encode3(a, b, c) == [Char(c1), Char(c2), Char(c3), Char(c4)];
    hide Encode3;
    assert Decode4(Char(c1), Char(c2), Char(c3), Char(c4)) == [a, b, c];
  }

  lemma DecodeOfEncode2(a: byte, b: byte)
    ensures var e := Encode2(a, b);
            (forall i | 0 <= i < 3 :: InAlphabet(e[i])) && Decode3(e[0], e[1], e[2]) == [a, b]
  {
    var c1, c2 := a >> 2, ((a & 3) << 4) | (b >> 4);
    TablesAgree(b & 0x0F);
    ValueOfChar(c1);
    ValueOfChar(c2);
    ValueOfChar((b & 0x0F) << 2);
    hide Char, Value, InAlphabet, B16;
  }

  lemma DecodeOfEncode1(a: byte)
    ensures var e := Encode1(a);
            (forall i | 0 <= i < 2 :: InAlphabet(e[i])) && Decode2(e[0], e[1]) == [a]
  {
    TablesAgree(a & 0x03);
    ValueOfChar(a >> 2);
    ValueOfChar((a & 0x03) << 4);
    hide Char, Value, InAlphabet, B8;
  }

  // The decoder allots exactly the right buffer for e, and fills it with the bytes.
  ghost predicate DecodesTo(e: seq<byte>, bytes: seq<byte>) {
    && |e| % 4 == 0 && DecodeLen(e) == |bytes|
    && DecodeChars(e[..AlphabetPrefix(e)]) == bytes
  }

  /** Decoding an encoding gives the bytes back, and exactly fills the buffer the decoder allots. */
  lemma {:induction false} DecodeEncode(source: seq<byte>)
    ensures DecodesTo(Encode(source), source)
    decreases |source|
  {
    hide DecodesTo, Encode3, Encode2, Encode1;
    if |source| >= 3 {
      DecodeEncode(source[3..]);
      DecodesFirst(source[0], source[1], source[2], Encode(source[3..]), source[3..]);
      assert source == [source[0], source[1], source[2]] + source[3..];
    } else if |source| == 2 {
      DecodeLast2(source[0], source[1]);
      assert source == [source[0], source[1]];
    } else if |source| == 1 {
      DecodeLast1(source[0]);
      assert source == [source[0]];
    } else {
      DecodeNothing();
    }
  }

  lemma DecodeNothing()
    ensures DecodesTo([], [])
  {
  }

  lemma DecodesFirst(a: byte, b: byte, c: byte, e: seq<byte>, bytes: seq<byte>)
    requires DecodesTo(e, bytes)
    ensures DecodesTo(Encode3(a, b, c) + e, [a, b, c] + bytes)
  {
    DecodeOfEncode3(a, b, c);
    hide Encode3, DecodeLen, DecodeChars, AlphabetPrefix, Decode4, InAlphabet;
    FirstGroup(Encode3(a, b, c), e);
  }

  lemma DecodeLast2(a: byte, b: byte)
    ensures DecodesTo(Encode2(a, b), [a, b])
  {
    var e := Encode2(a, b);
    DecodeOfEncode2(a, b);
    assert e[3] == PAD && e[2] != PAD;
    PrefixIs(e, 3);
    hide Encode2, Decode3, AlphabetPrefix;
    assert e[..3] == [e[0], e[1], e[2]];
  }

  lemma DecodeLast1(a: byte)
    ensures DecodesTo(Encode1(a), [a])
  {
    var e := Encode1(a);
    DecodeOfEncode1(a);
    assert e[3] == PAD && e[2] == PAD;
    PrefixIs(e, 2);
    hide Encode1, Decode2, AlphabetPrefix;
    assert e[..2] == [e[0], e[1]];
  }

  lemma FirstGroup(group: seq<byte>, rest: seq<byte>)
    requires |group| == 4 && |rest| % 4 == 0 && forall i | 0 <= i < 4 :: InAlphabet(group[i])
    ensures var e := group + rest;
            && DecodeLen(e) == 3 + DecodeLen(rest)
            && DecodeChars(e[..AlphabetPrefix(e)])
            == Decode4(group[0], group[1], group[2], group[3]) + DecodeChars(rest[..AlphabetPrefix(rest)])
  {
    var e, n := group + rest, AlphabetPrefix(rest);
    hide DecodeLen, Decode4, InAlphabet, DecodeChars, AlphabetPrefix;
    FirstLength(group, rest);
    PrefixIs(e, n + 4);
    var p := e[..n + 4];
    assert p == group + rest[..n];
    assert p[4..] == rest[..n] && p[0..] == p;
    DecodeStep(p, 0);
  }

  lemma FirstLength(group: seq<byte>, rest: seq<byte>)
    requires |group| == 4 && |rest| % 4 == 0 && InAlphabet(group[3])
    ensures DecodeLen(group + rest) == 3 + DecodeLen(rest)
  {
  }

  // ----- The encoding is that of section 4 of RFC 4648 -----

  // The six-bit values a byte or two spell.
  lemma FirstSix(a: byte, b: seq<bool>)
    requires b == ByteBits(a)
    ensures BitsByte([false, false, b[0], b[1], b[2], b[3], b[4], b[5]]) == a >> 2
  {
  }

  lemma NextSix(a: byte, b: seq<bool>, c: byte, d: seq<bool>)
    requires b == ByteBits(a) && d == ByteBits(c)
    ensures BitsByte([false, false, b[6], b[7], d[0], d[1], d[2], d[3]]) == ((a & 3) << 4) | (c >> 4)
  {
  }

  lemma ThirdSix(a: byte, b: seq<bool>, c: byte, d: seq<bool>)
    requires b == ByteBits(a) && d == ByteBits(c)
    ensures BitsByte([false, false, b[4], b[5], b[6], b[7], d[0], d[1]]) == ((a & 0x0F) << 2) | ((c >> 6) & 3)
  {
  }

  lemma LastSix(a: byte, b: seq<bool>)
    requires b == ByteBits(a)
    ensures BitsByte([false, false, b[2], b[3], b[4], b[5], b[6], b[7]]) == a & 0x3F
    ensures BitsByte([false, false, b[6], b[7], false, false, false, false]) == (a & 3) << 4
    ensures BitsByte([false, false, b[4], b[5], b[6], b[7], false, false]) == (a & 0x0F) << 2
  {
  }

  lemma Sextets3(a: byte, b: byte, c: byte)
    ensures Sextet([a, b, c], 0) == a >> 2
    ensures Sextet([a, b, c], 1) == ((a & 3) << 4) | (b >> 4)
    ensures Sextet([a, b, c], 2) == ((b & 0x0F) << 2) | ((c >> 6) & 3)
    ensures Sextet([a, b, c], 3) == c & 0x3F
  {
    var s := [a, b, c];
    hide BitOf, BitsByte, ByteBits;
    ByteAt(s, 0, 0);
    ByteAt(s, 1, 8);
    ByteAt(s, 2, 16);
    FirstSix(a, ByteBits(a));
    NextSix(a, ByteBits(a), b, ByteBits(b));
    ThirdSix(b, ByteBits(b), c, ByteBits(c));
    LastSix(c, ByteBits(c));
  }

  lemma Sextets2(a: byte, b: byte)
    ensures Sextet([a, b], 0) == a >> 2
    ensures Sextet([a, b], 1) == ((a & 3) << 4) | (b >> 4)
    ensures Sextet([a, b], 2) == (b & 0x0F) << 2
  {
    var s := [a, b];
    hide BitOf, BitsByte, ByteBits;
    ByteAt(s, 0, 0);
    ByteAt(s, 1, 8);
    ByteAt(s, 2, 16);
    FirstSix(a, ByteBits(a));
    NextSix(a, ByteBits(a), b, ByteBits(b));
    LastSix(b, ByteBits(b));
  }

  lemma Sextets1(a: byte)
    ensures Sextet([a], 0) == a >> 2
    ensures Sextet([a], 1) == (a & 3) << 4
  {
    var s := [a];
    hide BitOf, BitsByte, ByteBits;
    ByteAt(s, 0, 0);
    ByteAt(s, 1, 8);
    FirstSix(a, ByteBits(a));
    LastSix(a, ByteBits(a));
  }

  /** The encoder computes the base 64 encoding as the standard defines it. */
  lemma {:induction false} EncodeIsBase64(source: seq<byte>)
    ensures Encode(source) == Base64Of(source)
    decreases |source|
  {
    hide Char, Sextet, Symbol64;
    if |source| >= 3 {
      var block := source[..3];
      EncodeIsBase64(source[3..]);
      BlockIsBase64(source[0], source[1], source[2]);
      Base64Step(block, source[3..]);
      hide Base64Of, Encode3;
      assert block == [source[0], source[1], source[2]] && source == block + source[3..];
    } else if |source| == 2 {
      Last2IsBase64(source[0], source[1]);
      assert source == [source[0], source[1]];
    } else if |source| == 1 {
      Last1IsBase64(source[0]);
      assert source == [source[0]];
    }
  }

  lemma BlockIsBase64(a: byte, b: byte, c: byte)
    ensures Encode3(a, b, c) == Base64Of([a, b, c])
  {
    hide Sextet, Char, Symbol64;
    SameSymbols();
    Sextets3(a, b, c);
    FourOf([a, b, c]);
  }

  lemma SameSymbols()
    ensures forall v: byte :: Symbol64(v) == Char(v)
  {
  }

  // The characters of a block, padding included.
  lemma FourOf(source: seq<byte>)
    requires 0 < |source| <= 3
    ensures Base64Of(source) == [
      Symbol64(Sextet(source, 0)), Symbol64(Sextet(source, 1)),
      if |source| > 1 then Symbol64(Sextet(source, 2)) else PAD,
      if |source| > 2 then Symbol64(Sextet(source, 3)) else PAD]
  {
    hide Sextet, Symbol64;
  }

  lemma Last2IsBase64(a: byte, b: byte)
    ensures Encode2(a, b) == Base64Of([a, b])
  {
    hide Sextet, B16, Char, Symbol64;
    SameSymbols();
    Sextets2(a, b);
    TablesAgree(b & 0x0F);
    FourOf([a, b]);
  }

  lemma Last1IsBase64(a: byte)
    ensures Encode1(a) == Base64Of([a])
  {
    hide Sextet, B8, Char, Symbol64;
    SameSymbols();
    Sextets1(a);
    TablesAgree(a & 0x03);
    FourOf([a]);
  }
}
