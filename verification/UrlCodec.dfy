/** The URL encoder and decoder of urlencode.c. */
module UrlCodec {
  import opened Bytes
  import opened Fips180
  import opened Lists
  import opened Wrappers

  const PERCENT: byte := 0x25

  // ----- Characters, as codes of one byte -----

  predicate IsDigit(c: byte) {
    0x30 <= c <= 0x39
  }

  predicate IsUpper(c: byte) {
    0x41 <= c <= 0x5A
  }

  predicate IsLower(c: byte) {
    0x61 <= c <= 0x7A
  }

  // The terminator, the marks ! ( ) * - . _ and ASCII letters and digits.
  predicate Printable(c: byte) {
    || c == 0 || c == 0x21 || c == 0x28 || c == 0x29 || c == 0x2A || c == 0x2D || c == 0x2E || c == 0x5F
    || IsDigit(c) || IsUpper(c) || IsLower(c)
  }

  predicate IsHexDigit(c: byte) {
    IsDigit(c) || 0x41 <= c <= 0x46 || 0x61 <= c <= 0x66
  }

  function NibbleToString(c: byte): byte {
    if c < 10 then c + 0x30 else (c - 10) + 0x61
  }

  function NibbleFromString(c: byte): byte {
    if IsDigit(c) then c - 0x30
    else
      var upper := if IsLower(c) then c - 0x20 else c;
      upper + 10 - 0x41
  }

  // ----- Encoding -----

  function PrintableCharSize(c: byte): nat {
    if Printable(c) then 1 else if c < 0x80 then 3 else 6
  }

  function PrintableChar(c: byte): (r: seq<byte>)
    ensures |r| == PrintableCharSize(c)
  {
    var big, little := c >> 4, NibbleToString(c & 0x0F);
    var bigString := NibbleToString(if big >= 0x0C then big - 0x04 else big);
    if Printable(c) then [c]
    else if c < 0x80 then [PERCENT, bigString, little]
    else [PERCENT, 0x63, if c < 0xC0 then 0x32 else 0x33, PERCENT, bigString, little]
  }

  function Encode(s: seq<byte>): seq<byte> {
    if s == [] then [] else PrintableChar(s[0]) + Encode(s[1..])
  }

  // Two passes over the text, terminator included: one for the length, one for the characters.
  method UrlEncode(input: seq<byte>, memory: bool) returns (encoded: array?<byte>)
    ensures encoded == null <==> !memory
    ensures encoded != null ==> fresh(encoded) && encoded[..] == Encode(input) + [0]
  {
    hide PrintableChar, PrintableCharSize;
    Terminator();
    var text := input + [0];
    var lengthOfResult: nat := 0;
    assert text[0..] == text;
    for i := 0 to |text|
      invariant lengthOfResult + |Encode(text[i..])| == |Encode(text)|
    {
      assert text[i..][1..] == text[i + 1..];
      lengthOfResult := lengthOfResult + PrintableCharSize(text[i]);
    }
    if !memory {
      return null;
    }
    EncodeTerminated(input);
    encoded := new byte[lengthOfResult];
    var position: nat := 0;
    for i := 0 to |text|
      invariant position + |Encode(text[i..])| == encoded.Length
      invariant encoded[..position] + Encode(text[i..]) == Encode(text)
    {
      assert text[i..][1..] == text[i + 1..];
      ghost var before := encoded[..position];
      var chars := PrintableChar(text[i]);
      Put(encoded, position, chars);
      Reassociate(before, chars, Encode(text[i + 1..]));
      position := position + |chars|;
    }
    assert encoded[..] == encoded[..position];
    assert encoded[..position] + [] == encoded[..position];
  }

  lemma Terminator()
    ensures PrintableChar(0) == [0]
  {
  }

  lemma {:induction false} EncodeTerminated(s: seq<byte>)
    ensures Encode(s + [0]) == Encode(s) + [0]
  {
    Terminator();
    hide PrintableChar;
    if s == [] {
      assert [0][1..] == [];
      assert [0] + [] == [0];
    } else {
      assert (s + [0])[1..] == s[1..] + [0];
      EncodeTerminated(s[1..]);
    }
  }

  // ----- Decoding -----

  // How many characters the first encoded one takes; 0 when the decoder does not accept it.
  function FirstStep(s: seq<byte>): (n: nat)
    requires s != []
    ensures n <= |s|
  {
    if s[0] == PERCENT then
      if |s| >= 3 && IsHexDigit(s[1]) && IsHexDigit(s[2]) && 0x30 <= s[1] <= 0x37 then 3 else 0
    else if Printable(s[0]) then 1
    else 0
  }

  function FirstChar(s: seq<byte>): byte
    requires s != [] && FirstStep(s) > 0
  {
    if s[0] == PERCENT then (NibbleFromString(s[1]) << 4) | NibbleFromString(s[2]) else s[0]
  }

  function Decode(s: seq<byte>): Option<seq<byte>>
    decreases |s|
  {
    if s == [] then Some([])
    else
      var n := FirstStep(s);
      if n == 0 then None
      else
        match Decode(s[n..])
        case None => None
        case Some(rest) => Some([FirstChar(s)] + rest)
  }

  // The size of the decoded string with its terminator, 0 for a string that cannot be decoded.
  method CalculateDecodedStringSize(s: seq<byte>) returns (size: nat)
    ensures size == match Decode(s) { case None => 0 case Some(d) => |d| + 1 }
  {
    hide FirstStep, FirstChar;
    size := 0;
    var i: nat := 0;
    assert s[0..] == s;
    while i < |s|
      invariant i <= |s|
      invariant Decode(s).None? <==> Decode(s[i..]).None?
      invariant Decode(s).Some? ==> size + |Decode(s[i..]).value| == |Decode(s).value|
      decreases |s| - i
    {
      var n := FirstStep(s[i..]);
      if n == 0 {
        return 0;
      }
      assert s[i..][n..] == s[i + n..];
      size := size + 1;
      i := i + n;
    }
    size := size + 1;
  }

  // The second pass trusts the first one; it copies the terminator too.
  lemma DecodeFrom(s: seq<byte>, i: nat)
    requires i < |s| && Decode(s[i..]).Some?
    ensures var n := FirstStep(s[i..]);
            && 0 < n && i + n <= |s| && Decode(s[i + n..]).Some?
            && Decode(s[i..]).value == [FirstChar(s[i..])] + Decode(s[i + n..]).value
  {
    hide FirstChar;
    var n := FirstStep(s[i..]);
    assert s[i..][n..] == s[i + n..];
  }

  method CreateDecodedString(s: seq<byte>, output: array<byte>)
    requires Decode(s).Some? && output.Length == |Decode(s).value| + 1
    modifies output
    ensures output[..] == Decode(s).value + [0]
  {
    var i: nat := 0;
    var at: nat := 0;
    assert s[0..] == s;
    while i < |s|
      invariant i <= |s| && Decode(s[i..]).Some?
      invariant at + |Decode(s[i..]).value| + 1 == output.Length
      invariant output[..at] + Decode(s[i..]).value == Decode(s).value
      decreases |s| - i
    {
      ghost var before, rest := output[..at], s[i..];
      DecodeFrom(s, i);
      hide Decode, NibbleFromString, Printable, IsHexDigit;
      if s[i] != PERCENT {
        output[at] := s[i];
        i := i + 1;
      } else {
        output[at] := (NibbleFromString(s[i + 1]) << 4) | NibbleFromString(s[i + 2]);
        i := i + 3;
      }
      assert output[..at + 1] == before + [FirstChar(rest)];
      Reassociate(before, [FirstChar(rest)], Decode(s[i..]).value);
      at := at + 1;
    }
    output[at] := 0;
    assert output[..at] + [] == output[..at];
    assert output[..] == output[..at] + [output[at]];
  }

  method UrlDecode(s: seq<byte>, memory: bool) returns (decoded: array?<byte>)
    ensures decoded == null <==> Decode(s).None? || !memory
    ensures decoded != null ==> fresh(decoded) && decoded[..] == Decode(s).value + [0]
  {
    hide Decode;
    var size := CalculateDecodedStringSize(s);
    if size == 0 || !memory {
      return null;
    }
    decoded := new byte[size];
    CreateDecodedString(s, decoded);
  }

  // ----- Round trip -----

  // The first character of an encoding.
  lemma CharOfEncoding(c: byte, rest: seq<byte>)
    ensures var e := PrintableChar(c) + rest;
            if c < 0x80 then
              && FirstStep(e) == PrintableCharSize(c) && FirstChar(e) == c && e[FirstStep(e)..] == rest
            else FirstStep(e) == 0
  {
    var e := PrintableChar(c) + rest;
    NibblesOf(c);
    assert e[0] == PrintableChar(c)[0];
    if !Printable(c) {
      assert e[1] == PrintableChar(c)[1] && e[2] == PrintableChar(c)[2];
    }
    hide NibbleToString, NibbleFromString;
  }

  lemma NibblesOf(c: byte)
    ensures c < 0x80 ==>
              var h, l := NibbleToString(c >> 4), NibbleToString(c & 0x0F);
              && 0x30 <= h <= 0x37 && IsHexDigit(h) && IsHexDigit(l) && c >> 4 < 0x0C
              && (NibbleFromString(h) << 4) | NibbleFromString(l) == c
    ensures Printable(c) ==> c != PERCENT && c < 0x80
  {
  }

  /** Decoding an encoding gives the text back if and only if the text is ASCII; any other is not decoded at all. */
  lemma {:induction false} DecodeEncode(s: seq<byte>)
    ensures Decode(Encode(s)) == if Ascii(s) then Some(s) else None
  {
    hide PrintableChar, FirstStep, FirstChar;
    if s != [] {
      var e, rest := Encode(s), Encode(s[1..]);
      CharOfEncoding(s[0], rest);
      SomeStep(s[0]);
      DecodeEncode(s[1..]);
      if s[0] < 0x80 {
        assert Ascii(s) <==> Ascii(s[1..]) by {
          assert forall i | 1 <= i < |s| :: s[i] == s[1..][i - 1];
        }
        assert s == [s[0]] + s[1..];
      }
    }
  }

  lemma SomeStep(c: byte)
    ensures |PrintableChar(c)| > 0 && PrintableCharSize(c) > 0
  {
  }

  // ----- What an encoding is made of -----

  // Percent-encoding of one byte, section 2.1 of RFC 3986.
  function Percent(b: byte): seq<byte> {
    [PERCENT, NibbleToString(b >> 4), NibbleToString(b & 0x0F)]
  }

  // The two bytes of a code point from 128 to 255, section 3 of RFC 3629.
  function Utf8(c: byte): seq<byte> {
    [0xC0 | (c >> 6), 0x80 | (c & 0x3F)]
  }

  /** A byte that is not printable is percent-encoded; beyond ASCII it is taken as Latin-1 and encoded as UTF-8. */
  lemma EncodesUtf8(c: byte)
    requires !Printable(c)
    ensures PrintableChar(c) == if c < 0x80 then Percent(c) else Percent(Utf8(c)[0]) + Percent(Utf8(c)[1])
  {
    Utf8Nibbles(c);
    hide NibbleToString;
  }

  lemma Utf8Nibbles(c: byte)
    ensures c < 0x80 ==> c >> 4 < 0x0C
    ensures var u, v := 0xC0 | (c >> 6), 0x80 | (c & 0x3F);
            c >= 0x80 ==>
              && NibbleToString(u >> 4) == 0x63
              && NibbleToString(u & 0x0F) == (if c < 0xC0 then 0x32 else 0x33)
              && v >> 4 == (if c >> 4 >= 0x0C then (c >> 4) - 0x04 else c >> 4)
              && v & 0x0F == c & 0x0F
  {
  }

  // The characters that can occur in an encoding.
  predicate Safe(c: byte) {
    Printable(c) || c == PERCENT
  }

  lemma PrintableCharSafe(c: byte)
    ensures forall i | 0 <= i < |PrintableChar(c)| :: Safe(PrintableChar(c)[i])
  {
  }

  /** An encoding is at least as long as the text, and has only printable characters and percent signs. */
  lemma {:induction false} EncodingIsSafe(s: seq<byte>)
    ensures |Encode(s)| >= |s| && forall i | 0 <= i < |Encode(s)| :: Safe(Encode(s)[i])
  {
    if s != [] {
      PrintableCharSafe(s[0]);
      SomeStep(s[0]);
      EncodingIsSafe(s[1..]);
      hide PrintableChar, Safe;
    }
  }
}
