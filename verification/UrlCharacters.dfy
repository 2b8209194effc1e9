/** The URL codec character by character, in terms of the characters themselves. */
module UrlCharacters {
  import opened Bytes
  import opened Fips180
  import Numbers
  import opened NumeralConversions
  import opened Numerals
  import opened UrlCodec

  // The characters that are left as they are.
  predicate Kept(c: byte) {
    c == 0 || CharOf(c) in LOWER || CharOf(c) in UPPER || CharOf(c) in "!()*-._"
  }

  // The two hexadecimal digits of a code.
  function HexPair(c: byte, digits: string): string
    requires |digits| >= 16
  {
    [digits[c as int / 16], digits[c as int % 16]]
  }

  lemma KeptCharacters(c: byte)
    ensures Printable(c) <==> Kept(c)
  {
    DigitsOfBase(36, CharOf(c));
    DigitsAndLetters(c);
    hide Numbers.DigitVal;
    assert LOWER[..36] == LOWER && UPPER[..36] == UPPER;
  }

  lemma DigitsAndLetters(c: byte)
    ensures Numbers.InBase(CharOf(c), 36) <==> IsDigit(c) || IsUpper(c) || IsLower(c)
  {
  }

  /** Letters, digits and the marks listed are their own encoding, and so is all text made of them. */
  lemma {:induction false} KeptIsUnchanged(s: seq<byte>)
    requires forall i | 0 <= i < |s| :: Kept(s[i])
    ensures Encode(s) == s
  {
    if s != [] {
      KeptCharacters(s[0]);
      KeptIsUnchanged(s[1..]);
    }
  }

  /** Every other ASCII character becomes a percent sign and its code in lower-case hexadecimal. */
  lemma OthersArePercent(c: byte)
    requires !Kept(c) && c < 0x80
    ensures |LOWER| == 36
    ensures var e, pair := PrintableChar(c), HexPair(c, LOWER);
            |e| == 3 && CharOf(e[0]) == '%' && CharOf(e[1]) == pair[0] && CharOf(e[2]) == pair[1]
  {
    KeptCharacters(c);
    EncodesUtf8(c);
    NibbleOf(c);
  }

  lemma NibbleOf(c: byte)
    ensures |LOWER| == 36
    ensures CharOf(NibbleToString(c >> 4)) == LOWER[c as int / 16] && CharOf(NibbleToString(c & 0x0F)) == LOWER[c as int % 16]
  {
    Halves(c);
    NibbleAt(c >> 4);
    NibbleAt(c & 0x0F);
    hide NibbleToString;
  }

  lemma Halves(c: byte)
    ensures (c >> 4) as int == c as int / 16 && (c & 0x0F) as int == c as int % 16
    ensures c >> 4 < 16 && c & 0x0F < 16
  {
  }

  lemma NibbleAt(n: byte)
    requires n < 16
    ensures |LOWER| == 36 && CharOf(NibbleToString(n)) == LOWER[n as int]
  {
    LowerAt(n as int);
    hide Numbers.DigitVal;
  }

  /** Beyond ASCII, the two bytes encoded carry the code point as UTF-8 does: 110xxxxx 10xxxxxx. */
  lemma Utf8Carries(c: byte)
    requires c >= 0x80
    ensures var u := Utf8(c);
            && PrintableChar(c) == Percent(u[0]) + Percent(u[1])
            && 0xC0 <= u[0] as int < 0xE0 && 0x80 <= u[1] as int < 0xC0
            && (u[0] as int - 0xC0) * 64 + (u[1] as int - 0x80) == c as int
  {
    NotKept(c);
    EncodesUtf8(c);
    hide PrintableChar, Percent;
  }

  lemma NotKept(c: byte)
    ensures c >= 0x80 ==> !Printable(c)
  {
  }

  // ----- Decoding -----

  /** The decoder takes the kept characters, and a percent sign with the two hexadecimal digits of an ASCII code. */
  lemma AcceptedIs(s: seq<byte>)
    requires s != []
    ensures FirstStep(s) ==
            if Kept(s[0]) then 1
            else if s[0] == PERCENT && |s| >= 3 && CharOf(s[1]) in "01234567" && DigitOf(16, CharOf(s[2])) then 3
            else 0
  {
    KeptCharacters(s[0]);
    hide Kept, Printable;
    NoMark();
    if |s| >= 3 {
      DigitsOfBase(16, CharOf(s[2]));
      HexDigits(s[1]);
      HexDigits(s[2]);
      OctalDigit(s[1]);
    }
    hide IsHexDigit, DigitOf, Numbers.DigitVal;
  }

  lemma NoMark()
    ensures !Printable(PERCENT)
  {
  }

  lemma HexDigits(c: byte)
    ensures IsHexDigit(c) <==> Numbers.InBase(CharOf(c), 16)
    ensures IsHexDigit(c) ==> NibbleFromString(c) as int == Numbers.DigitVal(CharOf(c))
  {
  }

  lemma OctalDigit(c: byte)
    ensures CharOf(c) in "01234567" <==> 0x30 <= c <= 0x37
  {
  }

  /** An ASCII code in two hexadecimal digits of either case is decoded to the character. */
  lemma PercentIsDecoded(c: byte, s: seq<byte>, digits: string)
    requires c < 0x80 && Digitary(digits) && |digits| == 36
    requires |s| >= 3 && s[0] == PERCENT && [CharOf(s[1]), CharOf(s[2])] == HexPair(c, digits)
    ensures FirstStep(s) == 3 && FirstChar(s) == c
  {
    var h, l := c as int / 16, c as int % 16;
    assert CharOf(s[1]) == [CharOf(s[1]), CharOf(s[2])][0] == digits[h];
    assert CharOf(s[2]) == [CharOf(s[1]), CharOf(s[2])][1] == digits[l];
    DigitAt(digits, h);
    DigitAt(digits, l);
    HexDigits(s[1]);
    HexDigits(s[2]);
    LowOctal(s[1]);
    Halves(c);
    hide Numbers.DigitVal, IsHexDigit, NibbleFromString;
    assert NibbleFromString(s[1]) == c >> 4 && NibbleFromString(s[2]) == c & 0x0F;
    Rejoined(c);
  }

  lemma LowOctal(c: byte)
    ensures 0 <= Numbers.DigitVal(CharOf(c)) < 8 ==> 0x30 <= c <= 0x37
  {
  }

  lemma Rejoined(c: byte)
    ensures ((c >> 4) << 4) | (c & 0x0F) == c
  {
  }
}
