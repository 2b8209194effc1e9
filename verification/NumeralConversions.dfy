/** What strtoull_s makes of text that holds a numeral, for every base, sign and prefix. */
module NumeralConversions {
  import opened Numbers
  import opened Numerals

  // ----- Digits -----

  lemma LowerAt(d: nat)
    requires d < 36
    ensures |LOWER| == 36 && DigitVal(LOWER[d]) == d && !('A' <= LOWER[d] <= 'Z')
    ensures LOWER[d] as int == (if d < 10 then 48 else 87) + d
  {
    if d < 10 {
    } else if d < 23 {
    } else {
    }
  }

  lemma UpperAt(d: nat)
    requires d < 36
    ensures |UPPER| == 36 && DigitVal(UPPER[d]) == d && !('a' <= UPPER[d] <= 'z')
  {
    if d < 10 {
    } else if d < 23 {
    } else {
    }
  }

  lemma DigitAt(digits: string, d: nat)
    requires Digitary(digits) && d < 36
    ensures |digits| == 36 && DigitVal(digits[d]) == d
  {
    hide DigitVal;
    if digits == LOWER {
      LowerAt(d);
    } else {
      UpperAt(d);
    }
  }

  // A digit or letter is in the lists at the place of its value.
  lemma ListedAt(c: char)
    ensures var d := DigitVal(c); d >= 0 ==> c == LOWER[d] || c == UPPER[d]
  {
    var d := DigitVal(c);
    if d >= 0 {
      LowerAt(d);
      UpperAt(d);
      SameValue(c, LOWER[d], UPPER[d]);
      hide DigitVal;
    }
  }

  lemma SameValue(c: char, lower: char, upper: char)
    requires DigitVal(c) == DigitVal(lower) == DigitVal(upper) >= 0
    requires !('A' <= lower <= 'Z') && !('a' <= upper <= 'z')
    ensures c == lower || c == upper
  {
  }

  /** The digits of a base are the first characters of the lists, and no others. */
  lemma DigitsOfBase(base: nat, c: char)
    requires base <= 36
    ensures InBase(c, base) <==> DigitOf(base, c)
  {
    hide DigitVal;
    ListedAt(c);
    if InBase(c, base) {
      var d := DigitVal(c);
      assert LOWER[..base][d] == LOWER[d] && UPPER[..base][d] == UPPER[d];
    }
    if DigitOf(base, c) {
      var digits := if c in LOWER[..base] then LOWER else UPPER;
      var d :| 0 <= d < base && digits[..base][d] == c;
      DigitAt(digits, d);
    }
  }

  // ----- Numerals -----

  lemma {:induction false} NumberOfNumeral(n: nat, base: nat, digits: string)
    requires 2 <= base <= 36 && Digitary(digits)
    ensures |digits| == 36
    ensures var s := Numeral(n, base, digits); (forall c | c in s :: InBase(c, base)) && Number(s, base) == n
  {
    DigitAt(digits, 0);
    var (rest, d) := LastDigit(n, base);
    DigitAt(digits, d);
    var s := Numeral(n, base, digits);
    hide DigitVal;
    NumeralInBase(s, base, digits);
    if n < base {
      QuotientIsLess(n, base);
      assert s == [] + [digits[d]];
      NumberGrows([], digits[d], base);
      NoDigits(base);
      SmallDigit(n, base);
    } else {
      NumberOfNumeral(rest, base, digits);
      NumberGrows(Numeral(rest, base, digits), digits[d], base);
    }
  }

  lemma SmallDigit(n: nat, base: nat)
    requires 2 <= base && n < base
    ensures LastDigit(n, base) == (0, n)
  {
  }

  lemma NumeralInBase(s: string, base: nat, digits: string)
    requires base <= 36 && Digitary(digits) && forall c | c in s :: c in digits[..base]
    ensures forall c | c in s :: InBase(c, base)
  {
    forall c | c in s
      ensures InBase(c, base)
    {
      DigitsOfBase(base, c);
    }
  }

  // The digits from `start` on are a numeral, and the digits end there.
  lemma NumeralIsRead(s: string, start: nat, n: nat, base: nat, digits: string, rest: string)
    requires 2 <= base <= 36 && Digitary(digits) && EndsDigits(base, rest)
    requires start <= |s| && |digits| == 36 && s[start..] == Numeral(n, base, digits) + rest
    ensures ReadDigits(s, start, base) == Converted(Min(n, ULLONG_MAX), |s| - |rest|, n > ULLONG_MAX)
  {
    hide DigitVal, Number, Numeral, DigitOf;
    var numeral, end := Numeral(n, base, digits), |s| - |rest|;
    NumberOfNumeral(n, base, digits);
    assert s[start..end] == s[start..][..|numeral|] == numeral;
    if rest != "" {
      assert s[end] == s[start..][|numeral|] == rest[0];
      DigitsOfBase(base, rest[0]);
    }
    RunIs(s, start, end, base);
  }

  // ----- Blanks, sign and prefix in front -----

  // Space, and the codes from tab to carriage return.
  predicate Blank(c: char) {
    c as int == 32 || 9 <= c as int <= 13
  }

  ghost predicate Blanks(s: string) {
    forall c | c in s :: Blank(c)
  }

  lemma {:induction false} SpacesAre(s: string, i: nat, blanks: string, text: string)
    requires i <= |blanks| && s == blanks + text && Blanks(blanks)
    requires text == "" || !Blank(text[0])
    ensures Spaces(s, i) == |blanks|
    decreases |blanks| - i
  {
    if i < |blanks| {
      assert s[i] == blanks[i] && blanks[i] in blanks;
      SpacesAre(s, i + 1, blanks, text);
    }
  }

  predicate Sign(sign: string) {
    sign == "" || sign == "+" || sign == "-"
  }

  // How a numeral of this base may be written for a call with this base argument. No prefix of the text that follows
  // a bare zero may be mistaken for part of it.
  predicate Announced(argument: nat, prefix: string, base: nat, n: nat, rest: string) {
    if prefix == "" then
      && base == (if argument == 0 then 10 else argument) && 2 <= base <= 36
      && (n == 0 ==> argument != 0 && base != 8 && (base == 16 && rest != "" ==> rest[0] != 'x' && rest[0] != 'X'))
    else if prefix == "0" then base == 8 && (argument == 0 || argument == 8)
    else (prefix == "0x" || prefix == "0X") && base == 16 && (argument == 0 || argument == 16)
  }

  lemma FirstDigit(n: nat, base: nat, digits: string)
    requires 2 <= base <= 36 && Digitary(digits)
    ensures |digits| == 36
    ensures var c := Numeral(n, base, digits)[0]; InBase(c, base) && (c == '0' <==> n == 0)
    ensures n == 0 ==> Numeral(n, base, digits) == "0"
  {
    forall i | 0 <= i < 36
      ensures |digits| == 36 && DigitVal(digits[i]) == i
    {
      DigitAt(digits, i);
    }
    hide DigitVal;
    assert forall i, j | 0 <= i < j < 36 :: DigitVal(digits[i]) == i && DigitVal(digits[j]) == j;
    LeadingDigit(n, base, digits);
    NumberOfNumeral(n, base, digits);
    assert digits[0] == '0';
  }

  lemma AfterBlanks(s: string, blanks: string, sign: string, text: string)
    requires s == blanks + (sign + text) && Blanks(blanks) && Sign(sign)
    requires text != "" && DigitVal(text[0]) >= 0
    ensures AfterSign(s) == |blanks + sign| && (At(s, Spaces(s, 0)) == '-' <==> sign == "-")
  {
    var all := sign + text;
    assert all[0] == if sign == "" then text[0] else sign[0];
    SpacesAre(s, 0, blanks, all);
    assert s[|blanks|] == all[0];
  }

  // What the code finds at the start of the text is the prefix.
  lemma PrefixSeen(text: string, argument: nat, prefix: string, n: nat, base: nat, numeral: string, rest: string)
    requires Announced(argument, prefix, base, n, rest) && text == prefix + (numeral + rest)
    requires numeral != "" && InBase(numeral[0], base) && (numeral[0] == '0' <==> n == 0) && (n == 0 ==> numeral == "0")
    ensures text != "" && DigitVal(text[0]) >= 0
    ensures var hex := text[0] == '0' && (At(text, 1) == 'x' || At(text, 1) == 'X');
            if hex && (argument == 0 || argument == 16) then |prefix| == 2 && base == 16
            else if !hex && text[0] == '0' && (argument == 0 || argument == 8) then |prefix| == 1 && base == 8
            else |prefix| == 0 && base == if argument == 0 then 10 else argument
  {
    if prefix == "" {
      assert text[0] == numeral[0];
      assert n == 0 ==> At(text, 1) == At(rest, 0);
    } else if prefix == "0" {
      assert At(text, 1) == numeral[0];
    } else {
      assert text[0] == prefix[0] && At(text, 1) == prefix[1];
    }
  }

  lemma SubjectIs(s: string, argument: nat, blanks: string, sign: string, prefix: string,
                  n: nat, base: nat, numeral: string, rest: string)
    requires Blanks(blanks) && Sign(sign) && Announced(argument, prefix, base, n, rest)
    requires numeral != "" && InBase(numeral[0], base) && (numeral[0] == '0' <==> n == 0) && (n == 0 ==> numeral == "0")
    requires s == blanks + (sign + (prefix + (numeral + rest)))
    ensures FindSubject(s, argument) == Subject(|blanks + sign + prefix|, base, sign == "-")
  {
    hide Announced, DigitVal, AfterSign, Spaces, Blanks;
    var text := prefix + (numeral + rest);
    PrefixSeen(text, argument, prefix, n, base, numeral, rest);
    AfterBlanks(s, blanks, sign, text);
    var i := |blanks + sign|;
    assert s[i..] == text;
    assert At(s, i) == text[0] && At(s, i + 1) == At(text, 1);
  }

  /**
   For every number, base, sign and run of blanks, with or without its prefix, in lower or upper case, and whatever
   follows its digits: the numeral is read up to its end and gives the number, or the nearest that fits with the
   overflow reported. A minus sign gives what must be added to it to reach 2^64.
   */
  lemma NumeralIsConverted(argument: nat, blanks: string, sign: string, prefix: string,
                           n: nat, base: nat, digits: string, rest: string)
    requires Blanks(blanks) && Sign(sign) && Announced(argument, prefix, base, n, rest)
    requires Digitary(digits) && EndsDigits(base, rest)
    ensures |digits| == 36
    ensures var s := blanks + (sign + (prefix + (Numeral(n, base, digits) + rest)));
            var value := Min(n, 0xFFFF_FFFF_FFFF_FFFF);
            ConversionOf(s, argument) ==
            Converted(if sign == "-" && n > 0 then 0x1_0000_0000_0000_0000 - value else value, |s| - |rest|,
                      n > 0xFFFF_FFFF_FFFF_FFFF)
  {
    hide FindSubject, ReadDigits, Numeral, EndsDigits, ConversionOf, Blanks, InBase;
    FirstDigit(n, base, digits);
    var numeral := Numeral(n, base, digits);
    var s := blanks + (sign + (prefix + (numeral + rest)));
    SubjectIs(s, argument, blanks, sign, prefix, n, base, numeral, rest);
    Behind(blanks, sign, prefix, numeral + rest);
    var start := |blanks + sign + prefix|;
    NumeralIsRead(s, start, n, base, digits, rest);
    Outcome(s, argument, Subject(start, base, sign == "-"), n, |s| - |rest|);
  }

  lemma Outcome(s: string, argument: nat, t: Subject, n: nat, end: nat)
    requires argument == 0 || 2 <= argument <= 36
    requires t.start <= |s| && FindSubject(s, argument) == t
    requires ReadDigits(s, t.start, t.base) == Converted(Min(n, ULLONG_MAX), end, n > ULLONG_MAX)
    ensures var value := Min(n, ULLONG_MAX);
            ConversionOf(s, argument) ==
            Converted(if t.negative && n > 0 then ULLONG_MAX + 1 - value else value, end, n > ULLONG_MAX)
  {
    hide FindSubject, ReadDigits;
  }

  lemma Behind(a: string, b: string, c: string, d: string)
    ensures (a + (b + (c + d)))[|a + b + c|..] == d
  {
  }

  lemma {:induction false} DecimalIsNumeral(n: nat)
    ensures |LOWER| == 36 && Decimal(n) == Numeral(n, 10, LOWER)
  {
    LowerAt(n % 10);
    hide DigitVal;
    if n >= 10 {
      DecimalIsNumeral(n / 10);
    }
  }

  /** Converting a number to text and back gives the number, and reads up to the terminator. */
  lemma RoundTrip(value: nat)
    requires value <= ULLONG_MAX
    ensures ConversionOf(Decimal(value), 10) == Converted(value, |Decimal(value)|, false)
  {
    hide ConversionOf, Numeral, Decimal;
    DecimalIsNumeral(value);
    var s := Numeral(value, 10, LOWER);
    assert "" + ("" + ("" + (s + ""))) == s;
    NumeralIsConverted(10, "", "", "", value, 10, LOWER, "");
  }
}
