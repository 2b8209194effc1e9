/** Which responses open the tunnel, by the decimal code on their status line. */
module ProxyCodes {
  import opened Lists
  import Numbers
  import opened NumeralConversions
  import opened Numerals
  import opened ProxyIo
  import opened ProxyResponse
  import opened ProxyRuns
  import opened Words
  import opened Wrappers

  // How strtol with base 0 takes a number in front of `rest`: decimal, octal behind a zero, or hexadecimal behind 0x.
  predicate Written(prefix: string, base: nat, n: nat, rest: string) {
    || (prefix == "" && base == 10 && n > 0)
    || (prefix == "" && base == 8 && n == 0 && (rest == "" || (rest[0] != 'x' && rest[0] != 'X')))
    || (prefix == "0" && base == 8)
    || ((prefix == "0x" || prefix == "0X") && base == 16)
  }

  // A number in text: blanks, a sign, a prefix, and digits of either case.
  datatype Number = Number(blanks: string, sign: string, prefix: string, n: nat, base: nat, digits: string)

  ghost predicate WellWritten(number: Number, rest: string) {
    && Blanks(number.blanks) && Sign(number.sign) && Digitary(number.digits) && |number.digits| == 36
    && Written(number.prefix, number.base, number.n, rest) && EndsDigits(number.base, rest)
  }

  function Phrase(number: Number, rest: string): string
    requires 2 <= number.base <= |number.digits|
  {
    number.blanks + (number.sign + (number.prefix + (Numeral(number.n, number.base, number.digits) + rest)))
  }

  // A response with this number: a version with a dot in it, a blank, the number, and anything that does not go on with it.
  ghost predicate Bears(h: string, major: string, minor: string, number: Number, rest: string) {
    && WellWritten(number, rest)
    && h == "HTTP/" + major + ("." + minor + (" " + Phrase(number, rest)))
    && '.' !in major && ' ' !in minor
  }

  // The decimal code of an ordinary response.
  ghost predicate BearsCode(h: string, major: string, minor: string, code: nat, rest: string) {
    && |LOWER| == 36
    && h == "HTTP/" + major + ("." + minor + (" " + (Numeral(code, 10, LOWER) + rest)))
    && '.' !in major && ' ' !in minor && EndsDigits(10, rest)
  }

  lemma {:induction false} FindAt(s: string, c: char, i: nat, j: nat)
    requires i <= j < |s| && s[j] == c && c !in s[i..j]
    ensures Find(s, c, i) == j
    decreases j - i
  {
    if i < j {
      assert s[i..j][0] == s[i] && s[i..j][1..] == s[i + 1..j];
      FindAt(s, c, i + 1, j);
    }
  }

  lemma {:induction false} DigitsValueIs(s: string, base: nat, i: nat, j: nat)
    requires i <= j <= |s| && forall k | i <= k < j :: Numbers.InBase(s[k], base)
    ensures forall c | c in s[i..j] :: Numbers.InBase(c, base)
    ensures DigitsValue(s, base, i, j) == Numbers.Number(s[i..j], base)
    decreases j
  {
    if i < j {
      DigitsValueIs(s, base, i, j - 1);
      assert s[i..j][..j - i - 1] == s[i..j - 1];
    }
  }

  lemma {:induction false} SkipDigitsTo(s: string, base: int, i: nat, j: nat)
    requires i <= j <= |s| && forall k | i <= k < j :: Numbers.InBase(s[k], base)
    requires j < |s| ==> !Numbers.InBase(s[j], base)
    ensures SkipDigits(s, base, i) == j
    decreases j - i
  {
    if i < j {
      SkipDigitsTo(s, base, i + 1, j);
    }
  }

  lemma {:induction false} SpacesTo(s: string, i: nat, j: nat)
    requires i <= j < |s| && !Numbers.IsSpace(s[j]) && forall k | i <= k < j :: Blank(s[k])
    ensures SkipSpaces(s, i) == j
    decreases j - i
  {
    if i < j {
      SpacesTo(s, i + 1, j);
    }
  }

  lemma DigitIsNoSign(c: char)
    requires Numbers.DigitVal(c) >= 0
    ensures !Numbers.IsSpace(c) && c != '-' && c != '+'
  {
  }

  // What is known of the numeral behind a prefix.
  ghost predicate Behind(prefix: string, base: nat, n: nat, numeral: string) {
    && 2 <= base <= 16
    && numeral != "" && (forall c | c in numeral :: Numbers.InBase(c, base)) && Numbers.Number(numeral, base) == n
    && (prefix == "" ==> (numeral[0] == '0' <==> n == 0) && (n == 0 ==> numeral == "0"))
  }

  lemma NumeralIsBehind(number: Number, rest: string)
    requires WellWritten(number, rest)
    ensures |number.digits| == 36 && 2 <= number.base <= 36
    ensures Behind(number.prefix, number.base, number.n, Numeral(number.n, number.base, number.digits))
  {
    NumberOfNumeral(number.n, number.base, number.digits);
    FirstDigit(number.n, number.base, number.digits);
    hide Numeral;
  }

  // The digits that strtol reads: the octal zero is one of them.
  function Digits(prefix: string, numeral: string): string {
    if prefix == "0" then "0" + numeral else numeral
  }

  lemma DigitsAre(prefix: string, base: nat, n: nat, numeral: string)
    requires Behind(prefix, base, n, numeral) && (prefix == "0" ==> base == 8)
    ensures var d := Digits(prefix, numeral);
            (forall c | c in d :: Numbers.InBase(c, base)) && Numbers.Number(d, base) == n && d != ""
  {
    if prefix == "0" {
      var d := "0" + numeral;
      assert d[1..] == numeral && forall c | c in d :: c == '0' || c in numeral;
      Numbers.LeadingZero(d, 8);
    }
  }

  lemma Suffix(s: string, k: nat, x: string, y: string)
    requires k <= |s| && s[k..] == x + y
    ensures k + |x| <= |s| && s[k + |x|..] == y && forall i | 0 <= i < |x| :: s[k + i] == x[i]
  {
    assert forall i | 0 <= i < |x| :: s[k + i] == s[k..][i];
    assert s[k..][|x|..] == y;
  }

  lemma First(s: string, k: nat, y: string)
    requires k <= |s| && s[k..] == y && y != ""
    ensures k < |s| && s[k] == y[0]
  {
    assert s[k] == s[k..][0];
  }

  // Where the digits start, and in which base.
  lemma BaseIs(s: string, k: nat, prefix: string, base: nat, n: nat, numeral: string, rest: string)
    requires Behind(prefix, base, n, numeral) && Written(prefix, base, n, rest)
    requires k <= |s| && s[k..] == prefix + (numeral + rest)
    ensures var from := k + if base == 16 then 2 else 0;
            BaseAt(s, k) == (base, from) && from <= |s| && s[from..] == Digits(prefix, numeral) + rest
  {
    assert numeral[0] in numeral;
    NoX(numeral[0]);
    Suffix(s, k, prefix, numeral + rest);
    Suffix(s, k + |prefix|, numeral, rest);
    hide Numbers.InBase, Numbers.Number, BaseAt, Digits;
    assert s[k + |prefix|] == numeral[0];
    if prefix == "" {
      PlainBase(s, k, base, n, numeral, rest);
    } else if prefix == "0" {
      OctalBase(s, k, numeral, rest);
    } else {
      assert s[k + 0] == prefix[0] && s[k + 1] == prefix[1];
      HexBase(s, k, numeral, rest);
    }
  }

  lemma PlainBase(s: string, k: nat, base: nat, n: nat, numeral: string, rest: string)
    requires Written("", base, n, rest) && numeral != "" && (numeral[0] == '0' <==> n == 0) && (n == 0 ==> numeral == "0")
    requires k <= |s| && s[k..] == "" + (numeral + rest)
    ensures BaseAt(s, k) == (base, k) && s[k..] == Digits("", numeral) + rest
  {
    assert "" + (numeral + rest) == numeral + rest;
    First(s, k, numeral + rest);
    Suffix(s, k, numeral, rest);
    if n == 0 && rest != "" {
      First(s, k + 1, rest);
    }
  }

  lemma OctalBase(s: string, k: nat, numeral: string, rest: string)
    requires k <= |s| && s[k..] == "0" + (numeral + rest) && numeral != "" && numeral[0] != 'x' && numeral[0] != 'X'
    ensures BaseAt(s, k) == (8, k) && s[k..] == Digits("0", numeral) + rest
  {
    Suffix(s, k, "0", numeral + rest);
    First(s, k + 1, numeral + rest);
    assert s[k + 0] == '0' && "0" + (numeral + rest) == ("0" + numeral) + rest;
  }

  lemma HexBase(s: string, k: nat, numeral: string, rest: string)
    requires k + 2 <= |s| && s[k] == '0' && (s[k + 1] == 'x' || s[k + 1] == 'X') && s[k + 2..] == numeral + rest
    requires numeral != "" && Numbers.InBase(numeral[0], 16)
    ensures BaseAt(s, k) == (16, k + 2)
  {
    First(s, k + 2, numeral + rest);
  }

  lemma NoX(c: char)
    ensures Numbers.InBase(c, 16) ==> c != 'x' && c != 'X'
  {
  }

  // A number in the range of a 64-bit long, the nearest one if it is beyond.
  function InLong(negative: bool, n: nat): int {
    if negative then (if n > 0x8000_0000_0000_0000 then -0x8000_0000_0000_0000 else 0 - n)
    else if n > 0x7FFF_FFFF_FFFF_FFFF then 0x7FFF_FFFF_FFFF_FFFF
    else n
  }

  // A 64-bit long cast to a 32-bit int: its low half, as a signed number.
  function InInt(n: int): int {
    (n + 0x8000_0000) % 0x1_0000_0000 - 0x8000_0000
  }

  lemma SaturateIs(negative: bool, n: nat)
    ensures Saturate(negative, n) == InLong(negative, n)
  {
  }

  lemma CastIs(n: int)
    ensures AsInt(n) == InInt(n)
  {
    AsIntIs(n);
  }

  // Past the blank, further blanks and the sign.
  lemma SignIs(s: string, blank: nat, blanks: string, sign: string, y: string)
    requires blank <= |s| && s[blank..] == " " + (blanks + (sign + y)) && Blanks(blanks) && Sign(sign)
    requires y != "" && Numbers.DigitVal(y[0]) >= 0
    ensures var i := SkipSpaces(s, blank);
            var k := i + |sign|;
            && i < |s| && (s[i] == '-' <==> sign == "-") && (s[i] == '+' <==> sign == "+")
            && k <= |s| && s[k..] == y
  {
    hide Numbers.DigitVal;
    var i := blank + 1 + |blanks|;
    Suffix(s, blank, " ", blanks + (sign + y));
    Suffix(s, blank + 1, blanks, sign + y);
    Suffix(s, i, sign, y);
    DigitIsNoSign(y[0]);
    First(s, i, sign + y);
    forall j | blank <= j < i
      ensures Blank(s[j])
    {
      if j > blank {
        assert s[blank + 1 + (j - blank - 1)] == blanks[j - blank - 1] && blanks[j - blank - 1] in blanks;
      }
    }
    SpacesTo(s, blank, i);
  }

  // The number found behind a blank.
  lemma NumberIsFound(s: string, blank: nat, number: Number, rest: string)
    requires WellWritten(number, rest) && blank <= |s| && 2 <= number.base <= 36
    requires s[blank..] == " " + Phrase(number, rest)
    ensures Strtol(s, blank) == Some(InLong(number.sign == "-", number.n))
  {
    NumeralIsBehind(number, rest);
    var numeral := Numeral(number.n, number.base, number.digits);
    hide Numeral, SkipSpaces, SkipDigits, DigitsValue, BaseAt, Saturate, InLong, Numbers.DigitVal, EndsDigits, Digits;
    var y := number.prefix + (numeral + rest);
    StartsWithDigit(number.prefix, number.base, number.n, numeral, rest);
    SignIs(s, blank, number.blanks, number.sign, y);
    var k := SkipSpaces(s, blank) + |number.sign|;
    BaseIs(s, k, number.prefix, number.base, number.n, numeral, rest);
    DigitsAre(number.prefix, number.base, number.n, numeral);
    var from, d := k + if number.base == 16 then 2 else 0, Digits(number.prefix, numeral);
    hide Phrase, WellWritten, Behind, Written;
    DigitsEnd(s, from, d, number.base, rest);
    SaturateIs(number.sign == "-", number.n);
    Assembled(s, blank, number.sign, k, number.base, from, d);
  }

  lemma StartsWithDigit(prefix: string, base: nat, n: nat, numeral: string, rest: string)
    requires Behind(prefix, base, n, numeral) && Written(prefix, base, n, rest)
    ensures var y := prefix + (numeral + rest); y != "" && Numbers.DigitVal(y[0]) >= 0
  {
    assert numeral[0] in numeral && (prefix + (numeral + rest))[0] == if prefix == "" then numeral[0] else prefix[0];
  }

  lemma Assembled(s: string, blank: nat, sign: string, k: nat, base: nat, from: nat, d: string)
    requires blank <= |s| && k <= |s| && BaseAt(s, k) == (base, from) && d != ""
    requires var i := SkipSpaces(s, blank);
             i < |s| && (s[i] == '-' <==> sign == "-") && (s[i] == '+' <==> sign == "+") && Sign(sign) && k == i + |sign|
    requires SkipDigits(s, base, from) == from + |d|
    ensures Strtol(s, blank) == Some(Saturate(sign == "-", DigitsValue(s, base, from, from + |d|)))
  {
    hide SkipSpaces, SkipDigits, BaseAt, Saturate, DigitsValue;
  }

  lemma DigitsEnd(s: string, from: nat, d: string, base: nat, rest: string)
    requires from <= |s| && s[from..] == d + rest && 2 <= base <= 36 && EndsDigits(base, rest)
    requires forall c | c in d :: Numbers.InBase(c, base)
    ensures var to := from + |d|;
            && SkipDigits(s, base, from) == to && (forall k | from <= k < to :: Numbers.InBase(s[k], base))
            && DigitsValue(s, base, from, to) == Numbers.Number(d, base)
  {
    hide Numbers.DigitVal;
    var to := from + |d|;
    assert s[from..to] == s[from..][..|d|] == d;
    forall k | from <= k < to
      ensures Numbers.InBase(s[k], base)
    {
      assert s[k] == d[k - from] && d[k - from] in d;
    }
    if rest != "" {
      assert s[to] == s[from..][|d|] == rest[0];
      DigitsOfBase(base, rest[0]);
    }
    SkipDigitsTo(s, base, from, to);
    DigitsValueIs(s, base, from, to);
  }

  /** The status read is the number on the status line, brought into the range of a long and then cast to an int. */
  lemma StatusIsNumber(h: string, major: string, minor: string, number: Number, rest: string)
    requires Bears(h, major, minor, number, rest)
    ensures Status(h) == Some(InInt(InLong(number.sign == "-", number.n)))
  {
    NumeralIsBehind(number, rest);
    hide WellWritten, Strtol, Behind;
    var tail := " " + Phrase(number, rest);
    hide Phrase;
    Lined(h, major, minor, tail);
    NumberIsFound(h, |"HTTP/" + major + ("." + minor)|, number, rest);
    CastIs(InLong(number.sign == "-", number.n));
  }

  // The first dot and the first blank behind it.
  lemma Lined(h: string, major: string, minor: string, tail: string)
    requires h == "HTTP/" + major + ("." + minor + tail) && '.' !in major && ' ' !in minor && tail != "" && tail[0] == ' '
    ensures var blank := |"HTTP/" + major + ("." + minor)|;
            "HTTP/" <= h && blank < |h| && Find(h, ' ', Find(h, '.', 5)) == blank && h[blank..] == tail
  {
    var dot, blank := |"HTTP/" + major|, |"HTTP/" + major + ("." + minor)|;
    assert h[5..dot] == major && h[dot] == '.';
    FindAt(h, '.', 5, dot);
    assert h[dot..blank] == "." + minor && h[blank..] == tail && h[blank] == tail[0];
    FindAt(h, ' ', dot, blank);
  }

  /** So the status of an ordinary response is its code. */
  lemma StatusIsCode(h: string, major: string, minor: string, code: nat, rest: string)
    requires BearsCode(h, major, minor, code, rest) && 0 < code < TWO_31
    ensures Status(h) == Some(code)
  {
    hide Numeral, Status;
    var number := Number("", "", "", code, 10, LOWER);
    assert Phrase(number, rest) == Numeral(code, 10, LOWER) + rest;
    StatusIsNumber(h, major, minor, number, rest);
  }

  /** For every fragmentation a response opens the tunnel if and only if its code is one of the 200s. */
  lemma CodeDecides(io: Io, fragments: seq<string>, h: string, p: string,
                    major: string, minor: string, code: nat, rest: string)
    requires io.state == WaitingForConnectResponse && fragments != [] && io.buffer + Concat(fragments) == h + p
    requires BearsCode(h, major, minor, code, rest) && 0 < code < TWO_31 && HeaderLength(h) == Some(|h|)
    ensures var (io', calls) := Run(io, Receipts(fragments));
            if 200 <= code < 300 then io'.state == Open && OpenResults(calls) == [OpenOk] && Delivered(calls) == p
            else io'.state == Closed && OpenResults(calls) == [OpenError] && Delivered(calls) == ""
  {
    hide Status, HeaderLength, BearsCode, Run, Receipts, Delivered, OpenResults;
    StatusIsCode(h, major, minor, code, rest);
    TunnelTransparent(io, fragments, h, p);
  }

  /** A status line followed by an empty line is a whole header. */
  lemma LineIsHeader(line: string)
    requires '\r' !in line && '\0' !in line
    ensures HeaderLength(line + "\r\n\r\n") == Some(|line| + 4)
  {
    var h := line + TERMINATOR;
    assert h + "" == h;
    CStringAppend(h, "");
    hide Find;
    var s := CString(h);
    assert s == h && s[|line|..|line| + 4] == TERMINATOR;
    assert TerminatorAt(s, |line|);
    forall j | 0 <= j < |line|
      ensures !TerminatorAt(s, j)
    {
      assert s[j..j + 4][0] == s[j] == line[j] && line[j] in line;
    }
    assert FindTerminator(s, 0).Some?;
  }
}
