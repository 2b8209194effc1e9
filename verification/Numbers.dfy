/** The conversions between numbers and text of crt_abstractions.c. */
module Numbers {
  const ULLONG_MAX := 0xFFFF_FFFF_FFFF_FFFF
  const NUL := '\0'

  // ----- Numerals -----

  // The value of a digit or letter, -1 for any other character.
  function DigitVal(c: char): (d: int)
    ensures -1 <= d < 36
  {
    if '0' <= c <= '9' then c as int - '0' as int
    else if 'a' <= c <= 'z' then c as int - 'a' as int + 10
    else if 'A' <= c <= 'Z' then c as int - 'A' as int + 10
    else -1
  }

  predicate InBase(c: char, base: int) {
    0 <= DigitVal(c) < base
  }

  // The number a digit string denotes.
  function Number(s: seq<char>, base: nat): nat
    requires forall c | c in s :: InBase(c, base)
  {
    if s == [] then 0
    else
      assert s[|s| - 1] in s && InBase(s[|s| - 1], base);
      var shifted: nat := Number(s[..|s| - 1], base) * base;
      shifted + DigitVal(s[|s| - 1])
  }

  // The decimal numeral of a number.
  function Decimal(n: nat): (s: seq<char>)
    ensures |s| > 0
    ensures forall c | c in s :: InBase(c, 10)
  {
    var digit := ('0' as int + n % 10) as char;
    if n < 10 then [digit] else Decimal(n / 10) + [digit]
  }

  lemma {:induction false} NumberOfDecimal(n: nat)
    ensures Number(Decimal(n), 10) == n
  {
    var s := Decimal(n);
    if n >= 10 {
      assert s[..|s| - 1] == Decimal(n / 10);
      NumberOfDecimal(n / 10);
    } else {
      assert s[..0] == [];
    }
  }

  // ----- size_tToString -----

  function Reversed(s: seq<char>): (r: seq<char>)
    ensures |r| == |s|
    ensures forall i | 0 <= i < |s| :: r[i] == s[|s| - 1 - i]
  {
    seq(|s|, i requires 0 <= i < |s| => s[|s| - 1 - i])
  }

  /** The conversion succeeds exactly when the numeral and its terminator fit. */
  method SizeTToString(destination: array<char>, value: nat) returns (ok: bool)
    modifies destination
    ensures ok <==> |Decimal(value)| + 1 <= destination.Length
    ensures ok ==> destination[..|Decimal(value)| + 1] == Decimal(value) + [NUL]
    ensures forall i | |Decimal(value)| < i < destination.Length :: destination[i] == old(destination[i])
  {
    if destination.Length < 2 {
      return false;
    }
    var pos, rest := WriteDigits(destination, value);
    if rest != 0 {
      return false;
    }
    destination[pos] := NUL;
    ReversePrefix(destination, pos);
    assert destination[..pos + 1] == destination[..pos] + [destination[pos]];
    ok := true;
  }

  lemma DecimalStep(rest: nat, done: seq<char>)
    ensures var all := [('0' as int + rest % 10) as char] + done;
            Decimal(rest) + done == if rest / 10 == 0 then all else Decimal(rest / 10) + all
  {
  }

  // The digits, last first, until there are no more or only room for the terminator is left.
  method WriteDigits(destination: array<char>, value: nat) returns (pos: nat, rest: nat)
    requires destination.Length >= 2
    modifies destination
    ensures 1 <= pos < destination.Length
    ensures rest == 0 ==> destination[..pos] == Reversed(Decimal(value))
    ensures rest == 0 <==> |Decimal(value)| < destination.Length
    ensures pos <= |Decimal(value)|
    ensures forall i | pos <= i < destination.Length :: destination[i] == old(destination[i])
  {
    hide Decimal;
    pos, rest := 0, value;
    ghost var done: seq<char> := [];
    while true
      invariant 0 <= pos < destination.Length - 1 && |done| == pos
      invariant destination[..pos] == Reversed(done)
      invariant pos > 0 ==> rest > 0
      invariant Decimal(value) == Decimal(rest) + done
      invariant forall i | pos <= i < destination.Length :: destination[i] == old(destination[i])
      invariant pos < destination.Length - 1
      decreases destination.Length - pos
    {
      var digit := ('0' as int + rest % 10) as char;
      destination[pos] := digit;
      assert destination[..pos + 1] == Reversed([digit] + done);
      pos := pos + 1;
      DecimalStep(rest, done);
      rest := rest / 10;
      done := [digit] + done;
      if !(rest > 0 && pos < destination.Length - 1) {
        break;
      }
    }
  }

  // The swaps up to the middle, which may exchange the middle digit with itself.
  method ReversePrefix(a: array<char>, pos: nat)
    requires 1 <= pos <= a.Length
    modifies a
    ensures a[..pos] == Reversed(old(a[..pos]))
    ensures forall i | pos <= i < a.Length :: a[i] == old(a[i])
  {
    var w := 0;
    while w <= (pos - 1) / 2
      invariant 0 <= w <= (pos - 1) / 2 + 1
      invariant forall i | 0 <= i < w :: a[i] == old(a[pos - 1 - i]) && a[pos - 1 - i] == old(a[i])
      invariant forall i | w <= i < pos - w :: a[i] == old(a[i])
      invariant forall i | pos <= i < a.Length :: a[i] == old(a[i])
    {
      var temp := a[w];
      a[w] := a[pos - 1 - w];
      a[pos - 1 - w] := temp;
      w := w + 1;
    }
  }

  // ----- strtoull_s -----

  predicate IsSpace(c: char) {
    c == ' ' || c as int == 12 || c == '\n' || c == '\r' || c == '\t' || c as int == 11
  }

  // The character at an index, the terminator beyond the end.
  function At(s: seq<char>, i: nat): char {
    if i < |s| then s[i] else NUL
  }

  function Spaces(s: seq<char>, i: nat): (j: nat)
    requires i <= |s|
    ensures i <= j <= |s|
    decreases |s| - i
  {
    if IsSpace(At(s, i)) then Spaces(s, i + 1) else i
  }

  // Where the digits are expected, in which base, and whether a minus sign came first.
  datatype Subject = Subject(start: nat, base: nat, negative: bool)

  function AfterSign(s: seq<char>): (i: nat)
    ensures i <= |s|
  {
    var i := Spaces(s, 0);
    if At(s, i) == '+' || At(s, i) == '-' then i + 1 else i
  }

  function FindSubject(s: seq<char>, base: nat): (r: Subject)
    ensures r.start <= |s|
    ensures base >= 2 ==> r.base == base
    ensures base == 0 ==> r.base == 16 || r.base == 8 || r.base == 10
  {
    var i := AfterSign(s);
    var negative := At(s, Spaces(s, 0)) == '-';
    if At(s, i) == '0' && (At(s, i + 1) == 'x' || At(s, i + 1) == 'X') then
      if base == 0 || base == 16 then Subject(i + 2, 16, negative) else Subject(i, base, negative)
    else if At(s, i) == '0' && (base == 0 || base == 8) then Subject(i + 1, 8, negative)
    else Subject(i, if base == 0 then 10 else base, negative)
  }

  // The longest run of digits of the base.
  function Digits(s: seq<char>, base: int): (n: nat)
    ensures n <= |s|
    ensures forall i | 0 <= i < n :: InBase(s[i], base)
    ensures n < |s| ==> !InBase(s[n], base)
  {
    if s == [] || !InBase(s[0], base) then 0 else 1 + Digits(s[1..], base)
  }

  function Min(a: nat, b: nat): nat {
    if a < b then a else b
  }

  // ULLONG_MAX - r + 1 in 64 bits.
  function Negated(r: nat): nat
    requires r <= ULLONG_MAX
  {
    (ULLONG_MAX - r + 1) % (ULLONG_MAX + 1)
  }

  datatype ErrNo = Zero | Range | Other

  // The value of the digits as far as it fits.
  function Capped(s: seq<char>, base: nat): (r: nat)
    requires forall c | c in s :: InBase(c, base)
    ensures r <= ULLONG_MAX
  {
    Min(Number(s, base), ULLONG_MAX)
  }

  lemma {:induction false} NumberGrows(s: seq<char>, c: char, base: nat)
    requires base >= 2 && InBase(c, base) && forall d | d in s :: InBase(d, base)
    ensures Number(s + [c], base) == Number(s, base) * base + DigitVal(c)
  {
    assert (s + [c])[..|s|] == s;
  }

  predicate Overflows(result: nat, base: nat, digit: int)
    requires base > 0
  {
    (ULLONG_MAX - digit) / base < result
  }

  // One more digit: the check in front of the multiplication finds exactly the overflows, and they stick.
  lemma CappedStep(s: seq<char>, c: char, base: nat)
    requires base >= 2 && InBase(c, base) && forall d | d in s :: InBase(d, base)
    ensures var d, r := DigitVal(c), Capped(s, base);
            if Overflows(r, base, d) then
              Number(s + [c], base) > ULLONG_MAX && Capped(s + [c], base) == ULLONG_MAX
            else
              && Number(s, base) <= ULLONG_MAX && Number(s + [c], base) <= ULLONG_MAX
              && Capped(s + [c], base) == r * base + d
  {
    NumberGrows(s, c, base);
    var d, r, n := DigitVal(c), Capped(s, base), Number(s, base);
    var q := (ULLONG_MAX - d) / base;
    QuotientTest(ULLONG_MAX - d, base, r);
    if q < r {
      assert r * base > ULLONG_MAX - d;
      MulMonotone(r, n, base);
    }
  }

  lemma QuotientTest(m: nat, base: nat, r: nat)
    requires base > 0
    ensures m / base < r <==> r * base > m
  {
    var q := m / base;
    assert m == q * base + m % base;
    if q < r {
      MulMonotone(q + 1, r, base);
    } else {
      MulMonotone(r, q, base);
    }
  }

  lemma MulMonotone(a: nat, b: nat, c: nat)
    requires a <= b
    ensures a * c <= b * c
  {
  }

  method SkipToDigits(s: seq<char>, base0: nat) returns (runner: nat, base: nat, isNegative: bool)
    ensures Subject(runner, base, isNegative) == FindSubject(s, base0)
  {
    runner, base, isNegative := 0, base0, false;
    while IsSpace(At(s, runner))
      invariant runner <= |s| && Spaces(s, runner) == Spaces(s, 0)
      decreases |s| - runner
    {
      runner := runner + 1;
    }
    if At(s, runner) == '+' {
      runner := runner + 1;
    } else if At(s, runner) == '-' {
      isNegative := true;
      runner := runner + 1;
    }
    assert runner == AfterSign(s) && isNegative == (At(s, Spaces(s, 0)) == '-');
    hide AfterSign, Spaces;
    if At(s, runner) == '0' {
      if At(s, runner + 1) == 'x' || At(s, runner + 1) == 'X' {
        if base == 0 || base == 16 {
          base := 16;
          runner := runner + 2;
        }
      } else if base == 0 || base == 8 {
        base := 8;
        runner := runner + 1;
      }
    }
    if base == 0 {
      base := 10;
    }
  }

  datatype Conversion = NotConverted | Converted(result: nat, end: nat, overflow: bool)

  /**
   The conversion, with the end of what it read as an index. Without digits nothing is converted and nothing
   read. With them, all of the longest run is read, and the result is their number or, when that is too large,
   the largest one; a minus sign then negates the result modulo 2^64.
   */
  function ConversionOf(s: seq<char>, base: int): Conversion {
    if base != 0 && !(2 <= base <= 36) then NotConverted
    else
      var t := FindSubject(s, base);
      var c := ReadDigits(s, t.start, t.base);
      if t.negative && c.Converted? then c.(result := Negated(c.result)) else c
  }

  // The longest run of digits from start on.
  function ReadDigits(s: seq<char>, start: nat, base: nat): (c: Conversion)
    requires start <= |s|
    ensures c.Converted? ==> c.result <= ULLONG_MAX
  {
    var n := Digits(s[start..], base);
    var digits := s[start..start + n];
    if n == 0 then NotConverted
    else Converted(Capped(digits, base), start + n, Number(digits, base) > ULLONG_MAX)
  }

  // errno0 is what errno held before; endptr is never NULL here.
  method StrToULL(s: seq<char>, base0: int, errno0: ErrNo) returns (result: nat, end: nat, errno: ErrNo)
    ensures (result, end, errno) ==
            match ConversionOf(s, base0) {
              case NotConverted => (0, 0, errno0)
              case Converted(r, e, overflow) => (r, e, if overflow then Range else Zero)
            }
  {
    result, errno := 0, errno0;
    var runner := 0;
    var isNegative := false;
    var base := base0;
    if (base >= 2 || base == 0) && base <= 36 {
      runner, base, isNegative := SkipToDigits(s, base);
      hide FindSubject, ReadDigits, Negated;
      var digitVal := DigitVal(At(s, runner));
      if 0 <= digitVal < base {
        result, runner, errno := Accumulate(s, runner, base);
      } else {
        NothingToRead(s, runner, base);
        runner := 0;
      }
    }
    end := runner;
    if isNegative {
      result := Negated(result);
    }
  }

  method Accumulate(s: seq<char>, start: nat, base: nat) returns (result: nat, runner: nat, errno: ErrNo)
    requires start < |s| && 2 <= base <= 36 && InBase(s[start], base)
    ensures ReadDigits(s, start, base) == Converted(result, runner, errno == Range) && errno != Other
  {
    result, runner, errno := 0, start, Zero;
    ghost var done: seq<char> := [];
    hide Number, Capped, Overflows, DigitVal;
    NoDigits(base);
    var digitVal := DigitVal(At(s, runner));
    while 0 <= digitVal < base
      invariant start <= runner <= |s| && done == s[start..runner] && digitVal == DigitVal(At(s, runner))
      invariant forall c | c in done :: InBase(c, base)
      invariant result == Capped(done, base)
      invariant errno == if Number(done, base) > ULLONG_MAX then Range else Zero
      decreases |s| - runner
    {
      assert At(s, runner) == s[runner];
      CappedStep(done, s[runner], base);
      if Overflows(result, base, digitVal) {
        result := ULLONG_MAX;
        errno := Range;
      } else {
        result := result * base + digitVal;
      }
      done := done + [s[runner]];
      runner := runner + 1;
      digitVal := DigitVal(At(s, runner));
    }
    RunIs(s, start, runner, base);
  }

  lemma NothingToRead(s: seq<char>, start: nat, base: int)
    requires start <= |s| && 0 <= base && !InBase(At(s, start), base)
    ensures ReadDigits(s, start, base) == NotConverted
  {
  }

  lemma NoDigits(base: nat)
    ensures Number([], base) == 0 && Capped([], base) == 0
  {
  }

  lemma RunIs(s: seq<char>, start: nat, end: nat, base: int)
    requires start <= end <= |s| && forall c | c in s[start..end] :: InBase(c, base)
    requires end < |s| ==> !InBase(s[end], base)
    ensures Digits(s[start..], base) == end - start
  {
    var run := s[start..end];
    forall i | start <= i < end
      ensures InBase(s[i], base)
    {
      assert s[i] == run[i - start];
    }
  }

  // ----- What the conversion gives -----

  lemma {:induction false} LeadingZero(s: seq<char>, base: nat)
    requires forall c | c in s :: InBase(c, base)
    requires s != [] && s[0] == '0'
    ensures Number(s, base) == Number(s[1..], base)
    decreases |s|
  {
    if |s| > 1 {
      var front := s[..|s| - 1];
      LeadingZero(front, base);
      assert s[1..][..|s| - 2] == front[1..];
    } else {
      assert s[..0] == [];
    }
  }

  lemma ReadAll(s: seq<char>, start: nat, base: nat)
    requires start < |s| && base >= 2 && forall c | c in s :: InBase(c, base)
    ensures ReadDigits(s, start, base) == Converted(Capped(s[start..], base), |s|, Number(s[start..], base) > ULLONG_MAX)
  {
    assert s[start..|s|] == s[start..];
    assert forall c | c in s[start..] :: c in s;
    RunIs(s, start, |s|, base);
    hide Number, Capped;
  }

  /**
   A plain digit string is converted whole, to its number or to the largest one with the overflow reported, in
   every base and with one exception: the octal "0", where the zero is taken for a prefix without digits.
   */
  lemma DigitStringIsConverted(s: seq<char>, base: nat)
    requires 2 <= base <= 36 && s != [] && forall c | c in s :: InBase(c, base)
    ensures ConversionOf(s, base) == Converted(Capped(s, base), |s|, Number(s, base) > ULLONG_MAX) <==> !(base == 8 && s == "0")
    ensures base == 8 && s == "0" ==> ConversionOf(s, base) == NotConverted
  {
    assert s[0] in s;
    assert |s| > 1 ==> s[1] in s;
    PlainSubject(s, base);
    if base == 8 && s[0] == '0' {
      LeadingZero(s, base);
      if |s| > 1 {
        ReadAll(s, 1, base);
      } else {
        NothingToRead(s, 1, base);
      }
    } else {
      ReadAll(s, 0, base);
      assert s[0..] == s;
    }
    hide ReadDigits, FindSubject;
  }

  lemma PlainSubject(s: seq<char>, base: nat)
    requires 2 <= base <= 36 && s != [] && InBase(s[0], base) && (|s| > 1 ==> InBase(s[1], base))
    ensures FindSubject(s, base) == Subject(if base == 8 && s[0] == '0' then 1 else 0, base, false)
  {
    assert !IsSpace(s[0]) && Spaces(s, 0) == 0 && AfterSign(s) == 0;
  }

  // ----- Against strtoull as the C standard defines it -----

  predicate HexPrefixAt(s: seq<char>, i: nat) {
    At(s, i) == '0' && (At(s, i + 1) == 'x' || At(s, i + 1) == 'X')
  }

  // Section 7.20.1.4 of ISO/IEC 9899:1999: 0x is a prefix only in front of a hexadecimal digit, and the zero
  // that selects base 8 is itself a digit.
  function StandardSubject(s: seq<char>, base: nat): (r: Subject)
    ensures r.start <= |s|
    ensures base >= 2 ==> r.base == base
    ensures base == 0 ==> r.base == 16 || r.base == 8 || r.base == 10
  {
    var i := AfterSign(s);
    var negative := At(s, Spaces(s, 0)) == '-';
    if (base == 0 || base == 16) && HexPrefixAt(s, i) && InBase(At(s, i + 2), 16) then Subject(i + 2, 16, negative)
    else if base == 0 then Subject(i, if At(s, i) == '0' then 8 else 10, negative)
    else Subject(i, base, negative)
  }

  // A correct value out of range gives the largest number, whatever the sign.
  function StandardConversion(s: seq<char>, base: int): Conversion {
    if base != 0 && !(2 <= base <= 36) then NotConverted
    else
      var t := StandardSubject(s, base);
      var c := ReadDigits(s, t.start, t.base);
      if c.Converted? && !c.overflow && t.negative then c.(result := Negated(c.result)) else c
  }

  // A prefix was taken, 0x or the octal zero, and no digit of its base follows.
  predicate BarePrefix(s: seq<char>, base: int) {
    (base == 0 || 2 <= base <= 36) &&
    var t := FindSubject(s, base);
    t.start > AfterSign(s) && !InBase(At(s, t.start), t.base)
  }

  predicate NegativeOverflow(s: seq<char>, base: int) {
    var c := StandardConversion(s, base);
    c.Converted? && c.overflow && At(s, Spaces(s, 0)) == '-'
  }

  // With a digit behind it the octal zero may be read or skipped; without one it is all there is to read.
  lemma OctalZero(s: seq<char>, i: nat, base: nat)
    requires i < |s| && s[i] == '0' && base >= 2
    ensures InBase(At(s, i + 1), base) ==> ReadDigits(s, i, base) == ReadDigits(s, i + 1, base)
    ensures !InBase(At(s, i + 1), base) ==> ReadDigits(s, i, base) == Converted(0, i + 1, false)
  {
    var n := Digits(s[i + 1..], base);
    assert s[i..][1..] == s[i + 1..];
    assert Digits(s[i..], base) == 1 + n;
    var digits := s[i..i + 1 + n];
    assert digits[1..] == s[i + 1..i + 1 + n];
    assert forall c | c in digits :: InBase(c, base) by {
      assert forall k | 0 <= k < |digits| :: digits[k] == s[i..][k];
    }
    LeadingZero(digits, base);
    NoDigits(base);
    if !InBase(At(s, i + 1), base) {
      assert n == 0 && digits[1..] == [];
    } else {
      assert n > 0;
    }
    hide Number, Digits;
  }

  // Unless a bare prefix was taken, the code reads the digits the standard means.
  lemma SameDigits(s: seq<char>, base: nat)
    requires base == 0 || 2 <= base <= 36
    ensures var t, u := FindSubject(s, base), StandardSubject(s, base);
            && t.negative == u.negative == (At(s, Spaces(s, 0)) == '-')
            && (BarePrefix(s, base) ==> ReadDigits(s, t.start, t.base) == NotConverted && ReadDigits(s, u.start, u.base).Converted?)
            && (!BarePrefix(s, base) ==> ReadDigits(s, t.start, t.base) == ReadDigits(s, u.start, u.base))
  {
    var t, u, i := FindSubject(s, base), StandardSubject(s, base), AfterSign(s);
    hide ReadDigits, Spaces, AfterSign;
    if t.start > i {
      OctalZero(s, i, u.base);
      if !InBase(At(s, t.start), t.base) {
        NothingToRead(s, t.start, t.base);
      }
    }
  }

  /**
   For every string and every base the conversion is that of the C standard if and only if the code took no
   prefix without a digit behind it and no negative number overflows.
   */
  lemma StandardExactly(s: seq<char>, base: int)
    ensures ConversionOf(s, base) == StandardConversion(s, base) <==> !BarePrefix(s, base) && !NegativeOverflow(s, base)
    ensures BarePrefix(s, base) ==> ConversionOf(s, base) == NotConverted
  {
    if base == 0 || 2 <= base <= 36 {
      SameDigits(s, base);
      var u := StandardSubject(s, base);
      OverflowIsCapped(s, u.start, u.base);
      hide ReadDigits, FindSubject, StandardSubject, Spaces;
    }
  }

  lemma OverflowIsCapped(s: seq<char>, start: nat, base: nat)
    requires start <= |s|
    ensures var c := ReadDigits(s, start, base); c.Converted? && c.overflow ==> c.result == ULLONG_MAX
  {
  }

  /** An overflow gives the largest number, as documented, exactly when there is no minus sign; else it gives 1. */
  lemma OverflowResult(s: seq<char>, base: int)
    requires ConversionOf(s, base).Converted? && ConversionOf(s, base).overflow
    ensures ConversionOf(s, base).result == ULLONG_MAX <==> !FindSubject(s, base).negative
    ensures FindSubject(s, base).negative ==> ConversionOf(s, base).result == 1
  {
  }

  // The bare prefixes: a zero with neither x nor an octal digit behind it, or 0x with no hexadecimal digit.
  lemma BarePrefixIs(s: seq<char>, base: int)
    ensures BarePrefix(s, base) <==>
            var i := AfterSign(s);
            && At(s, i) == '0'
            && if HexPrefixAt(s, i) then (base == 0 || base == 16) && !InBase(At(s, i + 2), 16)
               else (base == 0 || base == 8) && !InBase(At(s, i + 1), 8)
  {
    hide AfterSign, Spaces;
  }

  /** Some of the strings with a bare prefix: none is converted, though each starts with a zero. */
  lemma LoneZero()
    ensures ConversionOf("0", 0) == ConversionOf("0", 8) == ConversionOf("0 ", 8) == NotConverted
    ensures ConversionOf("08", 0) == ConversionOf("08", 8) == NotConverted
    ensures ConversionOf("0x", 16) == ConversionOf("0xg", 0) == NotConverted
  {
    hide ConversionOf;
    Unconverted("0", 0);
    Unconverted("0", 8);
    Unconverted("0 ", 8);
    Unconverted("08", 0);
    Unconverted("08", 8);
    Unconverted("0x", 16);
    Unconverted("0xg", 0);
  }

  lemma Unconverted(s: string, base: int)
    requires s != "" && s[0] == '0'
    requires if HexPrefixAt(s, 0) then (base == 0 || base == 16) && !InBase(At(s, 2), 16)
             else (base == 0 || base == 8) && !InBase(At(s, 1), 8)
    ensures ConversionOf(s, base) == NotConverted
  {
    assert !IsSpace(s[0]) && Spaces(s, 0) == 0 && AfterSign(s) == 0;
    BarePrefixIs(s, base);
    StandardExactly(s, base);
    hide ConversionOf, BarePrefix;
  }
}
