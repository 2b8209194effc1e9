/** The layout of the tokens sastoken.c builds, and the scan with which it validates any token. */
module SasToken {
  import opened Numbers

  // ----- Building -----

  const PREFIX := "SharedAccessSignature sr="

  // The key's name is optional.
  function Tail(keyName: string, named: bool): string {
    if named then "&skn=" + keyName else ""
  }

  // The parts appended one after the other; the signature is the URL encoding of a base 64 string.
  function Token(scope: string, signature: string, expiry: nat, keyName: string, named: bool): string {
    PREFIX + scope + "&sig=" + signature + "&se=" + Decimal(expiry) + Tail(keyName, named)
  }

  // ----- Validating -----

  // The places where the values of the three fields start and stop, -1 while not known.
  datatype Fields = Fields(seStart: int, seStop: int, srStart: int, srStop: int, sigStart: int, sigStop: int)

  const UNKNOWN := Fields(-1, -1, -1, -1, -1, -1)

  predicate SeAt(s: string, i: nat) {
    At(s, i) == 's' && At(s, i + 1) == 'e' && At(s, i + 2) == '='
  }

  predicate SrAt(s: string, i: nat) {
    At(s, i) == 's' && At(s, i + 1) == 'r' && At(s, i + 2) == '='
  }

  predicate SigAt(s: string, i: nat) {
    At(s, i) == 's' && At(s, i + 1) == 'i' && At(s, i + 2) == 'g' && At(s, i + 3) == '='
  }

  predicate Open(start: int, stop: int) {
    start > 0 && stop < 0
  }

  // A field name at i is one only behind a blank or '&', unless no value is being read.
  predicate Separated(s: string, i: nat) {
    i > 0 && (At(s, i - 1) == ' ' || At(s, i - 1) == '&')
  }

  // Where the value in front of a field name at i stops: behind '&' one place too early.
  function StopBefore(s: string, i: nat): int {
    if i > 0 && At(s, i - 1) == ' ' then i - 1 else i - 2
  }

  // One position of the scan.
  function Step(s: string, i: nat, f: Fields): Fields {
    var stop, ok := StopBefore(s, i), Separated(s, i);
    if SeAt(s, i) then
      if Open(f.srStart, f.srStop) then
        f.(seStart := if ok then i + 3 else -1, srStop := if ok then stop else f.srStop)
      else if Open(f.sigStart, f.sigStop) then
        f.(seStart := if ok then i + 3 else -1, sigStop := if ok then stop else f.sigStop)
      else f.(seStart := i + 3)
    else if SrAt(s, i) then
      if Open(f.seStart, f.seStop) then
        f.(srStart := if ok then i + 3 else -1, seStop := if ok then stop else f.seStop)
      else if Open(f.sigStart, f.sigStop) then
        f.(srStart := if ok then i + 3 else -1, sigStop := if ok then stop else f.sigStop)
      else f.(srStart := i + 3)
    else if SigAt(s, i) then
      if Open(f.srStart, f.srStop) then
        f.(sigStart := if ok then i + 4 else -1, srStop := if ok then stop else f.srStop)
      else if Open(f.seStart, f.seStop) then
        f.(sigStart := if ok then i + 4 else -1, seStop := if ok then stop else f.seStop)
      else f.(sigStart := i + 4)
    else f
  }

  function Scan(s: string, n: nat): Fields {
    if n == 0 then UNKNOWN else Step(s, n - 1, Scan(s, n - 1))
  }

  // At most one value runs to the end of the token.
  function Close(f: Fields, length: int): Fields {
    if f.seStop < 0 then f.(seStop := length)
    else if f.srStop < 0 then f.(srStop := length)
    else if f.sigStop < 0 then f.(sigStop := length)
    else f
  }

  predicate AllFound(f: Fields) {
    f.seStart >= 0 && f.srStart >= 0 && f.sigStart >= 0
  }

  predicate NoneEmpty(f: Fields) {
    f.seStart < f.seStop && f.srStart < f.srStop && f.sigStart < f.sigStop
  }

  // The expiry field up to where its value stops, or to the first '&'.
  function ExpiryField(s: string, start: nat, stop: int): string
    decreases stop - start
  {
    if start >= stop || At(s, start) == '&' then [] else [At(s, start)] + ExpiryField(s, start + 1, stop)
  }

  // A numeral's value, 0 for anything that is not made of decimal digits.
  function ExpiryValue(s: string): nat {
    if forall c | c in s :: '0' <= c <= '9' then Number(s, 10) else 0
  }

  predicate Validates(s: string, now: int) {
    var found := Scan(s, |s|);
    AllFound(found) &&
    var f := Close(found, |s|);
    NoneEmpty(f) &&
    var expiry := ExpiryValue(ExpiryField(s, f.seStart, f.seStop));
    expiry > 0 && expiry >= now
  }

  // ----- The scan as the source writes it -----

  // The body of the scanning loop.
  method Advance(s: string, i: nat, f: Fields)
    returns (seStart: int, seStop: int, srStart: int, srStop: int, sigStart: int, sigStop: int)
    requires i == 0 ==> f == UNKNOWN
    ensures Fields(seStart, seStop, srStart, srStop, sigStart, sigStop) == Step(s, i, f)
  {
    seStart, seStop, srStart, srStop, sigStart, sigStop := f.seStart, f.seStop, f.srStart, f.srStop, f.sigStart, f.sigStop;
    if SeAt(s, i) {
      seStart := i + 3;
      if srStart > 0 && srStop < 0 {
        if At(s, i - 1) != '&' && At(s, i - 1) == ' ' {
          srStop := i - 1;
        } else if At(s, i - 1) == '&' {
          srStop := i - 2;
        } else {
          seStart := -1;
        }
      } else if sigStart > 0 && sigStop < 0 {
        if At(s, i - 1) != '&' && At(s, i - 1) == ' ' {
          sigStop := i - 1;
        } else if At(s, i - 1) == '&' {
          sigStop := i - 2;
        } else {
          seStart := -1;
        }
      }
    } else if SrAt(s, i) {
      srStart := i + 3;
      if seStart > 0 && seStop < 0 {
        if At(s, i - 1) != '&' && At(s, i - 1) == ' ' {
          seStop := i - 1;
        } else if At(s, i - 1) == '&' {
          seStop := i - 2;
        } else {
          srStart := -1;
        }
      } else if sigStart > 0 && sigStop < 0 {
        if At(s, i - 1) != '&' && At(s, i - 1) == ' ' {
          sigStop := i - 1;
        } else if At(s, i - 1) == '&' {
          sigStop := i - 2;
        } else {
          srStart := -1;
        }
      }
    } else if SigAt(s, i) {
      sigStart := i + 4;
      if srStart > 0 && srStop < 0 {
        if At(s, i - 1) != '&' && At(s, i - 1) == ' ' {
          srStop := i - 1;
        } else if At(s, i - 1) == '&' {
          srStop := i - 2;
        } else {
          sigStart := -1;
        }
      } else if seStart > 0 && seStop < 0 {
        if At(s, i - 1) != '&' && At(s, i - 1) == ' ' {
          seStop := i - 1;
        } else if At(s, i - 1) == '&' {
          seStop := i - 2;
        } else {
          sigStart := -1;
        }
      }
    }
  }

  method GetExpiryValue(s: string) returns (value: nat)
    ensures value == ExpiryValue(s)
  {
    value := 0;
    for i := 0 to |s|
      invariant forall c | c in s[..i] :: '0' <= c <= '9'
      invariant value == Number(s[..i], 10)
    {
      assert s[i] in s;
      if !('0' <= s[i] <= '9') {
        return 0;
      }
      assert s[..i + 1] == s[..i] + [s[i]];
      NumberGrows(s[..i], s[i], 10);
      value := value * 10 + (s[i] as int - '0' as int);
    }
    assert s[..|s|] == s;
  }

  /** The verdict on any token; `now` is the time in seconds, and `memory` whether the expiry can be copied. */
  method Validate(s: string, now: int, memory: bool) returns (result: bool)
    ensures result == (memory && Validates(s, now))
  {
    hide Step;
    var seStart, seStop := -1, -1;
    var srStart, srStop := -1, -1;
    var sigStart, sigStop := -1, -1;
    for i := 0 to |s|
      invariant Fields(seStart, seStop, srStart, srStop, sigStart, sigStop) == Scan(s, i)
    {
      seStart, seStop, srStart, srStop, sigStart, sigStop :=
        Advance(s, i, Fields(seStart, seStop, srStart, srStop, sigStart, sigStop));
    }
    if seStart < 0 || srStart < 0 || sigStart < 0 {
      return false;
    }
    hide Scan;
    if seStop < 0 {
      seStop := |s|;
    } else if srStop < 0 {
      srStop := |s|;
    } else if sigStop < 0 {
      sigStop := |s|;
    }
    assert Fields(seStart, seStop, srStart, srStop, sigStart, sigStop) == Close(Scan(s, |s|), |s|);
    if seStop <= seStart || srStop <= srStart || sigStop <= sigStart || !memory {
      return false;
    }
    var expiryASCII := CopyExpiry(s, seStart, seStop);
    var expiry := GetExpiryValue(expiryASCII);
    if expiry <= 0 {
      return false;
    }
    if expiry < now {
      return false;
    }
    return true;
  }

  method CopyExpiry(s: string, start: nat, stop: int) returns (copy: string)
    requires start <= stop
    ensures copy == ExpiryField(s, start, stop)
  {
    copy := [];
    var i := start;
    while i < stop
      invariant start <= i <= stop && copy + ExpiryField(s, i, stop) == ExpiryField(s, start, stop)
    {
      if At(s, i) == '&' {
        break;
      }
      assert copy + ExpiryField(s, i, stop) == (copy + [At(s, i)]) + ExpiryField(s, i + 1, stop);
      copy := copy + [At(s, i)];
      i := i + 1;
    }
    assert ExpiryField(s, i, stop) == [];
    assert copy + [] == copy;
  }

  // ----- Tokens as built -----

  predicate NameAt(s: string, i: nat) {
    SeAt(s, i) || SrAt(s, i) || SigAt(s, i)
  }

  // No field name in between.
  ghost predicate Quiet(s: string, i: nat, j: nat) {
    forall k: nat | i <= k < j :: !NameAt(s, k)
  }

  ghost predicate FreeOfNames(s: string) {
    Quiet(s, 0, |s|)
  }

  lemma {:induction false} ScanQuiet(s: string, i: nat, j: nat)
    requires i <= j && Quiet(s, i, j)
    ensures Scan(s, j) == Scan(s, i)
    decreases j
  {
    if i < j {
      ScanQuiet(s, i, j - 1);
      assert !NameAt(s, j - 1);
    }
  }

  // A part free of field names is quiet within the token when '&' or the end follows it.
  lemma PartIsQuiet(before: string, part: string, after: string)
    requires FreeOfNames(part) && (after == "" || after[0] == '&')
    ensures Quiet(before + part + after, |before|, |before| + |part|)
  {
    var s := before + part + after;
    forall k: nat | |before| <= k < |before| + |part|
      ensures !NameAt(s, k)
    {
      var i := k - |before|;
      SameAt(before, part, after, i);
      SameAt(before, part, after, i + 1);
      SameAt(before, part, after, i + 2);
      SameAt(before, part, after, i + 3);
      assert !NameAt(part, i);
    }
  }

  lemma SameAt(before: string, part: string, after: string, i: nat)
    requires after == "" || after[0] == '&'
    ensures i < |part| ==> At(before + part + after, |before| + i) == At(part, i)
    ensures i == |part| ==> At(before + part + after, |before| + i) == (if after == "" then NUL else '&')
    ensures i >= |part| ==> At(part, i) == NUL
  {
  }

  lemma DigitsAreFree(n: nat)
    ensures FreeOfNames(Decimal(n))
  {
    var d := Decimal(n);
    forall k: nat | k < |d|
      ensures !NameAt(d, k)
    {
      assert d[k] in d && InBase(d[k], 10);
    }
  }

  lemma SignatureIsFree(signature: string)
    requires '=' !in signature
    ensures FreeOfNames(signature)
  {
  }

  // What the scan meets in a token as built: "sr=" at 22, "sig=" at a and "se=" at b, and no other field name.
  ghost predicate Laid(t: string, a: nat, b: nat) {
    && 25 < a && a + 4 < b && b + 3 < |t|
    && Quiet(t, 0, 22) && SrAt(t, 22)
    && Quiet(t, 23, a) && SigAt(t, a) && At(t, a - 1) == '&'
    && Quiet(t, a + 1, b) && SeAt(t, b) && At(t, b - 1) == '&'
    && Quiet(t, b + 1, |t|)
  }

  lemma ScanLaid(t: string, a: nat, b: nat)
    requires Laid(t, a, b)
    ensures Scan(t, |t|) == Fields(b + 3, -1, 25, a - 2, a + 4, b - 2)
  {
    ScanQuiet(t, 0, 22);
    assert Scan(t, 22) == UNKNOWN;
    assert Scan(t, 23) == UNKNOWN.(srStart := 25);
    ScanQuiet(t, 23, a);
    assert Scan(t, a + 1) == Fields(-1, -1, 25, a - 2, a + 4, -1);
    ScanQuiet(t, a + 1, b);
    assert Scan(t, b + 1) == Fields(b + 3, -1, 25, a - 2, a + 4, b - 2);
    ScanQuiet(t, b + 1, |t|);
  }

  // A piece of text in the middle of a string.
  lemma Inside(t: string, before: string, part: string, after: string)
    requires t == before + part + after
    ensures forall i | 0 <= i < |part| :: At(t, |before| + i) == part[i]
  {
  }

  lemma QuietJoin(t: string, i: nat, j: nat, k: nat)
    requires i <= j <= k && Quiet(t, i, j) && Quiet(t, j, k)
    ensures Quiet(t, i, k)
  {
  }

  lemma PrefixLaid(t: string, rest: string)
    requires t == PREFIX + rest
    ensures Quiet(t, 0, 22) && SrAt(t, 22) && Quiet(t, 23, 25)
  {
    PrefixLetters();
    assert forall i | 0 <= i < 25 :: At(t, i) == PREFIX[i];
    assert At(t, 11) == 's' && At(t, 12) == 'S' && At(t, 22) == 's' && At(t, 23) == 'r' && At(t, 24) == '=';
    forall k: nat | k < 22
      ensures !NameAt(t, k)
    {
      assert At(t, k) == PREFIX[k];
    }
  }

  lemma PrefixLetters()
    ensures |PREFIX| == 25
    ensures forall i | 0 <= i < 22 && i != 10 && i != 11 :: PREFIX[i] != 's'
    ensures PREFIX[11] == 's' && PREFIX[12] == 'S' && PREFIX[22] == 's' && PREFIX[23] == 'r' && PREFIX[24] == '='
  {
  }

  lemma SigLaid(t: string, before: string, after: string)
    requires t == before + "&sig=" + after
    ensures var a := |before| + 1; Quiet(t, a - 1, a) && SigAt(t, a) && At(t, a - 1) == '&' && Quiet(t, a + 1, a + 4)
  {
    var a, part := |before| + 1, "&sig=";
    Inside(t, before, part, after);
    assert At(t, a - 1) == part[0] && At(t, a) == part[1] && At(t, a + 1) == part[2];
    assert At(t, a + 2) == part[3] && At(t, a + 3) == part[4];
  }

  lemma SeLaid(t: string, before: string, after: string)
    requires t == before + "&se=" + after
    ensures var b := |before| + 1; Quiet(t, b - 1, b) && SeAt(t, b) && At(t, b - 1) == '&' && Quiet(t, b + 1, b + 3)
  {
    var b, part := |before| + 1, "&se=";
    Inside(t, before, part, after);
    assert At(t, b - 1) == part[0] && At(t, b) == part[1] && At(t, b + 1) == part[2] && At(t, b + 2) == part[3];
  }

  lemma TailLaid(t: string, before: string, keyName: string, named: bool)
    requires t == before + Tail(keyName, named) && (named ==> FreeOfNames(keyName))
    ensures Quiet(t, |before|, |t|)
  {
    if named {
      var part, n := "&skn=", |before|;
      assert t == before + part + keyName;
      Inside(t, before, part, keyName);
      assert At(t, n) == part[0] && At(t, n + 1) == part[1] && At(t, n + 2) == part[2];
      assert At(t, n + 3) == part[3] && At(t, n + 4) == part[4];
      assert t == (before + part) + keyName + "";
      PartIsQuiet(before + part, keyName, "");
      QuietJoin(t, n, n + 5, |t|);
    }
  }

  lemma TokenLaid(scope: string, signature: string, expiry: nat, keyName: string, named: bool)
    requires FreeOfNames(scope) && '=' !in signature && (named ==> FreeOfNames(keyName))
    ensures var a := 25 + |scope| + 1; Laid(Token(scope, signature, expiry, keyName, named), a, a + 4 + |signature| + 1)
  {
    var d, tail, t := Decimal(expiry), Tail(keyName, named), Token(scope, signature, expiry, keyName, named);
    var a := 25 + |scope| + 1;
    var b := a + 4 + |signature| + 1;
    var before := PREFIX + scope;
    var middle := before + "&sig=" + signature;
    var after := "&sig=" + signature + "&se=" + d + tail;
    assert t == PREFIX + (scope + after) by {
      Rebracket(PREFIX, scope, "&sig=", signature, "&se=", d, tail);
    }
    PrefixLaid(t, scope + after);
    assert t == PREFIX + scope + after by {
      Rebracket(PREFIX, scope, "&sig=", signature, "&se=", d, tail);
    }
    PartIsQuiet(PREFIX, scope, after);
    assert t == before + "&sig=" + (signature + "&se=" + d + tail) by {
      Rebracket(PREFIX, scope, "&sig=", signature, "&se=", d, tail);
    }
    SigLaid(t, before, signature + "&se=" + d + tail);
    SignatureIsFree(signature);
    assert t == (before + "&sig=") + signature + ("&se=" + d + tail) by {
      Rebracket(PREFIX, scope, "&sig=", signature, "&se=", d, tail);
    }
    PartIsQuiet(before + "&sig=", signature, "&se=" + d + tail);
    assert t == middle + "&se=" + (d + tail) by {
      Rebracket(PREFIX, scope, "&sig=", signature, "&se=", d, tail);
    }
    SeLaid(t, middle, d + tail);
    DigitsAreFree(expiry);
    PartIsQuiet(middle + "&se=", d, tail);
    TailLaid(t, middle + "&se=" + d, keyName, named);
    hide Quiet, SrAt, SigAt, SeAt, At, Decimal, Tail, Token, FreeOfNames;
    QuietJoin(t, 23, 25, 25 + |scope|);
    QuietJoin(t, 23, 25 + |scope|, a);
    QuietJoin(t, a + 1, a + 4, b - 1);
    QuietJoin(t, a + 1, b - 1, b);
    QuietJoin(t, b + 1, b + 3, b + 3 + |d|);
    QuietJoin(t, b + 1, b + 3 + |d|, |t|);
  }

  lemma Rebracket(p: string, scope: string, x: string, signature: string, y: string, d: string, tail: string)
    ensures var t := p + scope + x + signature + y + d + tail;
            && t == p + (scope + (x + signature + y + d + tail))
            && t == p + scope + (x + signature + y + d + tail)
            && t == p + scope + x + (signature + y + d + tail)
            && t == p + scope + x + signature + (y + d + tail)
            && t == p + scope + x + signature + y + (d + tail)
  {
  }

  lemma {:induction false} FieldIs(t: string, start: nat, d: string)
    requires start + |d| <= |t| && forall i | 0 <= i < |d| :: At(t, start + i) == d[i] && d[i] != '&'
    requires start + |d| < |t| ==> At(t, start + |d|) == '&'
    ensures ExpiryField(t, start, |t|) == d
    decreases |d|
  {
    if d != "" {
      assert At(t, start + 0) == d[0];
      forall i | 0 <= i < |d[1..]|
        ensures At(t, start + 1 + i) == d[1..][i] && d[1..][i] != '&'
      {
        assert At(t, start + (i + 1)) == d[i + 1];
      }
      FieldIs(t, start + 1, d[1..]);
    }
  }

  lemma ExpiryIs(before: string, expiry: nat, keyName: string, named: bool)
    ensures var t := before + Decimal(expiry) + Tail(keyName, named);
            ExpiryValue(ExpiryField(t, |before|, |t|)) == expiry
  {
    var d, tail := Decimal(expiry), Tail(keyName, named);
    var t := before + d + tail;
    Inside(t, before, d, tail);
    forall i | 0 <= i < |d|
      ensures d[i] != '&'
    {
      assert d[i] in d && InBase(d[i], 10);
    }
    FieldIs(t, |before|, d);
    NumberOfDecimal(expiry);
    assert forall c | c in d :: InBase(c, 10);
  }

  /**
   The validator accepts a token as built if and only if it has not expired and its scope and signature have at
   least two characters: the value in front of '&' is taken to stop one place too early, so shorter ones look
   empty. Nothing in the parts may look like a field name.
   */
  lemma BuilderAndValidatorAgree(scope: string, signature: string, expiry: nat, keyName: string, named: bool, now: int)
    requires FreeOfNames(scope) && '=' !in signature && (named ==> FreeOfNames(keyName))
    ensures Validates(Token(scope, signature, expiry, keyName, named), now) <==>
            |scope| >= 2 && |signature| >= 2 && expiry > 0 && expiry >= now
  {
    var t := Token(scope, signature, expiry, keyName, named);
    var a := 25 + |scope| + 1;
    TokenLaid(scope, signature, expiry, keyName, named);
    ScanLaid(t, a, a + 4 + |signature| + 1);
    var before := PREFIX + scope + "&sig=" + signature + "&se=";
    ExpiryIs(before, expiry, keyName, named);
    hide Laid, Scan, ExpiryField, ExpiryValue, Decimal, Tail, FreeOfNames;
  }
}
