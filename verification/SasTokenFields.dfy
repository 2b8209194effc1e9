/** What the scan makes of the three fields in any order, and of what stands between them. */
module SasTokenFields {
  import opened Numbers
  import opened SasToken

  datatype Name = Se | Sr | Sig {
    function Text(): (r: string)
      ensures |r| >= 3
    {
      match this
      case Se => "se="
      case Sr => "sr="
      case Sig => "sig="
    }
  }

  predicate Meets(s: string, i: nat, name: Name) {
    match name
    case Se => SeAt(s, i)
    case Sr => SrAt(s, i)
    case Sig => SigAt(s, i)
  }

  function Start(f: Fields, name: Name): int {
    match name
    case Se => f.seStart
    case Sr => f.srStart
    case Sig => f.sigStart
  }

  function Stop(f: Fields, name: Name): int {
    match name
    case Se => f.seStop
    case Sr => f.srStop
    case Sig => f.sigStop
  }

  function WithStart(f: Fields, name: Name, at: int): Fields {
    match name
    case Se => f.(seStart := at)
    case Sr => f.(srStart := at)
    case Sig => f.(sigStart := at)
  }

  function WithStop(f: Fields, name: Name, at: int): Fields {
    match name
    case Se => f.(seStop := at)
    case Sr => f.(srStop := at)
    case Sig => f.(sigStop := at)
  }

  predicate IsOpen(f: Fields, name: Name) {
    Open(Start(f, name), Stop(f, name))
  }

  // Where the value of a name behind c stops, when the next name is at i.
  function StopAt(c: char, i: nat): int {
    if c == ' ' then i - 1 else i - 2
  }

  predicate Separates(c: char) {
    c == '&' || c == ' '
  }

  // One name met while the value of another is read, or none.
  lemma FirstName(s: string, i: nat, f: Fields, name: Name)
    requires Meets(s, i, name) && forall other :: other != name ==> !IsOpen(f, other)
    ensures Step(s, i, f) == WithStart(f, name, i + |name.Text()|)
  {
    assert !IsOpen(f, if name == Se then Sr else Se) && !IsOpen(f, if name == Sig then Sr else Sig);
    hide Open;
  }

  lemma NextName(s: string, i: nat, f: Fields, name: Name, open: Name)
    requires i > 0 && Meets(s, i, name) && name != open && IsOpen(f, open)
    requires forall other :: other != open && other != name ==> !IsOpen(f, other)
    ensures Step(s, i, f) ==
            if Separates(At(s, i - 1)) then
              WithStop(WithStart(f, name, i + |name.Text()|), open, StopAt(At(s, i - 1), i))
            else WithStart(f, name, -1)
  {
    assert open != Se && name != Se ==> !IsOpen(f, Se);
    assert open != Sr && name != Sr ==> !IsOpen(f, Sr);
    assert open != Sig && name != Sig ==> !IsOpen(f, Sig);
    hide Open;
  }

  // ----- The text of a token -----

  // Text free of names stays so in front of the end or of another name.
  lemma PartQuiet(t: string, before: string, part: string, after: string)
    requires t == before + (part + after) && FreeOfNames(part) && (after == "" || after[0] == 's')
    ensures Quiet(t, |before|, |before + part|)
  {
    forall k: nat | |before| <= k < |before + part|
      ensures !NameAt(t, k)
    {
      var i := k - |before|;
      assert forall j: nat | i <= j < i + 4 :: j < |part| ==> At(t, |before| + j) == At(part, j);
      assert At(t, |before| + |part|) == if after == "" then NUL else 's';
      assert !NameAt(part, i);
    }
  }

  lemma FieldLaid(t: string, before: string, name: Name, part: string, after: string)
    requires t == before + (name.Text() + (part + after))
    requires FreeOfNames(part) && (after == "" || after[0] == 's')
    ensures Meets(t, |before|, name) && Quiet(t, |before| + 1, |before| + |name.Text()| + |part|)
  {
    var text, n := name.Text(), |before|;
    assert forall i | 0 <= i < |text| :: At(t, n + i) == text[i];
    assert At(t, n) == text[0] && At(t, n + 1) == text[1] && At(t, n + 2) == text[2];
    assert name == Sig ==> At(t, n + 3) == text[3];
    assert t == (before + text) + (part + after);
    PartQuiet(t, before + text, part, after);
    assert Quiet(t, n + 1, n + |text|);
    QuietJoin(t, n + 1, n + |text|, n + |text| + |part|);
  }

  datatype Field = Field(name: Name, value: string)

  // A token with three fields: what stands between two of them is one character.
  function Laid3(before: string, f: Field, c: char, g: Field, d: char, h: Field): string {
    before + (f.name.Text() + ((f.value + [c]) + (g.name.Text() + ((g.value + [d]) + (h.name.Text() + h.value)))))
  }

  ghost predicate WellLaid(before: string, f: Field, c: char, g: Field, d: char, h: Field) {
    && f.name != g.name && g.name != h.name && f.name != h.name
    && FreeOfNames(before) && FreeOfNames(f.value + [c]) && FreeOfNames(g.value + [d]) && FreeOfNames(h.value)
  }

  // The scan meets the three names, at p, q and r, and no others.
  ghost predicate ThreeAt(t: string, f: Name, p: nat, g: Name, q: nat, h: Name, r: nat) {
    && p + 3 < q && q + 3 < r && r < |t|
    && Quiet(t, 0, p) && Meets(t, p, f) && Quiet(t, p + 1, q) && Meets(t, q, g)
    && Quiet(t, q + 1, r) && Meets(t, r, h) && Quiet(t, r + 1, |t|)
  }

  lemma ThreeLaid(before: string, f: Field, c: char, g: Field, d: char, h: Field)
    requires WellLaid(before, f, c, g, d, h)
    ensures var p := |before|;
            var q := p + |f.name.Text()| + |f.value| + 1;
            var r := q + |g.name.Text()| + |g.value| + 1;
            var t := Laid3(before, f, c, g, d, h);
            && ThreeAt(t, f.name, p, g.name, q, h.name, r)
            && At(t, q - 1) == c && At(t, r - 1) == d && |t| == r + |h.name.Text()| + |h.value|
            && t[p + |f.name.Text()|..q - 1] == f.value && t[q + |g.name.Text()|..r - 1] == g.value
            && t[r + |h.name.Text()|..] == h.value
  {
    hide NameAt, Meets, Quiet, At, Name.Text, FreeOfNames;
    var t := Laid3(before, f, c, g, d, h);
    var middle := g.name.Text() + ((g.value + [d]) + (h.name.Text() + h.value));
    var all := f.name.Text() + ((f.value + [c]) + middle);
    StartsWithName(f.name, (f.value + [c]) + middle);
    StartsWithName(g.name, (g.value + [d]) + (h.name.Text() + h.value));
    Beginning(t, before, all);
    var b := OneLaid(t, before, f.name, f.value, c, middle);
    TwoLaid(t, b, g, d, h);
  }

  lemma Beginning(t: string, before: string, all: string)
    requires t == before + all && FreeOfNames(before) && all != "" && all[0] == 's'
    ensures Quiet(t, 0, |before|)
  {
    assert "" + (before + all) == t && "" + before == before;
    PartQuiet(t, "", before, all);
  }

  lemma TwoLaid(t: string, b: string, g: Field, d: char, h: Field)
    requires t == b + (g.name.Text() + ((g.value + [d]) + (h.name.Text() + h.value)))
    requires FreeOfNames(g.value + [d]) && FreeOfNames(h.value)
    ensures var q := |b|;
            var r := q + |g.name.Text()| + |g.value| + 1;
            && |g.name.Text()| >= 3 && |h.name.Text()| >= 3
            && Meets(t, q, g.name) && Quiet(t, q + 1, r) && Meets(t, r, h.name) && Quiet(t, r + 1, |t|)
            && At(t, r - 1) == d && |t| == r + |h.name.Text()| + |h.value|
            && t[q + |g.name.Text()|..r - 1] == g.value && t[r + |h.name.Text()|..] == h.value
  {
    hide NameAt, Meets, Quiet, At, Name.Text, FreeOfNames;
    var last := h.name.Text() + h.value;
    StartsWithName(g.name, (g.value + [d]) + last);
    StartsWithName(h.name, h.value);
    var b' := OneLaid(t, b, g.name, g.value, d, last);
    LastPlace(t, b', h.name.Text(), h.value);
    FieldLaid(t, b', h.name, h.value, "");
  }

  lemma StartsWithName(name: Name, rest: string)
    ensures |name.Text()| >= 3 && (name.Text() + rest)[0] == 's'
  {
  }

  // A field laid down at the end of b; b' is the token up to what follows.
  lemma OneLaid(t: string, b: string, name: Name, v: string, c: char, rest: string) returns (b': string)
    requires t == b + (name.Text() + ((v + [c]) + rest))
    requires FreeOfNames(v + [c]) && rest != "" && rest[0] == 's'
    ensures t == b' + rest
    ensures var at := |b| + |name.Text()|;
            && |b'| == at + |v| + 1 && t[at..at + |v|] == v && At(t, at + |v|) == c
            && Meets(t, |b|, name) && Quiet(t, |b| + 1, |b'|)
  {
    hide NameAt, Meets, Quiet, FreeOfNames, Name.Text;
    b' := b + name.Text() + (v + [c]);
    Places(t, b, name.Text(), v, c, rest);
    FieldLaid(t, b, name, v + [c], rest);
  }

  lemma Places(t: string, b: string, text: string, v: string, c: char, rest: string)
    requires t == b + (text + ((v + [c]) + rest))
    ensures t == (b + text + (v + [c])) + rest
    ensures var at := |b| + |text|; t[at..at + |v|] == v && At(t, at + |v|) == c
  {
  }

  lemma LastPlace(t: string, b: string, text: string, v: string)
    requires t == b + (text + v)
    ensures t == b + (text + (v + "")) && t[|b| + |text|..] == v
  {
  }

  // ----- The verdict -----

  // The part of a value that is read when c and another name follow: one character less behind it for '&'.
  function Read(v: string, c: char): string {
    if c == ' ' || v == "" then v else v[..|v| - 1]
  }

  // Up to the first '&'.
  function Front(s: string): string {
    if s == "" || s[0] == '&' then "" else [s[0]] + Front(s[1..])
  }

  lemma {:induction false} FieldIsFront(t: string, start: nat, stop: nat)
    requires start <= stop <= |t|
    ensures ExpiryField(t, start, stop) == Front(t[start..stop])
    decreases stop - start
  {
    if start < stop {
      assert t[start..stop][0] == t[start] && t[start..stop][1..] == t[start + 1..stop];
      FieldIsFront(t, start + 1, stop);
    }
  }

  lemma ScanThree(t: string, f: Name, p: nat, g: Name, q: nat, h: Name, r: nat)
    requires ThreeAt(t, f, p, g, q, h, r) && f != g && g != h && f != h
    requires p + |f.Text()| < q && q + |g.Text()| < r
    ensures var s, c, d := Scan(t, |t|), At(t, q - 1), At(t, r - 1);
            if Separates(c) && Separates(d) then
              && Start(s, f) == p + |f.Text()| && Stop(s, f) == StopAt(c, q)
              && Start(s, g) == q + |g.Text()| && Stop(s, g) == StopAt(d, r)
              && Start(s, h) == r + |h.Text()| && Stop(s, h) == -1
            else !AllFound(s)
  {
    hide Quiet, Meets, Step, At, Name.Text;
    ScanQuiet(t, 0, p);
    FirstName(t, p, UNKNOWN, f);
    ScanQuiet(t, p + 1, q);
    var s1 := WithStart(UNKNOWN, f, p + |f.Text()|);
    assert Scan(t, q) == s1;
    NextName(t, q, s1, g, f);
    ScanQuiet(t, q + 1, r);
    var s2 := Scan(t, r);
    assert s2 == Step(t, q, s1);
    if Separates(At(t, q - 1)) {
      NextName(t, r, s2, h, g);
    } else {
      NextName(t, r, s2, h, f);
    }
    ScanQuiet(t, r + 1, |t|);
    assert Scan(t, |t|) == Step(t, r, s2);
  }

  // What is read of the expiry.
  function ExpiryRead(f: Field, c: char, g: Field, d: char, h: Field): string {
    if f.name == Se then Front(Read(f.value, c))
    else if g.name == Se then Front(Read(g.value, d))
    else Front(h.value)
  }

  lemma ReadIs(t: string, start: nat, v: string, c: char)
    requires start + |v| < |t| && t[start..start + |v|] == v && Separates(c)
    ensures var stop := StopAt(c, start + |v| + 1);
            && stop >= start - 1 && (start < stop <==> Read(v, c) != "")
            && ExpiryField(t, start, stop) == Front(Read(v, c))
  {
    var stop := StopAt(c, start + |v| + 1);
    if start <= stop {
      FieldIsFront(t, start, stop);
      assert t[start..stop] == t[start..start + |v|][..stop - start];
    }
  }

  /**
   The verdict on a token with the three fields in any order. A name counts as one only behind a blank or '&', so with
   anything else between them the token is refused. Otherwise it is accepted if and only if something is read of each
   value, and what is read of the expiry is a decimal number, positive and not in the past; of a value in front of '&'
   the last character is not read.
   */
  lemma AnyOrder(before: string, f: Field, c: char, g: Field, d: char, h: Field, now: int)
    requires WellLaid(before, f, c, g, d, h)
    ensures Validates(Laid3(before, f, c, g, d, h), now) <==>
            && Separates(c) && Separates(d)
            && Read(f.value, c) != "" && Read(g.value, d) != "" && h.value != ""
            && var expiry := ExpiryValue(ExpiryRead(f, c, g, d, h)); expiry > 0 && expiry >= now
  {
    hide Quiet, Meets, NameAt, ExpiryValue, At, FreeOfNames, Scan, ExpiryField, Front, Read, StopAt, Laid3;
    var t := Laid3(before, f, c, g, d, h);
    var p := |before|;
    var q := p + |f.name.Text()| + |f.value| + 1;
    var r := q + |g.name.Text()| + |g.value| + 1;
    ThreeLaid(before, f, c, g, d, h);
    ScanThree(t, f.name, p, g.name, q, h.name, r);
    if Separates(c) && Separates(d) {
      ReadIs(t, p + |f.name.Text()|, f.value, c);
      ReadIs(t, q + |g.name.Text()|, g.value, d);
      FieldIsFront(t, r + |h.name.Text()|, |t|);
      assert t[r + |h.name.Text()|..|t|] == h.value && (h.value == "" <==> |h.value| == 0);
    }
    hide Name.Text;
  }

  lemma {:induction false} FrontOfDigits(s: string)
    requires forall c | c in s :: c != '&'
    ensures Front(s) == s
  {
    if s != "" {
      assert s[0] in s && forall c | c in s[1..] :: c in s;
      FrontOfDigits(s[1..]);
    }
  }

  /** An expiry is read in full in front of a blank, and without its last digit in front of '&' and another name. */
  lemma ExpiryLosesDigit(n: nat)
    ensures ExpiryValue(Front(Read(Decimal(n), ' '))) == n
    ensures ExpiryValue(Front(Read(Decimal(n), '&'))) == n / 10
  {
    var d := Decimal(n);
    var short := d[..|d| - 1];
    assert short == if n < 10 then "" else Decimal(n / 10);
    assert forall c | c in d :: InBase(c, 10);
    FrontOfDigits(d);
    FrontOfDigits(short);
    NumberOfDecimal(n);
    NumberOfDecimal(n / 10);
    NoDigits(10);
    hide Decimal, Front, Number;
  }

  /** Anything but decimal digits is no expiry at all. */
  lemma OnlyDecimals(s: string)
    ensures ExpiryValue(s) > 0 ==> forall c | c in s :: c in "0123456789"
  {
  }

  /** The tokens built are of this form, with the scope, the signature and the expiry in this order. */
  lemma BuiltToken(scope: string, signature: string, expiry: nat, keyName: string, named: bool)
    ensures Token(scope, signature, expiry, keyName, named) ==
            Laid3("SharedAccessSignature ", Field(Sr, scope), '&', Field(Sig, signature), '&',
                  Field(Se, Decimal(expiry) + if named then "&skn=" + keyName else ""))
  {
    hide Decimal;
    var d, tail := Decimal(expiry), if named then "&skn=" + keyName else "";
    assert PREFIX == "SharedAccessSignature " + "sr=" && "&sig=" == ['&'] + "sig=" && "&se=" == ['&'] + "se=";
    Regroup("SharedAccessSignature ", "sr=", scope, "sig=", signature, "se=", d, tail);
  }

  lemma Regroup(a: string, x: string, scope: string, y: string, signature: string, z: string, d: string, tail: string)
    ensures (a + x) + scope + (['&'] + y) + signature + (['&'] + z) + d + tail
         == a + (x + ((scope + ['&']) + (y + ((signature + ['&']) + (z + (d + tail))))))
  {
  }
}
