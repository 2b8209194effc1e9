/** How http_proxy_io.c finds the end of a CONNECT response and reads its status code. */
module ProxyResponse {
  import Numbers
  import opened Words
  import opened Wrappers

  const NUL := '\0'
  const TERMINATOR := "\r\n\r\n"
  const LONG_MAX := 0x7FFF_FFFF_FFFF_FFFF

  // The first index from i on that holds c, or the length.
  function Find(s: string, c: char, i: nat): (j: nat)
    requires i <= |s|
    ensures i <= j <= |s| && c !in s[i..j] && (j < |s| ==> s[j] == c)
    decreases |s| - i
  {
    if i == |s| || s[i] == c then i else Find(s, c, i + 1)
  }

  // What C string functions see of a buffer with a NUL written after it.
  function CString(buffer: string): (s: string)
    ensures NUL !in s && s <= buffer
  {
    buffer[..Find(buffer, NUL, 0)]
  }

  predicate TerminatorAt(s: string, i: int) {
    0 <= i && i + 4 <= |s| && s[i..i + 4] == TERMINATOR
  }

  // strstr for the double new-line, from index i on.
  function FindTerminator(s: string, i: nat): (r: Option<nat>)
    requires i <= |s|
    ensures r.Some? ==> i <= r.value && TerminatorAt(s, r.value) && forall j | i <= j < r.value :: !TerminatorAt(s, j)
    ensures r.None? ==> forall j | i <= j :: !TerminatorAt(s, j)
    decreases |s| - i
  {
    if TerminatorAt(s, i) then Some(i)
    else if i == |s| then None
    else FindTerminator(s, i + 1)
  }

  // The length of the response header at the front of the buffer, double new-line included.
  function HeaderLength(buffer: string): (r: Option<nat>)
    ensures r.Some? ==> 4 <= r.value <= |buffer| && NUL !in buffer[..r.value] && TerminatorAt(buffer, r.value - 4)
  {
    var s := CString(buffer);
    match FindTerminator(s, 0)
    case None => None
    case Some(i) =>
      assert buffer[..i + 4] == s[..i + 4];
      assert buffer[i..i + 4] == s[i..i + 4];
      Some(i + 4)
  }

  // ----- strtol with base 0 -----

  // The index after the white space, or the digits of the base, from i on.
  function SkipSpaces(s: string, i: nat): (j: nat)
    requires i <= |s|
    ensures i <= j <= |s| && (j < |s| ==> !Numbers.IsSpace(s[j]))
    decreases |s| - i
  {
    if i == |s| || !Numbers.IsSpace(s[i]) then i else SkipSpaces(s, i + 1)
  }

  function SkipDigits(s: string, base: int, i: nat): (j: nat)
    requires i <= |s|
    ensures i <= j <= |s| && (forall k | i <= k < j :: Numbers.InBase(s[k], base)) && (j < |s| ==> !Numbers.InBase(s[j], base))
    decreases |s| - i
  {
    if i == |s| || !Numbers.InBase(s[i], base) then i else SkipDigits(s, base, i + 1)
  }

  function DigitsValue(s: string, base: nat, i: nat, j: nat): (v: nat)
    requires i <= j <= |s| && forall k | i <= k < j :: Numbers.InBase(s[k], base)
    decreases j
  {
    if i == j then 0
    else
      assert Numbers.InBase(s[j - 1], base);
      DigitsValue(s, base, i, j - 1) * base + Numbers.DigitVal(s[j - 1])
  }

  // The base that a prefix at i selects, and where its digits start.
  function BaseAt(s: string, i: nat): (r: (nat, nat))
    requires i <= |s|
    ensures i <= r.1 <= |s| && 8 <= r.0 <= 16
  {
    if i + 2 < |s| && s[i] == '0' && (s[i + 1] == 'x' || s[i + 1] == 'X') && Numbers.InBase(s[i + 2], 16) then (16, i + 2)
    else if i < |s| && s[i] == '0' then (8, i)
    else (10, i)
  }

  // Sign, base, first digit and end of the number that strtol finds.
  datatype Found = Found(negative: bool, base: nat, from: nat, to: nat)

  function NumeralAt(s: string, start: nat): (n: Found)
    requires start <= |s|
    ensures n.from <= n.to <= |s| && forall k | n.from <= k < n.to :: Numbers.InBase(s[k], n.base)
  {
    var i := SkipSpaces(s, start);
    var k := if i < |s| && (s[i] == '-' || s[i] == '+') then i + 1 else i;
    var (base, from) := BaseAt(s, k);
    Found(i < |s| && s[i] == '-', base, from, SkipDigits(s, base, from))
  }

  function Saturate(negative: bool, v: nat): int {
    if negative then (if v > LONG_MAX then -LONG_MAX - 1 else 0 - v) else (if v > LONG_MAX then LONG_MAX else v)
  }

  function Strtol(s: string, start: nat): Option<int>
    requires start <= |s|
  {
    var n := NumeralAt(s, start);
    if n.from == n.to then None else Some(Saturate(n.negative, DigitsValue(s, n.base, n.from, n.to)))
  }

  // The status code of a response; a value out of int range is cast, as the source does.
  function Status(src: string): Option<int> {
    if !("HTTP/" <= src) then None
    else
      var dot := Find(src, '.', 5);
      var space := Find(src, ' ', dot);
      if space == |src| then None
      else
        match Strtol(src, space)
        case None => None
        case Some(n) => Some(AsInt(n))
  }

  predicate Success(status: Option<int>) {
    status.Some? && 200 <= status.value <= 299
  }

  method ParseHttpResponse(src: string) returns (status: Option<int>)
    requires NUL !in src
    ensures status == Status(src)
  {
    var prefix := "HTTP/";
    var at := 0;
    while at < |prefix|
      invariant at <= 5 && at <= |src| && prefix[..at] == src[..at]
    {
      if at == |src| || prefix[at] != src[at] {
        return None;
      }
      at := at + 1;
    }
    assert prefix[..5] == prefix;
    while at == |src| || src[at] != '.'
      invariant 5 <= at <= |src| && Find(src, '.', at) == Find(src, '.', 5)
      decreases |src| - at
    {
      if at == |src| {
        return None;
      }
      at := at + 1;
    }
    ghost var dot := at;
    while at == |src| || src[at] != ' '
      invariant dot <= at <= |src| && Find(src, ' ', at) == Find(src, ' ', dot)
      decreases |src| - at
    {
      if at == |src| {
        return None;
      }
      at := at + 1;
    }
    match Strtol(src, at) {
      case None => return None;
      case Some(n) => return Some(AsInt(n));
    }
  }

  // ----- A status found in the header does not depend on what follows the header -----

  lemma {:induction false} FindStable(s: string, x: string, c: char, i: nat)
    requires i <= |s| && Find(s, c, i) < |s|
    ensures Find(s + x, c, i) == Find(s, c, i)
    decreases |s| - i
  {
    if s[i] != c {
      FindStable(s, x, c, i + 1);
    }
  }

  lemma {:induction false} SkipSpacesStable(s: string, x: string, i: nat)
    requires i <= |s| && SkipSpaces(s, i) < |s|
    ensures SkipSpaces(s + x, i) == SkipSpaces(s, i)
    decreases |s| - i
  {
    if Numbers.IsSpace(s[i]) {
      SkipSpacesStable(s, x, i + 1);
    }
  }

  lemma {:induction false} SkipDigitsStable(s: string, x: string, base: int, i: nat)
    requires i <= |s| && SkipDigits(s, base, i) < |s|
    ensures SkipDigits(s + x, base, i) == SkipDigits(s, base, i)
    decreases |s| - i
  {
    if Numbers.InBase(s[i], base) {
      SkipDigitsStable(s, x, base, i + 1);
    }
  }

  lemma {:induction false} DigitsValueStable(s: string, x: string, base: nat, i: nat, j: nat)
    requires i <= j <= |s| && forall k | i <= k < j :: Numbers.InBase(s[k], base)
    ensures forall k | i <= k < j :: Numbers.InBase((s + x)[k], base)
    ensures DigitsValue(s + x, base, i, j) == DigitsValue(s, base, i, j)
    decreases j
  {
    if i < j {
      DigitsValueStable(s, x, base, i, j - 1);
    }
  }

  // Text that ends with a whole line, such as a header.
  predicate EndsLine(s: string) {
    |s| >= 2 && s[|s| - 2] == '\r' && s[|s| - 1] == '\n'
  }

  lemma NumeralStable(s: string, x: string, start: nat)
    requires start <= |s| && EndsLine(s) && SkipSpaces(s, start) < |s|
    ensures NumeralAt(s + x, start) == NumeralAt(s, start) && NumeralAt(s, start).to < |s|
  {
    hide SkipSpaces, SkipDigits;
    var n := NumeralAt(s, start);
    SkipSpacesStable(s, x, start);
    assert SkipSpaces(s, start) < |s| - 2;
    SkipDigitsStable(s, x, n.base, n.from);
  }

  lemma StrtolStable(s: string, x: string, start: nat)
    requires start <= |s| && EndsLine(s) && SkipSpaces(s, start) < |s|
    ensures Strtol(s + x, start) == Strtol(s, start)
  {
    hide NumeralAt;
    var n := NumeralAt(s, start);
    NumeralStable(s, x, start);
    DigitsValueStable(s, x, n.base, n.from, n.to);
  }

  // Everything the status depends on has been seen.
  predicate Settled(s: string) {
    && |s| >= 5
    && ("HTTP/" <= s ==>
          var space := Find(s, ' ', Find(s, '.', 5));
          space < |s| && SkipSpaces(s, space) < |s|)
  }

  lemma SettledStable(s: string, x: string)
    requires EndsLine(s) && Settled(s)
    ensures Status(s + x) == Status(s)
  {
    hide Strtol, SkipSpaces;
    assert (s + x)[..5] == s[..5];
    if "HTTP/" <= s {
      var dot := Find(s, '.', 5);
      FindStable(s, x, '.', 5);
      FindStable(s, x, ' ', dot);
      StrtolStable(s, x, Find(s, ' ', dot));
    }
  }

  lemma StatusSettles(s: string)
    requires EndsLine(s) && Status(s).Some?
    ensures Settled(s)
  {
    hide SkipDigits;
    var space := Find(s, ' ', Find(s, '.', 5));
    var n := NumeralAt(s, space);
    assert Numbers.InBase(s[n.from], n.base);
  }

  /** What follows a whole line does not change a status found up to there. */
  lemma StatusStable(h: string, x: string)
    requires EndsLine(h) && Status(h).Some?
    ensures Status(h + x) == Status(h)
  {
    StatusSettles(h);
    SettledStable(h, x);
  }

  lemma {:induction false} FindBefore(s: string, c: char, i: nat, j: nat)
    requires i <= j < |s| && s[j] == c
    ensures Find(s, c, i) <= j
    decreases j - i
  {
    if i < j && s[i] != c {
      FindBefore(s, c, i + 1, j);
    }
  }

  lemma {:induction false} SpacesBefore(s: string, i: nat, j: nat)
    requires i <= j < |s| && !Numbers.IsSpace(s[j])
    ensures SkipSpaces(s, i) <= j
    decreases j - i
  {
    if i < j && Numbers.IsSpace(s[i]) {
      SpacesBefore(s, i + 1, j);
    }
  }

  // With a response that has a status at its end, text is settled whatever comes before the response.
  lemma SettledAfter(b: string, h: string)
    requires EndsLine(h) && Status(h).Some?
    ensures EndsLine(b + h) && Settled(b + h)
  {
    hide SkipSpaces, Strtol;
    StatusSettles(h);
    var s, n := b + h, |b|;
    var dot := Find(h, '.', 5);
    var space := Find(h, ' ', dot);
    var digit := SkipSpaces(h, space);
    assert s[n + dot] == h[dot] && s[n + space] == h[space] && s[n + digit] == h[digit];
    FindBefore(s, '.', 5, n + dot);
    FindBefore(s, ' ', Find(s, '.', 5), n + space);
    SpacesBefore(s, Find(s, ' ', Find(s, '.', 5)), n + digit);
  }
}
