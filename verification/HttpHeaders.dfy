/** The HTTP headers of httpheaders.c, kept in a map without a filter. */
module HttpHeaders {
  import opened AssocLists
  import opened KeyValueMap
  import opened KeyValueMapRuns

  datatype HeaderResult = HeaderOk | InvalidArg | AllocFailed | HeaderError

  // ----- Names and values -----

  predicate NameChar(c: char) {
    33 <= c as int <= 126 && c != ':'
  }

  predicate ValidName(name: string) {
    forall i | 0 <= i < |name| :: NameChar(name[i])
  }

  predicate IsBlank(c: char) {
    c == ' ' || c == '\t' || c == '\r' || c == '\n'
  }

  function Trim(value: string): string {
    if value != "" && IsBlank(value[0]) then Trim(value[1..]) else value
  }

  // ----- Storing a header -----

  // `joined` tells whether the concatenated value can be allocated.
  datatype Put = Put(name: string, value: string, replace: bool, joined: bool, m: Memory)

  function Store(c: Contents, p: Put): (Contents, HeaderResult) {
    var value := Trim(p.value);
    if !ValidName(p.name) then (c, InvalidArg)
    else if !p.replace && Has(c.pairs, p.name) then
      if !p.joined then (c, AllocFailed)
      else
        var (d, result) := AddOrUpdate(c, p.name, c.pairs[IndexOf(c.pairs, p.name)].value + ", " + value, p.m);
        (d, if result == Ok then HeaderOk else HeaderError)
    else
      var (d, result) := AddOrUpdate(c, p.name, value, p.m);
      (d, if result == Ok then HeaderOk else AllocFailed)
  }

  class Headers {
    const headers: Map

    ghost predicate Valid()
      reads this, headers
    {
      headers.Valid()
    }

    constructor ()
      ensures Valid() && fresh(headers) && headers.View() == Contents([], NoFilter)
    {
      headers := new Map(NoFilter);
    }

    method ReplaceHeaderNameValuePair(name: string, value: string, replace: bool, joined: bool, m: Memory)
      returns (result: HeaderResult)
      requires Valid()
      modifies headers
      ensures Valid()
      ensures (headers.View(), result) == Store(old(headers.View()), Put(name, value, replace, joined, m))
    {
      var i := 0;
      while i < |name| && NameChar(name[i])
        invariant i <= |name| && forall j | 0 <= j < i :: NameChar(name[j])
      {
        i := i + 1;
      }
      if i < |name| {
        return InvalidArg;
      }
      var existing := headers.GetValueFromKey(name);
      var start := 0;
      assert value[0..] == value;
      while start < |value| && IsBlank(value[start])
        invariant start <= |value| && Trim(value[start..]) == Trim(value)
      {
        assert value[start..][1..] == value[start + 1..];
        start := start + 1;
      }
      var trimmed := value[start..];
      hide Trim, NameChar;
      if !replace && existing.Str? {
        if !joined {
          return AllocFailed;
        }
        var added := headers.MapAddOrUpdate(name, existing.s + ", " + trimmed, m);
        result := if added == Ok then HeaderOk else HeaderError;
      } else {
        var added := headers.MapAddOrUpdate(name, trimmed, m);
        result := if added == Ok then HeaderOk else AllocFailed;
      }
    }

    method FindHeaderValue(name: string) returns (value: Slot)
      requires Valid()
      ensures value == Lookup(headers.View().pairs, name)
    {
      value := headers.GetValueFromKey(name);
    }

    method GetHeaderCount() returns (count: nat)
      requires Valid()
      ensures count == |headers.View().pairs|
    {
      count := headers.count;
    }

    method GetHeader(index: nat, memory: bool) returns (result: HeaderResult, destination: string)
      requires Valid()
      ensures result == if index >= |headers.View().pairs| then InvalidArg else if memory then HeaderOk else HeaderError
      ensures result == HeaderOk ==> destination == Line(headers.View().pairs[index])
    {
      destination := "";
      if index >= headers.count {
        return InvalidArg, destination;
      }
      if !memory {
        return HeaderError, destination;
      }
      destination := headers.keys[index].s;
      destination := destination + ":" + " ";
      destination := destination + headers.values[index].s;
      assert destination == headers.keys[index].s + ": " + headers.values[index].s;
      result := HeaderOk;
    }
  }

  // The header as it is sent.
  function Line(p: Pair): string {
    p.key + ": " + p.value
  }

  // ----- Runs -----

  function Run(puts: seq<Put>): Contents
    decreases |puts|
  {
    if puts == [] then Contents([], NoFilter) else Store(Run(puts[..|puts| - 1]), puts[|puts| - 1]).0
  }

  // The values accepted under a name since it was last replaced, in order.
  function Accepted(puts: seq<Put>, name: string): seq<string>
    decreases |puts|
  {
    if puts == [] then []
    else
      var before, p := puts[..|puts| - 1], puts[|puts| - 1];
      if p.name != name || Store(Run(before), p).1 != HeaderOk then Accepted(before, name)
      else if p.replace then [Trim(p.value)]
      else Accepted(before, name) + [Trim(p.value)]
  }

  function Join(values: seq<string>): string
    requires values != []
    decreases |values|
  {
    if |values| == 1 then values[0] else Join(values[..|values| - 1]) + ", " + values[|values| - 1]
  }

  function Joined(values: seq<string>): Slot {
    if values == [] then Null else Str(Join(values))
  }

  lemma JoinMore(values: seq<string>, value: string)
    ensures Join(values + [value]) == if values == [] then value else Join(values) + ", " + value
  {
    assert (values + [value])[..|values|] == values;
  }

  lemma AddOrUpdateLookup(c: Contents, key: string, value: string, m: Memory, name: string)
    requires c.filter == NoFilter
    ensures var (d, result) := AddOrUpdate(c, key, value, m);
            && d.filter == NoFilter
            && Lookup(d.pairs, name) == if result == Ok && name == key then Str(value) else Lookup(c.pairs, name)
  {
    if Has(c.pairs, key) {
      UpdateIndex(c.pairs, IndexOf(c.pairs, key), Entry(key, value), name);
    } else {
      AppendIndex(c.pairs, Entry(key, value), name);
    }
  }

  lemma StoreLookup(c: Contents, p: Put, name: string)
    requires c.filter == NoFilter
    ensures var (d, result) := Store(c, p);
            && d.filter == NoFilter
            && Lookup(d.pairs, name) ==
               if result != HeaderOk || name != p.name then Lookup(c.pairs, name)
               else if p.replace || Lookup(c.pairs, name) == Null then Str(Trim(p.value))
               else Str(Lookup(c.pairs, name).s + ", " + Trim(p.value))
  {
    hide AddOrUpdate, ValidName, Trim;
    AddOrUpdateLookup(c, p.name, Trim(p.value), p.m, name);
    if Has(c.pairs, p.name) {
      AddOrUpdateLookup(c, p.name, c.pairs[IndexOf(c.pairs, p.name)].value + ", " + Trim(p.value), p.m, name);
    }
  }

  /**
   Whatever headers are added or replaced, and whatever calls fail on the way, the value stored under a name is
   the values accepted for it since it was last replaced, without their leading blanks, joined by ", ".
   */
  lemma {:induction false} StoredValue(puts: seq<Put>, name: string)
    ensures Run(puts).filter == NoFilter
    ensures Lookup(Run(puts).pairs, name) == Joined(Accepted(puts, name))
    decreases |puts|
  {
    if puts != [] {
      var before, p := puts[..|puts| - 1], puts[|puts| - 1];
      StoredValue(before, name);
      StoreLookup(Run(before), p, name);
      JoinMore(Accepted(before, name), Trim(p.value));
      hide Store, Lookup, Trim;
    }
  }

  // Additions under one name that all succeed, after the calls made before.
  ghost predicate AllAdded(before: seq<Put>, name: string, adds: seq<Put>)
    decreases |adds|
  {
    adds == [] ||
    var front, last := adds[..|adds| - 1], adds[|adds| - 1];
    && AllAdded(before, name, front)
    && last.name == name && !last.replace && Store(Run(before + front), last).1 == HeaderOk
  }

  /** Adding values one after the other under a new name stores them joined. */
  lemma AddedValues(before: seq<Put>, name: string, adds: seq<Put>)
    requires Lookup(Run(before).pairs, name) == Null && adds != [] && AllAdded(before, name, adds)
    ensures Lookup(Run(before + adds).pairs, name) == Str(Join(Trimmed(adds)))
  {
    hide Lookup, Run, Accepted, Join, AllAdded, Trimmed;
    StoredValue(before, name);
    AcceptedAll(before, name, adds);
    StoredValue(before + adds, name);
    assert Accepted(before, name) + Trimmed(adds) == Trimmed(adds);
  }

  function Trimmed(adds: seq<Put>): (r: seq<string>)
    ensures |r| == |adds|
  {
    seq(|adds|, i requires 0 <= i < |adds| => Trim(adds[i].value))
  }

  lemma AcceptedOne(before: seq<Put>, p: Put)
    requires !p.replace && Store(Run(before), p).1 == HeaderOk
    ensures Accepted(before + [p], p.name) == Accepted(before, p.name) + [Trim(p.value)]
  {
    hide Store, Trim, Run;
    assert (before + [p])[..|before|] == before;
  }

  lemma {:induction false} AcceptedAll(before: seq<Put>, name: string, adds: seq<Put>)
    requires AllAdded(before, name, adds)
    ensures Accepted(before + adds, name) == Accepted(before, name) + Trimmed(adds)
    decreases |adds|
  {
    hide Store, Trim, Run, Accepted;
    if adds == [] {
      assert before + adds == before && Accepted(before, name) + Trimmed(adds) == Accepted(before, name);
    } else {
      var front, last := adds[..|adds| - 1], adds[|adds| - 1];
      AcceptedAll(before, name, front);
      AcceptedOne(before + front, last);
      assert before + adds == (before + front) + [last];
      assert Trimmed(adds) == Trimmed(front) + [Trim(last.value)];
      assert Accepted(before, name) + Trimmed(adds) == (Accepted(before, name) + Trimmed(front)) + [Trim(last.value)];
    }
  }

  // ----- When a header is accepted -----

  // The characters of the code chart from the exclamation mark to the tilde, but for the colon.
  ghost predicate GraphicName(name: string) {
    forall c | c in name :: '!' <= c <= '~' && c != ':'
  }

  lemma NamesAreGraphic(name: string)
    ensures ValidName(name) <==> GraphicName(name)
  {
    assert forall i | 0 <= i < |name| :: name[i] in name;
  }

  /**
   A header is accepted if and only if its name is made of graphic characters without a colon and there is memory: for
   the joined value and its copy when a value is added to a known name, for the copy when a value is replaced, and for
   a new pair otherwise. Each failure has its own code.
   */
  lemma StoreResult(c: Contents, p: Put)
    requires c.filter == NoFilter
    ensures var result, known := Store(c, p).1, p.name in AsMap(c.pairs);
            && (result == HeaderOk <==>
                  && GraphicName(p.name)
                  && if !known then RoomForPair(p.m) else p.m.newValue && (p.replace || p.joined))
            && (result == InvalidArg <==> !GraphicName(p.name))
            && (result == HeaderError <==> GraphicName(p.name) && known && !p.replace && p.joined && !p.m.newValue)
  {
    hide ValidName, GraphicName, Trim, AsMap;
    NamesAreGraphic(p.name);
    HasIs(c.pairs, p.name);
    assert Has(c.pairs, p.name) <==> p.name in AsMap(c.pairs);
  }

  // Additions under one name, with every allocation granted.
  ghost predicate Granted(name: string, adds: seq<Put>) {
    forall p | p in adds :: p.name == name && !p.replace && p.joined && p.m.newValue && RoomForPair(p.m)
  }

  lemma {:induction false} GrantedAreAdded(before: seq<Put>, name: string, adds: seq<Put>)
    requires GraphicName(name) && Granted(name, adds)
    ensures AllAdded(before, name, adds)
    decreases |adds|
  {
    if adds != [] {
      var front, last := adds[..|adds| - 1], adds[|adds| - 1];
      assert last in adds;
      GrantedAreAdded(before, name, front);
      StoredValue(before + front, name);
      hide Store, AsMap, GraphicName, Run;
      StoreResult(Run(before + front), last);
    }
  }

  /** With memory, values added one after the other under a new name of graphic characters are stored joined. */
  lemma GrantedValues(before: seq<Put>, name: string, adds: seq<Put>)
    requires Lookup(Run(before).pairs, name) == Null && adds != []
    requires GraphicName(name) && Granted(name, adds)
    ensures Lookup(Run(before + adds).pairs, name) == Str(Join(Trimmed(adds)))
  {
    hide Lookup, Run, Join, Trimmed, GraphicName, Granted;
    GrantedAreAdded(before, name, adds);
    AddedValues(before, name, adds);
  }

  /** Leading blanks, tabs and line ends are all that is left out of a value. */
  lemma {:induction false} TrimIs(blanks: string, text: string)
    requires forall c | c in blanks :: c in " \t\r\n"
    requires text == "" || text[0] !in " \t\r\n"
    ensures Trim(blanks + text) == text
  {
    if blanks == "" {
      assert blanks + text == text;
      assert text != "" ==> !IsBlank(text[0]);
    } else {
      assert blanks[0] in blanks && (blanks + text)[0] == blanks[0] && (blanks + text)[1..] == blanks[1..] + text;
      assert IsBlank(blanks[0]);
      TrimIs(blanks[1..], text);
    }
  }

  // ----- Lines -----

  function FirstColon(line: string): (i: nat)
    ensures i <= |line|
    ensures i < |line| ==> line[i] == ':'
    ensures forall j | 0 <= j < i :: line[j] != ':'
  {
    if line == "" || line[0] == ':' then 0 else 1 + FirstColon(line[1..])
  }

  /** The line of a header names it and gives its value unambiguously: the first colon ends the name. */
  lemma LineSplits(p: Pair)
    requires ValidName(p.key)
    ensures var i := FirstColon(Line(p)); Line(p)[..i] == p.key && i + 2 <= |Line(p)| && Line(p)[i + 2..] == p.value
  {
    var line := Line(p);
    assert line[|p.key|] == ':';
    assert forall j | 0 <= j < |p.key| :: line[j] == p.key[j] && NameChar(p.key[j]);
  }

  /** Only valid names are ever stored, each once. */
  lemma {:induction false} NamesAreValid(puts: seq<Put>)
    ensures var pairs := Run(puts).pairs;
            DistinctKeys(pairs) && Run(puts).filter == NoFilter && forall i | 0 <= i < |pairs| :: ValidName(pairs[i].key)
    decreases |puts|
  {
    hide ValidName, Trim;
    if puts != [] {
      var before, p := puts[..|puts| - 1], puts[|puts| - 1];
      NamesAreValid(before);
      var c := Run(before);
      StoreNames(c, p);
      hide Store, DistinctKeys;
    }
  }

  lemma StoreNames(c: Contents, p: Put)
    requires DistinctKeys(c.pairs) && c.filter == NoFilter && forall i | 0 <= i < |c.pairs| :: ValidName(c.pairs[i].key)
    ensures var d := Store(c, p).0;
            DistinctKeys(d.pairs) && d.filter == NoFilter && forall i | 0 <= i < |d.pairs| :: ValidName(d.pairs[i].key)
  {
    hide ValidName, Trim;
  }

  /** Headers set in any order, with any failures: what is found under a name is what was accepted for it, joined. */
  method Play(puts: seq<Put>, name: string) returns (count: nat, value: Slot)
    ensures count == |Run(puts).pairs| && value == Joined(Accepted(puts, name))
  {
    hide Store, Lookup;
    var headers := new Headers();
    for i := 0 to |puts|
      invariant headers.Valid() && fresh(headers.headers)
      invariant headers.headers.View() == Run(puts[..i])
    {
      assert puts[..i + 1][..i] == puts[..i];
      var p := puts[i];
      var _ := headers.ReplaceHeaderNameValuePair(p.name, p.value, p.replace, p.joined, p.m);
    }
    assert puts[..|puts|] == puts;
    count := headers.GetHeaderCount();
    value := headers.FindHeaderValue(name);
    StoredValue(puts, name);
  }
}
