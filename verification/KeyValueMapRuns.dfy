/** The map over whole runs: a finite map with its keys in insertion order, and what becomes of the filter. */
module KeyValueMapRuns {
  import opened AssocLists
  import opened KeyValueMap
  import opened Lists

  datatype Op =
    | DoAdd(key: string, value: string, m: Memory)
    | DoAddOrUpdate(key: string, value: string, m: Memory)
    | DoDelete(key: string, m: Memory)

  function Apply(c: Contents, op: Op): (Contents, Result) {
    match op
    case DoAdd(key, value, m) => Add(c, key, value, m)
    case DoAddOrUpdate(key, value, m) => AddOrUpdate(c, key, value, m)
    case DoDelete(key, _) => Delete(c, key)
  }

  function Run(c: Contents, ops: seq<Op>): Contents
    decreases |ops|
  {
    if ops == [] then c else Apply(Run(c, ops[..|ops| - 1]), ops[|ops| - 1]).0
  }

  ghost predicate DistinctKeys(pairs: seq<Pair>) {
    forall i, j | 0 <= i < j < |pairs| :: pairs[i].key != pairs[j].key
  }

  function AsMap(pairs: seq<Pair>): map<string, string> {
    map p | p in pairs :: p.key := Value(pairs, p.key)
  }

  function Value(pairs: seq<Pair>, key: string): string {
    if Has(pairs, key) then pairs[IndexOf(pairs, key)].value else ""
  }

  lemma HasIs(pairs: seq<Pair>, key: string)
    ensures Has(pairs, key) <==> key in AsMap(pairs)
    ensures Has(pairs, key) ==> AsMap(pairs)[key] == pairs[IndexOf(pairs, key)].value
  {
    var i := IndexOf(pairs, key);
    if i < |pairs| {
      assert pairs[i] in pairs;
    }
  }

  // Two lists of pairs with the same lookups stand for the same map.
  lemma SameMap(pairs: seq<Pair>, m: map<string, string>)
    requires forall k :: k in m <==> Has(pairs, k)
    requires forall k | k in m :: m[k] == Value(pairs, k)
    ensures AsMap(pairs) == m
  {
    forall k
      ensures k in AsMap(pairs) <==> k in m
      ensures k in m ==> AsMap(pairs)[k] == m[k]
    {
      HasIs(pairs, k);
    }
  }

  lemma AppendIndex(pairs: seq<Pair>, p: Pair, key: string)
    requires !Has(pairs, p.key)
    ensures IndexOf(pairs + [p], key) ==
            if Has(pairs, key) then IndexOf(pairs, key) else if key == p.key then |pairs| else |pairs| + 1
  {
    var i := IndexOf(pairs, key);
    IndexIs(pairs + [p], key, if i < |pairs| then i else if key == p.key then |pairs| else |pairs| + 1);
  }

  lemma UpdateIndex(pairs: seq<Pair>, i: nat, p: Pair, key: string)
    requires i < |pairs| && pairs[i].key == p.key
    ensures IndexOf(pairs[i := p], key) == IndexOf(pairs, key)
  {
    IndexIs(pairs[i := p], key, IndexOf(pairs, key));
  }

  lemma DropIndex(pairs: seq<Pair>, i: nat, key: string)
    requires i < |pairs| && DistinctKeys(pairs)
    ensures IndexOf(Drop(pairs, i), key) ==
            var k := IndexOf(pairs, key); if key == pairs[i].key then |pairs| - 1 else if k < i then k else k - 1
    ensures key != pairs[i].key && Has(pairs, key) ==> Value(Drop(pairs, i), key) == Value(pairs, key)
  {
    var k := IndexOf(pairs, key);
    DropAt(pairs, i);
    assert k == i ==> key == pairs[i].key;
    IndexIs(Drop(pairs, i), key, if key == pairs[i].key then |pairs| - 1 else if k < i then k else k - 1);
  }

  lemma AppendIsUpdate(pairs: seq<Pair>, p: Pair)
    requires !Has(pairs, p.key)
    ensures AsMap(pairs + [p]) == AsMap(pairs)[p.key := p.value]
  {
    forall key
      ensures Has(pairs + [p], key) <==> key == p.key || key in AsMap(pairs)
      ensures key == p.key ==> Value(pairs + [p], key) == p.value
      ensures key != p.key && key in AsMap(pairs) ==> Value(pairs + [p], key) == AsMap(pairs)[key]
    {
      AppendIndex(pairs, p, key);
      HasIs(pairs, key);
    }
    SameMap(pairs + [p], AsMap(pairs)[p.key := p.value]);
  }

  lemma UpdateIsUpdate(pairs: seq<Pair>, p: Pair)
    requires Has(pairs, p.key)
    ensures AsMap(pairs[IndexOf(pairs, p.key) := p]) == AsMap(pairs)[p.key := p.value]
  {
    var pairs' := pairs[IndexOf(pairs, p.key) := p];
    forall key
      ensures Has(pairs', key) <==> key == p.key || key in AsMap(pairs)
      ensures key == p.key ==> Value(pairs', key) == p.value
      ensures key != p.key && key in AsMap(pairs) ==> Value(pairs', key) == AsMap(pairs)[key]
    {
      UpdateIndex(pairs, IndexOf(pairs, p.key), p, key);
      HasIs(pairs, key);
    }
    SameMap(pairs', AsMap(pairs)[p.key := p.value]);
  }

  lemma DropIsRemove(pairs: seq<Pair>, key: string)
    requires Has(pairs, key) && DistinctKeys(pairs)
    ensures AsMap(Drop(pairs, IndexOf(pairs, key))) == AsMap(pairs) - {key}
  {
    hide DistinctKeys, AsMap, Drop;
    var pairs' := Drop(pairs, IndexOf(pairs, key));
    forall k
      ensures Has(pairs', k) <==> k != key && k in AsMap(pairs)
      ensures k != key && k in AsMap(pairs) ==> Value(pairs', k) == AsMap(pairs)[k]
    {
      DropIndex(pairs, IndexOf(pairs, key), k);
      HasIs(pairs, k);
    }
    SameMap(pairs', AsMap(pairs) - {key});
  }

  // ----- What one call does -----

  // The effect of a successful call on the finite map, and on the order of the keys.
  ghost predicate Effect(before: Contents, op: Op, after: Contents) {
    match op
    case DoDelete(key, _) =>
      && AsMap(after.pairs) == AsMap(before.pairs) - {key}
      && Keys(after.pairs) == Without(Keys(before.pairs), key)
    case _ =>
      && AsMap(after.pairs) == AsMap(before.pairs)[op.key := op.value]
      && Keys(after.pairs) == if Has(before.pairs, op.key) then Keys(before.pairs) else Keys(before.pairs) + [op.key]
  }

  function Keys(pairs: seq<Pair>): (r: seq<string>)
    ensures |r| == |pairs|
  {
    seq(|pairs|, i requires 0 <= i < |pairs| => pairs[i].key)
  }

  function Without(keys: seq<string>, key: string): seq<string> {
    if keys == [] then []
    else if keys[0] == key then Without(keys[1..], key)
    else [keys[0]] + Without(keys[1..], key)
  }

  lemma {:induction false} WithoutAbsent(keys: seq<string>, key: string)
    requires key !in keys
    ensures Without(keys, key) == keys
  {
    if keys != [] {
      WithoutAbsent(keys[1..], key);
    }
  }

  lemma {:induction false} WithoutOne(keys: seq<string>, i: nat)
    requires i < |keys| && forall j | 0 <= j < |keys| && j != i :: keys[j] != keys[i]
    ensures Without(keys, keys[i]) == keys[..i] + keys[i + 1..]
  {
    if i == 0 {
      WithoutAbsent(keys[1..], keys[0]);
    } else {
      assert keys[1..][i - 1] == keys[i];
      WithoutOne(keys[1..], i - 1);
      assert keys[..i] + keys[i + 1..] == [keys[0]] + (keys[1..][..i - 1] + keys[1..][i..]);
    }
  }

  lemma DropKeys(pairs: seq<Pair>, i: nat)
    requires i < |pairs| && DistinctKeys(pairs)
    ensures Keys(Drop(pairs, i)) == Without(Keys(pairs), pairs[i].key) && DistinctKeys(Drop(pairs, i))
  {
    var keys := Keys(pairs);
    DropAt(pairs, i);
    WithoutOne(keys, i);
    hide Drop;
    assert Keys(Drop(pairs, i)) == keys[..i] + keys[i + 1..];
  }

  /**
   Every call keeps the keys distinct. When it succeeds it updates or removes its key in the finite map, new
   keys going last; when it fails, for whatever reason, all pairs are as before.
   */
  lemma StepIsMapOperation(c: Contents, op: Op)
    requires DistinctKeys(c.pairs)
    ensures var (d, result) := Apply(c, op);
            && DistinctKeys(d.pairs)
            && (if result == Ok then Effect(c, op, d) else d.pairs == c.pairs)
  {
    hide AsMap, DistinctKeys, Without, Drop;
    match op {
      case DoAdd(key, value, _) =>
        if !Has(c.pairs, key) {
          AppendStep(c.pairs, Entry(key, value));
        }
      case DoAddOrUpdate(key, value, _) =>
        if !Has(c.pairs, key) {
          AppendStep(c.pairs, Entry(key, value));
        } else {
          UpdateIsUpdate(c.pairs, Entry(key, value));
          UpdateKeys(c.pairs, IndexOf(c.pairs, key), Entry(key, value));
        }
      case DoDelete(key, _) =>
        if Has(c.pairs, key) {
          DropIsRemove(c.pairs, key);
          DropKeys(c.pairs, IndexOf(c.pairs, key));
        }
    }
  }

  lemma AppendStep(pairs: seq<Pair>, p: Pair)
    requires !Has(pairs, p.key) && DistinctKeys(pairs)
    ensures DistinctKeys(pairs + [p]) && Keys(pairs + [p]) == Keys(pairs) + [p.key]
    ensures AsMap(pairs + [p]) == AsMap(pairs)[p.key := p.value]
  {
    AppendIsUpdate(pairs, p);
  }

  lemma UpdateKeys(pairs: seq<Pair>, i: nat, p: Pair)
    requires i < |pairs| && pairs[i].key == p.key && DistinctKeys(pairs)
    ensures DistinctKeys(pairs[i := p]) && Keys(pairs[i := p]) == Keys(pairs)
  {
  }

  // The allocations a new pair needs.
  predicate RoomForPair(m: Memory) {
    m.keySlot && m.valueSlot && m.key && m.value
  }

  /**
   Which calls succeed, and what the others answer, in terms of the finite map: an addition if and only if the key is
   new, the pair is not refused and there is memory for it; an addition or update if and only if the pair is not
   refused and there is memory for the pair or for the new value; a deletion if and only if the key is there.
   */
  lemma ResultIs(c: Contents, op: Op)
    ensures var result, there := Apply(c, op).1, op.key in AsMap(c.pairs);
            match op
            case DoAdd(key, value, m) =>
              var refused := c.filter.Rejects? && c.filter.f(key, value);
              && (result == Ok <==> !there && !refused && RoomForPair(m))
              && (result == KeyExists <==> there)
              && (result == FilterReject <==> !there && refused)
              && result != KeyNotFound
            case DoAddOrUpdate(key, value, m) =>
              var refused := c.filter.Rejects? && c.filter.f(key, value);
              && (result == Ok <==> !refused && if there then m.newValue else RoomForPair(m))
              && (result == FilterReject <==> refused)
              && result != KeyExists && result != KeyNotFound
            case DoDelete(key, _) =>
              && (result == Ok <==> there)
              && (result == KeyNotFound <==> !there)
  {
    HasIs(c.pairs, op.key);
    hide AsMap;
  }

  /** The keys are distinct after every run. */
  lemma {:induction false} RunKeepsKeysDistinct(filter: Filter, ops: seq<Op>)
    ensures DistinctKeys(Run(Contents([], filter), ops).pairs)
    decreases |ops|
  {
    hide DistinctKeys, Apply, Effect;
    if ops == [] {
      NothingDistinct();
    } else {
      RunKeepsKeysDistinct(filter, ops[..|ops| - 1]);
      StepIsMapOperation(Run(Contents([], filter), ops[..|ops| - 1]), ops[|ops| - 1]);
    }
  }

  lemma NothingDistinct()
    ensures DistinctKeys([])
  {
  }

  // ----- The filter -----

  // The two ways to lose the filter: deleting the only key, and a first insertion that runs out of memory for
  // its strings after the arrays were allocated.
  predicate LosesFilter(c: Contents, op: Op) {
    match op
    case DoDelete(key, _) => |c.pairs| == 1 && c.pairs[0].key == key
    case _ =>
      && c.pairs == [] && !Rejected(c.filter, op.key, op.value)
      && op.m.keySlot && op.m.valueSlot && !(op.m.key && op.m.value)
  }

  lemma FilterStep(c: Contents, op: Op)
    ensures Apply(c, op).0.filter == if LosesFilter(c, op) then NoFilter else c.filter
  {
    if op.DoDelete? && |c.pairs| == 1 {
      assert IndexOf(c.pairs, op.key) == if c.pairs[0].key == op.key then 0 else 1;
    }
  }

  /** A map made with a filter still has it if and only if no call of the run was one of those that lose it. */
  lemma {:induction false} FilterSurvives(f: (string, string) -> bool, ops: seq<Op>)
    ensures var start := Contents([], Rejects(f));
            Run(start, ops).filter == Rejects(f) <==>
            forall i | 0 <= i < |ops| :: !LosesFilter(Run(start, ops[..i]), ops[i])
    ensures Run(Contents([], Rejects(f)), ops).filter in {Rejects(f), NoFilter}
    decreases |ops|
  {
    var start := Contents([], Rejects(f));
    if ops != [] {
      var before, op := ops[..|ops| - 1], ops[|ops| - 1];
      FilterSurvives(f, before);
      FilterStep(Run(start, before), op);
      hide Apply, LosesFilter;
      assert forall i | 0 <= i < |before| :: before[..i] == ops[..i] && before[i] == ops[i];
      if forall i | 0 <= i < |before| :: !LosesFilter(Run(start, before[..i]), before[i]) {
        assert forall i | 0 <= i < |ops| - 1 :: !LosesFilter(Run(start, ops[..i]), ops[i]);
      } else {
        var i :| 0 <= i < |before| && LosesFilter(Run(start, before[..i]), before[i]);
        assert LosesFilter(Run(start, ops[..i]), ops[i]);
      }
    }
  }

  // No pair that the filter refuses.
  ghost predicate AllAccepted(f: (string, string) -> bool, pairs: seq<Pair>) {
    forall i | 0 <= i < |pairs| :: !f(pairs[i].key, pairs[i].value)
  }

  /** As long as the filter is there, the map holds no pair it refuses. */
  lemma {:induction false} FilterHolds(f: (string, string) -> bool, ops: seq<Op>)
    ensures var c := Run(Contents([], Rejects(f)), ops); c.filter == Rejects(f) ==> AllAccepted(f, c.pairs)
    decreases |ops|
  {
    if ops != [] {
      var before, op := ops[..|ops| - 1], ops[|ops| - 1];
      FilterHolds(f, before);
      FilterSurvives(f, before);
      FilterStep(Run(Contents([], Rejects(f)), before), op);
      if Run(Contents([], Rejects(f)), before).filter == Rejects(f) {
        AcceptedStep(f, Run(Contents([], Rejects(f)), before), op);
      }
      hide Apply, AllAccepted, LosesFilter;
    }
  }

  lemma AcceptedStep(f: (string, string) -> bool, c: Contents, op: Op)
    requires c.filter == Rejects(f) && AllAccepted(f, c.pairs)
    ensures AllAccepted(f, Apply(c, op).0.pairs)
  {
    if op.DoDelete? && Has(c.pairs, op.key) {
      DropAt(c.pairs, IndexOf(c.pairs, op.key));
    }
  }

  /** A pair the filter refuses can get in: once a map has been emptied, its filter is gone. */
  lemma RefusedPairGetsIn(f: (string, string) -> bool, first: Pair, refused: Pair)
    requires !f(first.key, first.value) && f(refused.key, refused.value)
    ensures var m := Memory(true, true, true, true, true, true, true);
            var ops := [DoAdd(first.key, first.value, m), DoDelete(first.key, m), DoAdd(refused.key, refused.value, m)];
            Run(Contents([], Rejects(f)), ops).pairs == [refused]
  {
    var m := Memory(true, true, true, true, true, true, true);
    var start := Contents([], Rejects(f));
    var a, b, c := DoAdd(first.key, first.value, m), DoDelete(first.key, m), DoAdd(refused.key, refused.value, m);
    assert [a, b, c][..2] == [a, b] && [a, b][..1] == [a] && [a][..0] == [];
    assert Run(start, [a]) == Contents([first], Rejects(f));
    assert IndexOf([first], first.key) == 0 && Drop([first], 0) == [];
    assert Run(start, [a, b]) == Contents([], NoFilter);
    assert Run(start, [a, b, c]) == Contents([refused], NoFilter);
  }

  /** A map driven through any calls holds, under every key, what Run says. */
  method Play(filter: Filter, ops: seq<Op>, key: string) returns (value: Slot)
    ensures value == Lookup(Run(Contents([], filter), ops).pairs, key)
  {
    hide Add, AddOrUpdate, Delete, Lookup;
    ghost var start := Contents([], filter);
    var m := new Map(filter);
    for i := 0 to |ops|
      invariant m.Valid() && m.View() == Run(start, ops[..i]) && fresh(m)
    {
      assert ops[..i + 1][..i] == ops[..i];
      match ops[i] {
        case DoAdd(key, value, memory) =>
          var _ := m.MapAdd(key, value, memory);
        case DoAddOrUpdate(key, value, memory) =>
          var _ := m.MapAddOrUpdate(key, value, memory);
        case DoDelete(key, memory) =>
          var _ := m.MapDelete(key, memory);
      }
    }
    assert ops[..|ops|] == ops;
    value := m.GetValueFromKey(key);
  }
}
