/** The map of map.c: two parallel arrays of strings that every insertion and removal reallocates. */
module KeyValueMap {
  import opened AssocLists
  import opened Lists

  // A callback that may refuse a pair.
  datatype Filter = NoFilter | Rejects(f: (string, string) -> bool)

  datatype Result = Ok | KeyExists | KeyNotFound | FilterReject | Error

  // Which of the allocations a call may need succeed: one more slot in each array, the two strings, the larger
  // value, and giving slots back.
  datatype Memory = Memory(keySlot: bool, valueSlot: bool, key: bool, value: bool, newValue: bool,
                           shrinkKeys: bool, shrinkValues: bool)

  // ----- The map as a list of pairs -----

  type Pair = Entry<string, string>

  datatype Contents = Contents(pairs: seq<Pair>, filter: Filter)

  predicate Has(pairs: seq<Pair>, key: string) {
    IndexOf(pairs, key) < |pairs|
  }

  predicate Rejected(filter: Filter, key: string, value: string) {
    filter.Rejects? && filter.f(key, value)
  }

  // An insertion that fails once both arrays have grown shrinks them again, and the only slot takes the filter with it.
  function Insert(c: Contents, key: string, value: string, m: Memory): (Contents, Result) {
    if !m.keySlot || !m.valueSlot then (c, Error)
    else if m.key && m.value then (c.(pairs := c.pairs + [Entry(key, value)]), Ok)
    else if c.pairs == [] then (c.(filter := NoFilter), Error)
    else (c, Error)
  }

  function Add(c: Contents, key: string, value: string, m: Memory): (Contents, Result) {
    if Has(c.pairs, key) then (c, KeyExists)
    else if Rejected(c.filter, key, value) then (c, FilterReject)
    else Insert(c, key, value, m)
  }

  function AddOrUpdate(c: Contents, key: string, value: string, m: Memory): (Contents, Result) {
    if Rejected(c.filter, key, value) then (c, FilterReject)
    else if !Has(c.pairs, key) then Insert(c, key, value, m)
    else if !m.newValue then (c, Error)
    else (c.(pairs := c.pairs[IndexOf(c.pairs, key) := Entry(key, value)]), Ok)
  }

  function Delete(c: Contents, key: string): (Contents, Result) {
    if !Has(c.pairs, key) then (c, KeyNotFound)
    else
      var pairs := Drop(c.pairs, IndexOf(c.pairs, key));
      (Contents(pairs, if pairs == [] then NoFilter else c.filter), Ok)
  }

  // ----- The arrays -----

  // A slot of an array of strings.
  datatype Slot = Null | Str(s: string)

  // The pairs in the first slots of the two arrays.
  ghost function PairsOf(keys: seq<Slot>, values: seq<Slot>, count: nat): (r: seq<Pair>)
    requires count <= |keys| && count <= |values|
    requires forall i | 0 <= i < count :: keys[i].Str? && values[i].Str?
    ensures |r| == count
  {
    seq(count, i requires 0 <= i < count => Entry(keys[i].s, values[i].s))
  }

  // The slots from i + 1 up to count moved down by one; the last of them keeps its old content too.
  function Moved(slots: seq<Slot>, i: nat, count: nat): (r: seq<Slot>)
    requires i < count <= |slots|
    ensures |r| == |slots|
    ensures forall j | 0 <= j < count - 1 :: r[j] == slots[if j < i then j else j + 1]
  {
    slots[..i] + slots[i + 1..count] + slots[count - 1..]
  }

  lemma MoveDown(keys: seq<Slot>, values: seq<Slot>, count: nat, i: nat)
    requires i < count <= |keys| && count <= |values|
    requires forall j | 0 <= j < count :: keys[j].Str? && values[j].Str?
    ensures var keys', values' := Moved(keys, i, count), Moved(values, i, count);
            && (forall j | 0 <= j < count - 1 :: keys'[j].Str? && values'[j].Str?)
            && PairsOf(keys', values', count - 1) == Drop(PairsOf(keys, values, count), i)
  {
    hide Moved;
    var pairs := PairsOf(keys, values, count);
    DropAt(pairs, i);
  }

  class Map {
    var keys: seq<Slot>
    var values: seq<Slot>
    var count: nat
    var filter: Filter

    // A failed attempt to give memory back may leave slots beyond the pairs.
    ghost predicate Valid()
      reads this
    {
      && count <= |keys| && count <= |values|
      && (forall i | 0 <= i < count :: keys[i].Str? && values[i].Str?)
    }

    ghost function View(): Contents
      requires Valid()
      reads this
    {
      Contents(PairsOf(keys, values, count), filter)
    }

    constructor (filter: Filter)
      ensures Valid() && View() == Contents([], filter)
    {
      keys, values, count := [], [], 0;
      this.filter := filter;
    }

    method IncreaseStorage(m: Memory) returns (ok: bool)
      requires Valid()
      modifies this
      ensures ok == (m.keySlot && m.valueSlot)
      ensures filter == old(filter)
      ensures if ok then
                && count == old(count) + 1 && |keys| == |values| == count
                && keys[..count - 1] == old(keys)[..count - 1] && values[..count - 1] == old(values)[..count - 1]
              else
                Valid() && View() == old(View())
    {
      if !m.keySlot {
        return false;
      }
      keys := keys[..count] + [Null];
      if !m.valueSlot {
        if count == 0 {
          keys := [];
        } else if m.shrinkKeys {
          keys := keys[..count];
        }
        assert PairsOf(keys, values, count) == old(PairsOf(keys, values, count));
        return false;
      }
      values := values[..count] + [Null];
      count := count + 1;
      ok := true;
    }

    // Only the slots that stay in use need to hold strings.
    method DecreaseStorage(m: Memory)
      requires 0 < count <= |keys| && count <= |values|
      requires forall i | 0 <= i < count - 1 :: keys[i].Str? && values[i].Str?
      modifies this
      ensures Valid() && count == old(count) - 1
      ensures View() == Contents(PairsOf(old(keys), old(values), count), if count == 0 then NoFilter else old(filter))
    {
      if count == 1 {
        keys := [];
        values := [];
        count := 0;
        filter := NoFilter;
      } else {
        if m.shrinkKeys {
          keys := keys[..count - 1];
        }
        if m.shrinkValues {
          values := values[..count - 1];
        }
        count := count - 1;
      }
      assert View().pairs == PairsOf(old(keys), old(values), count);
    }

    method FindKey(key: string) returns (i: nat)
      requires Valid()
      ensures i == IndexOf(View().pairs, key)
    {
      i := 0;
      while i < count && keys[i].s != key
        invariant i <= count && forall j | 0 <= j < i :: keys[j].s != key
      {
        i := i + 1;
      }
      IndexIs(View().pairs, key, i);
    }

    method InsertNewKeyValue(key: string, value: string, m: Memory) returns (ok: bool)
      requires Valid()
      modifies this
      ensures Valid()
      ensures (View(), if ok then Ok else Error) == Insert(old(View()), key, value, m)
    {
      ok := IncreaseStorage(m);
      if !ok {
        return;
      }
      assert PairsOf(keys, values, count - 1) == old(View()).pairs;
      if !m.key {
        DecreaseStorage(m);
        return false;
      }
      keys := keys[count - 1 := Str(key)];
      if !m.value {
        assert PairsOf(keys, values, count - 1) == old(View()).pairs;
        DecreaseStorage(m);
        return false;
      }
      values := values[count - 1 := Str(value)];
      assert PairsOf(keys, values, count) == old(View()).pairs + [Entry(key, value)];
    }

    method MapAdd(key: string, value: string, m: Memory) returns (result: Result)
      requires Valid()
      modifies this
      ensures Valid()
      ensures (View(), result) == Add(old(View()), key, value, m)
    {
      var i := FindKey(key);
      if i < count {
        result := KeyExists;
      } else if filter.Rejects? && filter.f(key, value) {
        result := FilterReject;
      } else {
        var ok := InsertNewKeyValue(key, value, m);
        result := if ok then Ok else Error;
      }
    }

    method MapAddOrUpdate(key: string, value: string, m: Memory) returns (result: Result)
      requires Valid()
      modifies this
      ensures Valid()
      ensures (View(), result) == AddOrUpdate(old(View()), key, value, m)
    {
      if filter.Rejects? && filter.f(key, value) {
        return FilterReject;
      }
      var i := FindKey(key);
      if i == count {
        var ok := InsertNewKeyValue(key, value, m);
        result := if ok then Ok else Error;
      } else if !m.newValue {
        result := Error;
      } else {
        values := values[i := Str(value)];
        assert View().pairs == old(View()).pairs[i := Entry(key, value)];
        result := Ok;
      }
    }

    // The entries after the deleted one move down by one.
    method MapDelete(key: string, m: Memory) returns (result: Result)
      requires Valid()
      modifies this
      ensures Valid()
      ensures (View(), result) == Delete(old(View()), key)
    {
      var i := FindKey(key);
      if i == count {
        return KeyNotFound;
      }
      MoveDown(keys, values, count, i);
      keys := Moved(keys, i, count);
      values := Moved(values, i, count);
      hide Moved, Drop, PairsOf;
      DecreaseStorage(m);
      result := Ok;
    }

    method GetValueFromKey(key: string) returns (value: Slot)
      requires Valid()
      ensures value == Lookup(View().pairs, key)
    {
      var i := FindKey(key);
      value := if i == count then Null else values[i];
    }

    // The copy of an empty map has no filter.
    method Clone(memory: bool) returns (copy: Map?)
      requires Valid()
      ensures copy == null <==> !memory
      ensures copy != null ==> fresh(copy) && copy.Valid()
      ensures copy != null ==> copy.View() == (if count == 0 then Contents([], NoFilter) else View())
    {
      if !memory {
        return null;
      }
      copy := new Map(NoFilter);
      if count > 0 {
        copy.filter := filter;
        copy.count := count;
        copy.keys := keys[..count];
        copy.values := values[..count];
        assert copy.View().pairs == View().pairs;
      }
    }
  }

  function Lookup(pairs: seq<Pair>, key: string): Slot {
    if Has(pairs, key) then Str(pairs[IndexOf(pairs, key)].value) else Null
  }
}
