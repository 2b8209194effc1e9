/** The circular intrusive list of doublylinkedlist.c, refined to sequences of entries. */
module DoublyLinkedList {
  class Entry {
    var flink: Entry?
    var blink: Entry?

    constructor ()
      ensures flink == null && blink == null
    {
      flink, blink := null, null;
    }
  }

  ghost predicate Distinct(s: seq<Entry>) {
    forall i, j | 0 <= i < j < |s| :: s[i] != s[j]
  }

  ghost predicate Linked(a: Entry, b: Entry)
    reads a, b
  {
    a.flink == b && b.blink == a
  }

  ghost predicate Chain(s: seq<Entry>)
    reads s
  {
    forall i | 0 < i < |s| :: Linked(s[i - 1], s[i])
  }

  ghost function Last(s: seq<Entry>): Entry
    requires s != []
  {
    s[|s| - 1]
  }

  // The entries of s, in this order, form one cycle, the same in both directions.
  ghost predicate Ring(s: seq<Entry>)
    reads s
  {
    s != [] && Distinct(s) && Chain(s) && Linked(Last(s), s[0])
  }

  // ----- Chains -----

  lemma ChainJoin(a: seq<Entry>, b: seq<Entry>)
    requires Chain(a) && Chain(b) && a != [] && b != [] && Linked(Last(a), b[0])
    ensures Chain(a + b)
  {
  }

  lemma ChainPart(s: seq<Entry>, i: nat, j: nat)
    requires Chain(s) && i <= j <= |s|
    ensures Chain(s[i..j])
  {
  }

  lemma DistinctJoin(a: seq<Entry>, b: seq<Entry>)
    requires Distinct(a) && Distinct(b) && forall e | e in a :: e !in b
    ensures Distinct(a + b)
  {
    forall i, j | 0 <= i < j < |a + b|
      ensures (a + b)[i] != (a + b)[j]
    {
      if i < |a| <= j {
        assert a[i] in a && b[j - |a|] in b;
      }
    }
  }

  // Only the two ends of a chain may be rewired without breaking it.
  twostate lemma ChainKept(s: seq<Entry>)
    requires old(Chain(s)) && Distinct(s) && s != []
    requires forall e | e in s && e != Last(s) :: e.flink == old(e.flink)
    requires forall e | e in s && e != s[0] :: e.blink == old(e.blink)
    ensures Chain(s)
  {
    forall i | 0 < i < |s|
      ensures Linked(s[i - 1], s[i])
    {
      assert old(Linked(s[i - 1], s[i]));
      assert s[i - 1] in s && s[i - 1] != Last(s) && s[i] in s && s[i] != s[0];
    }
  }

  // ----- The operations -----

  method InitializeListHead(head: Entry)
    modifies head
    ensures Ring([head])
  {
    head.blink := head;
    head.flink := head.blink;
  }

  method IsListEmpty(head: Entry, ghost s: seq<Entry>) returns (empty: bool)
    requires Ring(s) && s[0] == head
    ensures empty <==> s == [head]
  {
    empty := head.flink == head;
    if |s| > 1 {
      assert Linked(s[0], s[1]);
    }
  }

  /** The whole second ring, its head included, ends up after the last entry of the first. */
  method AppendTailList(head: Entry, listToAppend: Entry, ghost s: seq<Entry>, ghost t: seq<Entry>)
    requires Ring(s) && s[0] == head && Ring(t) && t[0] == listToAppend
    requires forall e | e in s :: e !in t
    modifies head`blink, Last(s)`flink, listToAppend`blink, Last(t)`flink
    ensures Ring(s + t)
  {
    assert head in s && Last(s) in s && listToAppend in t && Last(t) in t;
    var listEnd := head.blink;
    head.blink.flink := listToAppend;
    head.blink := listToAppend.blink;
    listToAppend.blink.flink := head;
    listToAppend.blink := listEnd;
    assert Linked(Last(s), t[0]) && Linked(Last(t), s[0]);
    ChainKept(s);
    ChainKept(t);
    hide Chain, Distinct;
    ChainJoin(s, t);
    DistinctJoin(s, t);
  }

  method InsertTailList(head: Entry, entry: Entry, ghost s: seq<Entry>)
    requires Ring(s) && s[0] == head && entry !in s
    modifies head`blink, Last(s)`flink, entry
    ensures Ring(s + [entry])
  {
    assert head in s && Last(s) in s;
    var blink := head.blink;
    entry.flink := head;
    entry.blink := blink;
    blink.flink := entry;
    head.blink := entry;
    assert Linked(Last(s), entry) && Linked(entry, s[0]);
    ChainKept(s);
    hide Chain;
    assert Chain([entry]) by {
      SingleChain(entry);
    }
    ChainJoin(s, [entry]);
    DistinctJoin(s, [entry]);
  }

  lemma SingleChain(e: Entry)
    ensures Chain([e])
  {
  }

  // The entry after the head, which is the head itself in an empty list.
  ghost function Second(s: seq<Entry>): Entry
    requires s != []
  {
    if |s| == 1 then s[0] else s[1]
  }

  method InsertHeadList(head: Entry, entry: Entry, ghost s: seq<Entry>)
    requires Ring(s) && s[0] == head && entry !in s
    modifies head`flink, Second(s)`blink, entry
    ensures Ring([head, entry] + s[1..])
  {
    assert head in s && Second(s) in s && Linked(head, Second(s));
    ChainPart(s, 1, |s|);
    entry.blink := head;
    entry.flink := head.flink;
    head.flink.blink := entry;
    head.flink := entry;
    assert Linked(head, entry) && Linked(entry, Second(s));
    assert Chain([head, entry]) && Distinct([head, entry]);
    if |s| == 1 {
      assert [head, entry] + s[1..] == [head, entry];
    } else {
      ChainKept(s[1..]);
      assert Last(s[1..]) == Last(s) == Last([head, entry] + s[1..]);
      hide Chain;
      ChainJoin([head, entry], s[1..]);
      DistinctJoin([head, entry], s[1..]);
    }
  }

  // What is left of a ring without its k-th entry, at least one other being there.
  function Without(s: seq<Entry>, k: nat): seq<Entry>
    requires k < |s|
  {
    s[..k] + s[k + 1..]
  }

  // The entries on either side of the k-th.
  ghost function Before(s: seq<Entry>, k: nat): Entry
    requires k < |s|
  {
    if k == 0 then Last(s) else s[k - 1]
  }

  ghost function After(s: seq<Entry>, k: nat): Entry
    requires k < |s|
  {
    if k == |s| - 1 then s[0] else s[k + 1]
  }

  lemma JoinRing(a: seq<Entry>, b: seq<Entry>)
    requires a != [] && b != [] && Chain(a) && Chain(b) && Linked(Last(a), b[0]) && Linked(Last(b), a[0])
    requires Distinct(a) && Distinct(b) && forall e | e in a :: e !in b
    ensures Ring(a + b)
  {
    hide Chain, Distinct;
    ChainJoin(a, b);
    DistinctJoin(a, b);
  }

  // All links of the ring that do not touch the k-th entry, and one from its predecessor to its successor.
  ghost predicate LinkedAround(s: seq<Entry>, k: nat)
    requires k < |s|
    reads s
  {
    && (forall i | 0 < i < |s| && i != k && i != k + 1 :: Linked(s[i - 1], s[i]))
    && Linked(Before(s, k), After(s, k))
    && (0 < k < |s| - 1 ==> Linked(Last(s), s[0]))
  }

  /** A ring with the two neighbours of one entry joined is a ring without that entry. */
  lemma WithoutRing(s: seq<Entry>, k: nat)
    requires k < |s| && |s| > 1 && Distinct(s) && LinkedAround(s, k)
    ensures Ring(Without(s, k))
  {
    var front, back := s[..k], s[k + 1..];
    assert Distinct(front) && Distinct(back) && Chain(front) && Chain(back);
    assert forall e | e in front :: e !in back;
    hide Chain, Distinct;
    if k == 0 {
      assert Without(s, k) == back && Last(back) == Last(s);
    } else if k == |s| - 1 {
      assert Without(s, k) == front;
    } else {
      assert Last(back) == Last(s);
      JoinRing(front, back);
    }
  }

  /** Any entry can be taken out of whatever ring holds it; the answer says whether at most one node remains. */
  method RemoveEntryList(entry: Entry, ghost s: seq<Entry>, ghost k: nat) returns (result: bool)
    requires Ring(s) && k < |s| && s[k] == entry
    modifies Before(s, k)`flink, After(s, k)`blink
    ensures |s| == 1 ==> Ring(s)
    ensures |s| > 1 ==> Ring(Without(s, k))
    ensures result <==> |s| <= 2
    ensures |s| > 1 ==> entry.flink == old(entry.flink) && entry.blink == old(entry.blink)
  {
    var flink := entry.flink;
    var blink := entry.blink;
    assert flink == After(s, k) && blink == Before(s, k) by {
      assert k > 0 ==> Linked(s[k - 1], s[k]);
      assert k < |s| - 1 ==> Linked(s[k], s[k + 1]);
    }
    blink.flink := flink;
    flink.blink := blink;
    result := flink == blink;
    if |s| > 1 {
      WithoutRing(s, k);
    }
  }

  /** The oldest entry leaves the list; the head itself is returned, and nothing changes, when it is alone. */
  method RemoveHeadList(head: Entry, ghost s: seq<Entry>) returns (entry: Entry)
    requires Ring(s) && s[0] == head
    modifies head`flink, After(s, if |s| == 1 then 0 else 1)`blink
    ensures |s| == 1 ==> entry == head && Ring(s)
    ensures |s| > 1 ==> entry == s[1] && Ring(Without(s, 1))
  {
    assert |s| > 1 ==> Linked(s[0], s[1]);
    assert |s| > 2 ==> Linked(s[1], s[2]);
    entry := head.flink;
    var flink := entry.flink;
    head.flink := flink;
    flink.blink := head;
    if |s| > 1 {
      WithoutRing(s, 1);
    }
  }

  /** The list a head stands for is unique: its links leave no choice of entries or order. */
  lemma RingIsUnique(s: seq<Entry>, t: seq<Entry>)
    requires Ring(s) && Ring(t) && s[0] == t[0]
    ensures s == t
  {
    if |s| <= |t| {
      SamePrefix(s, t, |s| - 1);
      LengthsAgree(s, t);
    } else {
      SamePrefix(t, s, |t| - 1);
      LengthsAgree(t, s);
    }
  }

  lemma {:induction false} SamePrefix(s: seq<Entry>, t: seq<Entry>, k: nat)
    requires Ring(s) && Ring(t) && s[0] == t[0] && k < |s| <= |t|
    ensures forall i | 0 <= i <= k :: s[i] == t[i]
  {
    if k > 0 {
      SamePrefix(s, t, k - 1);
      assert Linked(s[k - 1], s[k]) && Linked(t[k - 1], t[k]);
    }
  }

  lemma LengthsAgree(s: seq<Entry>, t: seq<Entry>)
    requires Ring(s) && Ring(t) && |s| <= |t|
    requires forall i | 0 <= i < |s| :: s[i] == t[i]
    ensures s == t
  {
  }

  /** Whatever entries go in at the tail come out at the head in the same order, and leave the list empty. */
  method FirstInFirstOut(head: Entry, entries: seq<Entry>) returns (out: seq<Entry>)
    requires Distinct([head] + entries)
    modifies head, entries
    ensures out == entries && Ring([head])
  {
    InsertAll(head, entries);
    out := RemoveAll(head, entries);
  }

  method InsertAll(head: Entry, entries: seq<Entry>)
    requires Distinct([head] + entries)
    modifies head, entries
    ensures Ring([head] + entries)
  {
    InitializeListHead(head);
    var i := 0;
    assert [head] + entries[..0] == [head];
    while i < |entries|
      invariant 0 <= i <= |entries| && Ring([head] + entries[..i])
    {
      ghost var s := [head] + entries[..i];
      assert entries[i] !in s by {
        assert ([head] + entries)[i + 1] == entries[i];
        assert forall j | 0 <= j < |s| :: s[j] == ([head] + entries)[j];
      }
      assert Last(s) == if i == 0 then head else entries[i - 1];
      hide Ring, Distinct;
      InsertTailList(head, entries[i], s);
      assert s + [entries[i]] == [head] + entries[..i + 1];
      i := i + 1;
    }
    assert entries[..i] == entries;
  }

  method RemoveAll(head: Entry, entries: seq<Entry>) returns (out: seq<Entry>)
    requires Ring([head] + entries)
    modifies head, entries
    ensures out == entries && Ring([head])
  {
    out := [];
    assert entries[|out|..] == entries;
    while true
      invariant |out| <= |entries| && out == entries[..|out|] && Ring([head] + entries[|out|..])
      decreases |entries| - |out|
    {
      ghost var s := [head] + entries[|out|..];
      var empty := IsListEmpty(head, s);
      if empty {
        break;
      }
      hide Ring;
      assert |s| > 1 && After(s, 1) == (if |s| == 2 then head else entries[|out| + 1]);
      var entry := RemoveHeadList(head, s);
      assert Without(s, 1) == [head] + entries[|out| + 1..];
      out := out + [entry];
    }
    assert [head] + entries[|out|..] == [head];
  }
}
