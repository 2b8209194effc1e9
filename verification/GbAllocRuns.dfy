/** What the tracker's figures say about the memory really held, over every run of requests. */
module GbAllocRuns {
  import opened AssocLists
  import opened GbAlloc
  import opened Lists
  import opened Words

  // ----- The C library's side -----

  // Memory handed out and not yet given back, by address.
  type Heap = map<nat, nat>

  // The memory held once the library calls made for a request have been answered.
  function Library(a: Accounts, live: Heap, op: Op): Heap {
    match op
    case Malloc(size, node, reply) => if node && reply != 0 then live[reply := size] else live
    case Calloc(nmemb, size, node, reply) => if node && reply != 0 then live[reply := nmemb * size] else live
    case Realloc(ptr, size, node, reply) =>
      if ptr == 0 then (if node && reply != 0 then live[reply := size] else live)
      else if IndexOf(a.blocks, ptr) < |a.blocks| && reply != 0 then (live - {ptr})[reply := size]
      else live
    case Free(ptr) => if IndexOf(a.blocks, ptr) < |a.blocks| then live - {ptr} else live
    case ResetMetrics => live
  }

  // The addresses a block takes up: at least its own.
  function Extent(size: nat): (n: nat)
    ensures n >= 1 && n >= size
  {
    if size == 0 then 1 else size
  }

  predicate Apart(p: nat, m: nat, q: nat, n: nat) {
    p + Extent(m) <= q || q + Extent(n) <= p
  }

  // A block of this size at p lies within the address space and overlaps no other.
  ghost predicate FreshAt(live: Heap, p: nat, size: nat) {
    && 0 < p && p + Extent(size) <= TWO_64
    && forall q | q in live :: Apart(p, size, q, live[q])
  }

  ghost predicate Sound(live: Heap) {
    && (forall p | p in live :: 0 < p && p + Extent(live[p]) <= TWO_64)
    && (forall p, q | p in live && q in live && p != q :: Apart(p, live[p], q, live[q]))
  }

  predicate Grants(a: Accounts, op: Op) {
    match op
    case Malloc(_, node, reply) => node && reply != 0
    case Calloc(_, _, node, reply) => node && reply != 0
    case Realloc(ptr, _, node, reply) => reply != 0 && if ptr == 0 then node else IndexOf(a.blocks, ptr) < |a.blocks|
    case _ => false
  }

  // What the library hands out is free; a block that is reallocated may keep, or overlap, its old place.
  ghost predicate Honest(a: Accounts, live: Heap, op: Op) {
    Grants(a, op) ==>
      match op
      case Malloc(size, _, reply) => FreshAt(live, reply, size)
      case Calloc(nmemb, size, _, reply) => FreshAt(live, reply, nmemb * size)
      case Realloc(ptr, size, _, reply) => FreshAt(live - {ptr}, reply, size)
      case _ => true
  }

  // ----- Whole runs -----

  // The bookkeeping an observer would do: the sum and the number of blocks tracked at the last reset, the highest
  // total reported since, the requests granted since, and the tracked blocks freed or reallocated since.
  datatype World = World(a: Accounts, live: Heap, base: nat, kept: nat, peak: nat, granted: nat, dropped: nat)

  function Sum(blocks: seq<Block>): nat {
    if blocks == [] then 0 else blocks[0].value + Sum(blocks[1..])
  }

  predicate Drops(a: Accounts, op: Op) {
    match op
    case Free(ptr) => IndexOf(a.blocks, ptr) < |a.blocks|
    case Realloc(ptr, _, _, reply) => ptr != 0 && IndexOf(a.blocks, ptr) < |a.blocks| && reply != 0
    case _ => false
  }

  function Step(w: World, op: Op): World {
    var a := Apply(w.a, op);
    var live := Library(w.a, w.live, op);
    if op == ResetMetrics then World(a, live, Sum(a.blocks), |a.blocks|, 0, 0, 0)
    else
      World(a, live, w.base, w.kept, Max(w.peak, a.total),
            w.granted + (if Grants(w.a, op) then 1 else 0), w.dropped + (if Drops(w.a, op) then 1 else 0))
  }

  // Just after gballoc_init, with whatever was allocated outside the tracker.
  function Start(outside: Heap): World {
    World(Accounts([], 0, 0, 0), outside, 0, 0, 0, 0, 0)
  }

  function Run(outside: Heap, ops: seq<Op>): World
    decreases |ops|
  {
    if ops == [] then Start(outside) else Step(Run(outside, ops[..|ops| - 1]), ops[|ops| - 1])
  }

  ghost predicate HonestRun(outside: Heap, ops: seq<Op>) {
    && Sound(outside)
    && forall i | 0 <= i < |ops| :: Honest(Run(outside, ops[..i]).a, Run(outside, ops[..i]).live, ops[i])
  }

  lemma HonestBefore(outside: Heap, ops: seq<Op>)
    requires HonestRun(outside, ops) && ops != []
    ensures HonestRun(outside, ops[..|ops| - 1])
    ensures var w := Run(outside, ops[..|ops| - 1]);
            Honest(w.a, w.live, ops[|ops| - 1]) && Run(outside, ops) == Step(w, ops[|ops| - 1])
  {
    hide Honest, Sound, Step;
    var before := ops[..|ops| - 1];
    assert forall i | 0 <= i < |before| :: before[..i] == ops[..i];
  }

  // ----- Tracked pointers -----

  /** The tracked blocks are exactly what the library holds beyond `outside`, each once and with its true size. */
  ghost predicate Tracks(blocks: seq<Block>, live: Heap, outside: Heap) {
    Held(blocks, live, outside) && forall p | p in live :: p in outside || IndexOf(blocks, p) < |blocks|
  }

  ghost predicate Held(blocks: seq<Block>, live: Heap, outside: Heap) {
    && (forall i, j | 0 <= i < j < |blocks| :: blocks[i].key != blocks[j].key)
    && (forall i | 0 <= i < |blocks| ::
          && blocks[i].key != 0 && blocks[i].key !in outside
          && blocks[i].key in live && live[blocks[i].key] == blocks[i].value)
    && (forall p | p in outside :: p in live && live[p] == outside[p])
  }

  lemma TrackKeeps(blocks: seq<Block>, live: Heap, outside: Heap, ptr: nat, size: nat)
    requires Tracks(blocks, live, outside) && ptr != 0 && ptr !in live
    ensures Tracks([Entry(ptr, size)] + blocks, live[ptr := size], outside)
  {
    var blocks' := [Entry(ptr, size)] + blocks;
    assert blocks'[0].key == ptr && blocks'[1..] == blocks;
    TrackHeld(blocks, live, outside, ptr, size);
    hide Held;
  }

  lemma TrackHeld(blocks: seq<Block>, live: Heap, outside: Heap, ptr: nat, size: nat)
    requires Held(blocks, live, outside) && ptr != 0 && ptr !in live
    ensures Held([Entry(ptr, size)] + blocks, live[ptr := size], outside)
  {
  }

  lemma RetrackKeeps(blocks: seq<Block>, live: Heap, outside: Heap, i: nat, ptr: nat, size: nat)
    requires Tracks(blocks, live, outside) && i < |blocks|
    requires ptr != 0 && (ptr !in live || ptr == blocks[i].key)
    ensures Tracks(blocks[i := Entry(ptr, size)], (live - {blocks[i].key})[ptr := size], outside)
  {
    RetrackHeld(blocks, live, outside, i, ptr, size);
    forall p | p in (live - {blocks[i].key})[ptr := size]
      ensures p in outside || IndexOf(blocks[i := Entry(ptr, size)], p) < |blocks|
    {
      RetrackCovers(blocks, live, outside, i, ptr, size, p);
    }
    hide IndexOf, Held;
  }

  lemma RetrackHeld(blocks: seq<Block>, live: Heap, outside: Heap, i: nat, ptr: nat, size: nat)
    requires Held(blocks, live, outside) && i < |blocks|
    requires ptr != 0 && (ptr !in live || ptr == blocks[i].key)
    ensures Held(blocks[i := Entry(ptr, size)], (live - {blocks[i].key})[ptr := size], outside)
  {
    assert forall j | 0 <= j < |blocks| && j != i :: blocks[j].key != blocks[i].key && blocks[j].key != ptr;
  }

  lemma RetrackCovers(blocks: seq<Block>, live: Heap, outside: Heap, i: nat, ptr: nat, size: nat, p: nat)
    requires Tracks(blocks, live, outside) && i < |blocks|
    requires p in (live - {blocks[i].key})[ptr := size]
    ensures p in outside || IndexOf(blocks[i := Entry(ptr, size)], p) < |blocks|
  {
    var blocks' := blocks[i := Entry(ptr, size)];
    if p == ptr {
      assert blocks'[i].key == p;
    } else if p !in outside {
      var j := IndexOf(blocks, p);
      assert j != i && blocks'[j].key == p;
    }
  }

  lemma UntrackKeeps(blocks: seq<Block>, live: Heap, outside: Heap, i: nat)
    requires Tracks(blocks, live, outside) && i < |blocks|
    ensures Tracks(Drop(blocks, i), live - {blocks[i].key}, outside)
  {
    var blocks', live' := Drop(blocks, i), live - {blocks[i].key};
    UntrackHeld(blocks, live, outside, i);
    forall p | p in live'
      ensures p in outside || IndexOf(blocks', p) < |blocks'|
    {
      if p !in outside {
        var j := IndexOf(blocks, p);
        assert j != i && blocks'[if j < i then j else j - 1].key == p;
      }
    }
  }

  lemma UntrackHeld(blocks: seq<Block>, live: Heap, outside: Heap, i: nat)
    requires Held(blocks, live, outside) && i < |blocks|
    ensures Held(Drop(blocks, i), live - {blocks[i].key}, outside)
  {
    DropAt(blocks, i);
  }

  lemma TracksStep(w: World, op: Op, outside: Heap)
    requires Tracks(w.a.blocks, w.live, outside) && Honest(w.a, w.live, op)
    ensures Tracks(Step(w, op).a.blocks, Step(w, op).live, outside)
  {
    hide Tracks, Sum, Wrap;
    var blocks := w.a.blocks;
    match op {
      case Malloc(size, node, reply) =>
        if node && reply != 0 {
          FreshIsNew(w.live, reply, size);
          TrackKeeps(blocks, w.live, outside, reply, size);
        }
      case Calloc(nmemb, size, node, reply) =>
        if node && reply != 0 {
          FreshIsNew(w.live, reply, nmemb * size);
          TrackKeeps(blocks, w.live, outside, reply, nmemb * size);
          WrapIsExact(nmemb * size);
        }
      case Realloc(ptr, size, node, reply) =>
        var i := IndexOf(blocks, ptr);
        if Grants(w.a, op) {
          FreshIsNew(w.live - {ptr}, reply, size);
        }
        if ptr == 0 && node && reply != 0 {
          TrackKeeps(blocks, w.live, outside, reply, size);
        } else if ptr != 0 && i < |blocks| && reply != 0 {
          RetrackKeeps(blocks, w.live, outside, i, reply, size);
        }
      case Free(ptr) =>
        var i := IndexOf(blocks, ptr);
        if i < |blocks| {
          UntrackKeeps(blocks, w.live, outside, i);
        }
      case ResetMetrics =>
    }
  }

  lemma FreshIsNew(live: Heap, p: nat, size: nat)
    requires FreshAt(live, p, size)
    ensures p != 0 && p !in live && size < TWO_64
  {
    assert p in live ==> Apart(p, size, p, live[p]);
  }

  lemma FreshKeepsSound(live: Heap, p: nat, size: nat)
    requires Sound(live) && FreshAt(live, p, size)
    ensures Sound(live[p := size])
  {
  }

  lemma LessIsSound(live: Heap, p: nat)
    requires Sound(live)
    ensures Sound(live - {p})
  {
  }

  lemma SoundStep(w: World, op: Op)
    requires Sound(w.live) && Honest(w.a, w.live, op)
    ensures Sound(Step(w, op).live)
  {
    hide Sound, FreshAt, Sum, Wrap, Apply;
    match op {
      case Malloc(size, _, reply) =>
        if Grants(w.a, op) {
          FreshKeepsSound(w.live, reply, size);
        }
      case Calloc(nmemb, size, _, reply) =>
        if Grants(w.a, op) {
          FreshKeepsSound(w.live, reply, nmemb * size);
        }
      case Realloc(ptr, size, _, reply) =>
        LessIsSound(w.live, ptr);
        if Grants(w.a, op) {
          FreshKeepsSound(w.live - {ptr}, reply, size);
          NullIsNot(w.live);
          assert 0 !in w.live ==> w.live - {0} == w.live;
        }
      case Free(ptr) =>
        LessIsSound(w.live, ptr);
      case ResetMetrics =>
    }
  }

  lemma NullIsNot(live: Heap)
    requires Sound(live)
    ensures 0 !in live
  {
  }

  /** In every run, the tracker's list is exactly the memory it is answerable for. */
  lemma {:induction false} RunTracks(outside: Heap, ops: seq<Op>)
    requires HonestRun(outside, ops)
    ensures var w := Run(outside, ops); Tracks(w.a.blocks, w.live, outside) && Sound(w.live)
    decreases |ops|
  {
    if ops == [] {
      NullIsNot(outside);
    } else {
      hide Tracks, Step, Honest, Sound;
      var before := ops[..|ops| - 1];
      HonestBefore(outside, ops);
      RunTracks(outside, before);
      TracksStep(Run(outside, before), ops[|ops| - 1], outside);
      SoundStep(Run(outside, before), ops[|ops| - 1]);
    }
  }

  // ----- Blocks of one address space -----

  function Range(p: int, n: nat): (r: set<int>)
    ensures forall x :: x in r <==> p <= x < p + n
    ensures |r| == n
  {
    if n == 0 then {} else Range(p, n - 1) + {p + n - 1}
  }

  // All addresses the blocks take up, and how many these are when no two blocks overlap.
  function Occupied(blocks: seq<Block>): set<int> {
    if blocks == [] then {} else Range(blocks[0].key, Extent(blocks[0].value)) + Occupied(blocks[1..])
  }

  function Extents(blocks: seq<Block>): nat {
    if blocks == [] then 0 else Extent(blocks[0].value) + Extents(blocks[1..])
  }

  ghost predicate Disjoint(blocks: seq<Block>) {
    forall i, j | 0 <= i < j < |blocks| :: Apart(blocks[i].key, blocks[i].value, blocks[j].key, blocks[j].value)
  }

  lemma {:induction false} OccupiedBy(blocks: seq<Block>, x: int) returns (i: nat)
    requires x in Occupied(blocks)
    ensures i < |blocks| && blocks[i].key <= x < blocks[i].key + Extent(blocks[i].value)
  {
    if x in Range(blocks[0].key, Extent(blocks[0].value)) {
      i := 0;
    } else {
      var j := OccupiedBy(blocks[1..], x);
      i := j + 1;
    }
  }

  lemma {:induction false} OccupiedSize(blocks: seq<Block>)
    requires Disjoint(blocks)
    ensures |Occupied(blocks)| == Extents(blocks)
  {
    if blocks != [] {
      var first, rest := Range(blocks[0].key, Extent(blocks[0].value)), Occupied(blocks[1..]);
      OccupiedSize(blocks[1..]);
      forall x | x in rest
        ensures x !in first
      {
        var i := OccupiedBy(blocks[1..], x);
        assert Apart(blocks[0].key, blocks[0].value, blocks[i + 1].key, blocks[i + 1].value);
      }
      assert first !! rest;
    }
  }

  lemma SubsetSize(a: set<int>, b: set<int>)
    requires a <= b
    ensures |a| <= |b|
  {
    assert b == a + (b - a);
  }

  lemma {:induction false} SumBelowExtents(blocks: seq<Block>)
    ensures Sum(blocks) <= Extents(blocks) && |blocks| <= Extents(blocks)
  {
    if blocks != [] {
      SumBelowExtents(blocks[1..]);
    }
  }

  /** Blocks of an honest library fit in the address space together: their sizes, and their number. */
  lemma TrackedFits(blocks: seq<Block>, live: Heap, outside: Heap)
    requires Tracks(blocks, live, outside) && Sound(live)
    ensures Sum(blocks) < TWO_64 && |blocks| < TWO_64
  {
    hide IndexOf, Occupied, Extents, Sum, Range;
    TrackedDisjoint(blocks, live, outside);
    OccupiedSize(blocks);
    SumBelowExtents(blocks);
    var space := Range(1, TWO_64 - 1);
    forall x | x in Occupied(blocks)
      ensures x in space
    {
      var i := OccupiedBy(blocks, x);
      assert blocks[i].key in live && live[blocks[i].key] == blocks[i].value;
    }
    SubsetSize(Occupied(blocks), space);
  }

  lemma TrackedDisjoint(blocks: seq<Block>, live: Heap, outside: Heap)
    requires Tracks(blocks, live, outside) && Sound(live)
    ensures Disjoint(blocks)
  {
    hide IndexOf;
    forall i, j | 0 <= i < j < |blocks|
      ensures Apart(blocks[i].key, blocks[i].value, blocks[j].key, blocks[j].value)
    {
      var p, q := blocks[i].key, blocks[j].key;
      assert p in live && q in live && live[p] == blocks[i].value && live[q] == blocks[j].value && p != q;
    }
  }

  /** So in every run the tracked sizes and their number fit in 64 bits, now and at the last reset. */
  lemma {:induction false} RunFits(outside: Heap, ops: seq<Op>)
    requires HonestRun(outside, ops)
    ensures var w := Run(outside, ops);
            Sum(w.a.blocks) < TWO_64 && |w.a.blocks| < TWO_64 && w.base < TWO_64 && w.kept < TWO_64
    decreases |ops|
  {
    RunTracks(outside, ops);
    var w := Run(outside, ops);
    TrackedFits(w.a.blocks, w.live, outside);
    if ops != [] {
      HonestBefore(outside, ops);
      RunFits(outside, ops[..|ops| - 1]);
      ResetFits(Run(outside, ops[..|ops| - 1]), ops[|ops| - 1]);
      hide Run, Step, Sum, Tracks, Sound;
    }
  }

  lemma ResetFits(w: World, op: Op)
    ensures var v := Step(w, op);
            if op == ResetMetrics then v.base == Sum(v.a.blocks) && v.kept == |v.a.blocks|
            else v.base == w.base && v.kept == w.kept
  {
    hide Apply, Library, Sum;
  }

  // ----- Totals -----

  lemma WrapIsExact(x: int)
    ensures 0 <= x < TWO_64 ==> Wrap(x) == x
  {
  }

  lemma WrapAdds(x: int, y: int)
    ensures Wrap(Wrap(x) + y) == Wrap(x + y)
  {
  }

  lemma {:induction false} SumUpdate(blocks: seq<Block>, i: nat, b: Block)
    requires i < |blocks|
    ensures Sum(blocks[i := b]) == Sum(blocks) - blocks[i].value + b.value
    decreases |blocks|
  {
    if i == 0 {
      assert blocks[i := b][1..] == blocks[1..];
    } else {
      assert blocks[i := b][1..] == blocks[1..][i - 1 := b];
      SumUpdate(blocks[1..], i - 1, b);
    }
  }

  lemma {:induction false} SumDrop(blocks: seq<Block>, i: nat)
    requires i < |blocks|
    ensures Sum(Drop(blocks, i)) == Sum(blocks) - blocks[i].value
    decreases |blocks|
  {
    if i == 0 {
      assert Drop(blocks, 0) == blocks[1..];
    } else {
      assert Drop(blocks, i) == [blocks[0]] + Drop(blocks[1..], i - 1);
      SumDrop(blocks[1..], i - 1);
    }
  }

  lemma SumTrack(blocks: seq<Block>, b: Block)
    ensures Sum([b] + blocks) == b.value + Sum(blocks)
  {
    assert ([b] + blocks)[1..] == blocks;
  }

  // What the total is once `base` was the sum at the last reset.
  predicate Totals(a: Accounts, base: int) {
    a.total == Wrap(Sum(a.blocks) - base)
  }

  lemma TrackTotals(a: Accounts, base: int, ptr: nat, size: nat)
    requires Totals(a, base)
    ensures Totals(Track(a, ptr, size), base)
  {
    hide Wrap;
    SumTrack(a.blocks, Entry(ptr, size));
    WrapAdds(Sum(a.blocks) - base, size);
  }

  lemma RetrackTotals(a: Accounts, base: int, i: nat, ptr: nat, size: nat)
    requires Totals(a, base) && i < |a.blocks|
    ensures Totals(Retrack(a, i, ptr, size), base)
  {
    hide Wrap;
    var s: int, freed: int := Sum(a.blocks) - base, a.blocks[i].value;
    SumUpdate(a.blocks, i, Entry(ptr, size));
    WrapAdds(s, 0 - freed);
    WrapAdds(s - freed, size);
  }

  lemma UntrackTotals(a: Accounts, base: int, i: nat)
    requires Totals(a, base) && i < |a.blocks|
    ensures Totals(Untrack(a, i), base)
  {
    hide Wrap;
    SumDrop(a.blocks, i);
    WrapAdds(Sum(a.blocks) - base, 0 - a.blocks[i].value);
  }

  lemma TotalStep(w: World, op: Op)
    requires Totals(w.a, w.base)
    ensures Totals(Step(w, op).a, Step(w, op).base)
  {
    var a := w.a;
    WrapIsExact(0);
    match op {
      case Malloc(size, _, reply) =>
        hide Totals, Track;
        TrackTotals(a, w.base, reply, size);
      case Calloc(nmemb, size, _, reply) =>
        hide Totals, Track;
        TrackTotals(a, w.base, reply, Wrap(nmemb * size));
      case Realloc(ptr, size, _, reply) =>
        hide Totals, Track, Retrack;
        TrackTotals(a, w.base, reply, size);
        var i := IndexOf(a.blocks, ptr);
        if i < |a.blocks| {
          RetrackTotals(a, w.base, i, reply, size);
        }
      case Free(ptr) =>
        hide Totals, Untrack;
        var i := IndexOf(a.blocks, ptr);
        if i < |a.blocks| {
          UntrackTotals(a, w.base, i);
        }
      case ResetMetrics =>
    }
  }

  /** In every run the total is the sum of the tracked sizes less that sum at the last reset, in 64 bits. */
  lemma {:induction false} RunTotal(outside: Heap, ops: seq<Op>)
    ensures var w := Run(outside, ops); Totals(w.a, w.base)
    decreases |ops|
  {
    if ops == [] {
      WrapIsExact(0);
    } else {
      RunTotal(outside, ops[..|ops| - 1]);
      hide Step;
      TotalStep(Run(outside, ops[..|ops| - 1]), ops[|ops| - 1]);
    }
  }

  /**
   The memory reported is the memory tracked if and only if nothing of any size was tracked at the last reset.
   */
  lemma TotalIsSum(outside: Heap, ops: seq<Op>)
    requires HonestRun(outside, ops)
    ensures var w := Run(outside, ops); w.a.total == Sum(w.a.blocks) <==> w.base == 0
  {
    hide Run, Sum, Wrap, HonestRun;
    var w := Run(outside, ops);
    RunFits(outside, ops);
    RunTotal(outside, ops);
    var d := Sum(w.a.blocks) - w.base;
    WrapIsExact(d);
    if d < 0 {
      WrapAdds(d, 0);
      WrapIsExact(d + TWO_64);
      WrapShift(d);
    }
  }

  lemma WrapShift(x: int)
    ensures Wrap(x + TWO_64) == Wrap(x)
  {
  }

  /** Freeing what was tracked before a reset makes the reported total wrap around, above the reported maximum. */
  lemma FreeAfterReset(p: nat, size: nat)
    requires p != 0 && 0 < size && p + size <= TWO_64
    ensures var ops := [Malloc(size, true, p), ResetMetrics, Free(p)];
            var w := Run(map[], ops);
            HonestRun(map[], ops) && w.a.blocks == [] && w.a.total == TWO_64 - size && w.a.max == 0
  {
    var ops := [Malloc(size, true, p), ResetMetrics, Free(p)];
    var m := ops[0];
    var w0 := Start(map[]);
    var w1, w2 := Step(w0, m), Step(Step(w0, m), ResetMetrics);
    assert ops[..0] == [] && ops[..1] == [m] && ops[..2] == [m, ResetMetrics] && ops[..3] == ops;
    assert [m][..0] == [] && [m, ResetMetrics][..1] == [m];
    assert Run(map[], [m]) == w1;
    assert Run(map[], [m, ResetMetrics]) == w2;
    assert w2.a.blocks == [Entry(p, size)] && IndexOf(w2.a.blocks, p) == 0;
    assert Run(map[], ops) == Step(w2, Free(p));
    assert Drop([Entry(p, size)], 0) == [];
    WrapShift(0 - size);
    WrapIsExact(TWO_64 - size);
  }

  // ----- Maximum and count -----

  ghost predicate NoReset(ops: seq<Op>) {
    forall i | 0 <= i < |ops| :: ops[i] != ResetMetrics
  }

  lemma MaxStep(w: World, op: Op)
    requires op != ResetMetrics && w.a.max == w.peak && w.a.total <= w.peak
    requires Step(w, op).a.total <= w.a.total || Grants(w.a, op)
    ensures Step(w, op).a.max == Step(w, op).peak && Step(w, op).a.total <= Step(w, op).peak
  {
    hide Wrap, Sum;
  }

  /** Without resets, the maximum is the highest total ever reported, and the total the sum of tracked sizes. */
  lemma {:induction false} RunMaximum(outside: Heap, ops: seq<Op>)
    requires NoReset(ops) && HonestRun(outside, ops)
    ensures var w := Run(outside, ops);
            w.base == 0 && w.a.total == Sum(w.a.blocks) && w.a.max == w.peak && w.a.total <= w.peak
    decreases |ops|
  {
    if ops == [] {
      WrapIsExact(0);
    } else {
      var before, op := ops[..|ops| - 1], ops[|ops| - 1];
      HonestBefore(outside, ops);
      RunMaximum(outside, before);
      RunTotal(outside, ops);
      RunFits(outside, ops);
      var w := Run(outside, before);
      hide Run, Sum, Wrap, HonestRun, Honest, Library;
      WrapIsExact(Sum(Step(w, op).a.blocks));
      if !Grants(w.a, op) {
        FreeShrinks(w.a, op);
      }
      MaxStep(w, op);
    }
  }

  lemma FreeShrinks(a: Accounts, op: Op)
    requires !Grants(a, op)
    ensures Sum(Apply(a, op).blocks) <= Sum(a.blocks)
  {
    if op.Free? && IndexOf(a.blocks, op.ptr) < |a.blocks| {
      SumDrop(a.blocks, IndexOf(a.blocks, op.ptr));
    }
  }

  /** The count is the number of requests granted since the last reset: releasing memory never lowers it. */
  lemma {:induction false} RunCount(outside: Heap, ops: seq<Op>)
    ensures var w := Run(outside, ops); w.a.count == Wrap(w.granted)
    decreases |ops|
  {
    if ops == [] {
      WrapIsExact(0);
    } else {
      RunCount(outside, ops[..|ops| - 1]);
      hide Step;
      CountStep(Run(outside, ops[..|ops| - 1]), ops[|ops| - 1]);
    }
  }

  lemma CountStep(w: World, op: Op)
    requires w.a.count == Wrap(w.granted)
    ensures Step(w, op).a.count == Wrap(Step(w, op).granted)
  {
    hide Wrap, Sum, Drop, Max;
    WrapAdds(w.granted, 1);
    WrapIsExact(0);
  }

  lemma {:induction false} RunBlocks(outside: Heap, ops: seq<Op>)
    ensures var w := Run(outside, ops); |w.a.blocks| + w.dropped == w.kept + w.granted
    decreases |ops|
  {
    if ops != [] {
      RunBlocks(outside, ops[..|ops| - 1]);
      hide Step;
      BlocksStep(Run(outside, ops[..|ops| - 1]), ops[|ops| - 1]);
    }
  }

  lemma BlocksStep(w: World, op: Op)
    requires |w.a.blocks| + w.dropped == w.kept + w.granted
    ensures var v := Step(w, op); |v.a.blocks| + v.dropped == v.kept + v.granted
  {
    hide Wrap, Sum, Drop, Max, Library;
  }

  lemma WrapsTo(n: nat, kept: nat, dropped: nat)
    requires n < TWO_64 && kept < TWO_64
    ensures Wrap(n + dropped - kept) == n <==> Wrap(dropped) == kept
  {
  }

  /**
   The count is the current number of blocks, as documented, if and only if as many tracked blocks have been freed or
   reallocated since the last reset as there were then, in 64 bits: otherwise it is too high or too low.
   */
  lemma CountIsCurrent(outside: Heap, ops: seq<Op>)
    requires HonestRun(outside, ops)
    ensures var w := Run(outside, ops); w.a.count == |w.a.blocks| <==> Wrap(w.dropped) == w.kept
  {
    hide Run, HonestRun, Wrap;
    var w := Run(outside, ops);
    RunCount(outside, ops);
    RunBlocks(outside, ops);
    RunFits(outside, ops);
    WrapsTo(|w.a.blocks|, w.kept, w.dropped);
  }

  /** One block allocated and freed: the count stays at one. */
  lemma CountAfterFree(p: nat, size: nat)
    requires p != 0 && p + Extent(size) <= TWO_64
    ensures var ops := [Malloc(size, true, p), Free(p)];
            var w := Run(map[], ops);
            HonestRun(map[], ops) && w.a.blocks == [] && w.a.count == 1
  {
    var m, f := Malloc(size, true, p), Free(p);
    var ops := [m, f];
    assert ops[..0] == [] && ops[..1] == [m] && [m][..0] == [];
    var w1 := Step(Start(map[]), m);
    assert Run(map[], [m]) == w1;
    assert w1.a.blocks == [Entry(p, size)] && IndexOf(w1.a.blocks, p) == 0;
    assert Run(map[], ops) == Step(w1, f);
    assert Drop([Entry(p, size)], 0) == [];
    WrapIsExact(1);
  }

  /** The module driven through any requests, from gballoc_init on, reports the figures of Run. */
  method Play(ghost outside: Heap, ops: seq<Op>) returns (count: nat, current: nat, maximum: nat)
    ensures var a := Run(outside, ops).a; count == a.count && current == a.total && maximum == a.max
  {
    hide Apply, Library, BlocksOf, ListOf, Sum, Grants, Drops;
    var tracker := new Tracker();
    for i := 0 to |ops|
      invariant tracker.Valid() && fresh(tracker.nodes)
      invariant tracker.State() == Run(outside, ops[..i]).a
    {
      assert ops[..i + 1][..i] == ops[..i];
      match ops[i] {
        case Malloc(size, node, reply) =>
          var _ := tracker.Malloc(size, node, reply);
        case Calloc(nmemb, size, node, reply) =>
          var _ := tracker.Calloc(nmemb, size, node, reply);
        case Realloc(ptr, size, node, reply) =>
          var _ := tracker.Realloc(ptr, size, node, reply);
        case Free(ptr) =>
          tracker.Free(ptr);
        case ResetMetrics =>
          tracker.Reset();
      }
    }
    assert ops[..|ops|] == ops;
    count := tracker.GetAllocationCount();
    current := tracker.GetCurrentMemoryUsed();
    maximum := tracker.GetMaximumMemoryUsed();
  }
}
