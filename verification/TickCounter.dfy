/** The performance-counter clock of tickcounter_win32.c: every read carries over what it could not convert. */
module TickCounter {
  const MICRO := 1_000_000

  // The C operators, which round towards zero.
  function Quot(a: int, b: int): int
    requires b > 0
  {
    if a >= 0 then a / b else -((-a) / b)
  }

  function Rem(a: int, b: int): int
    requires b > 0
  {
    a - b * Quot(a, b)
  }

  // Microseconds accumulated so far, and the counter value up to which they account for the time passed.
  datatype Clock = Clock(acc: int, last: int)

  function Read(c: Clock, freq: int, counter: int): Clock
    requires freq > 0
  {
    var perf := (counter - c.last) * MICRO;
    Clock(c.acc + Quot(perf, freq), counter - Quot(Rem(perf, freq), MICRO))
  }

  class Instance {
    const freq: int
    var last: int
    var current: int   // microseconds, although the source calls them ms

    constructor (freq: int, counter: int)
      requires freq > 0
      ensures this.freq == freq && State() == Clock(0, counter)
    {
      this.freq := freq;
      last := counter;
      current := 0;
    }

    ghost function State(): Clock
      reads this
    {
      Clock(current, last)
    }

    // `available` tells whether the counter can be queried, `counter` what it then shows.
    method GetCurrentMs(available: bool, counter: int) returns (ok: bool, ms: int)
      requires freq > 0
      modifies this
      ensures ok == available
      ensures State() == if ok then Read(old(State()), freq, counter) else old(State())
      ensures ok ==> ms == Quot(State().acc, 1000)
    {
      if !available {
        return false, 0;
      }
      var perf := (counter - last) * MICRO;
      var remainder := Quot(Rem(perf, freq), MICRO);
      perf := Quot(perf, freq);
      current := current + perf;
      last := counter;
      last := last - remainder;
      ok, ms := true, Quot(current, 1000);
    }
  }

  // ----- Runs of reads -----

  function Reads(start: int, freq: int, counters: seq<int>): Clock
    requires freq > 0
    decreases |counters|
  {
    if counters == [] then Clock(0, start)
    else Read(Reads(start, freq, counters[..|counters| - 1]), freq, counters[|counters| - 1])
  }

  // The counter shown last, which never goes back.
  function Latest(start: int, counters: seq<int>): int {
    if counters == [] then start else counters[|counters| - 1]
  }

  ghost predicate NonDecreasing(start: int, counters: seq<int>) {
    && (forall i | 0 <= i < |counters| :: start <= counters[i])
    && (forall i, j | 0 <= i < j < |counters| :: counters[i] <= counters[j])
  }

  // What the clock lags behind a counter value, in millionths of a tick.
  function Lag(c: Clock, freq: int, start: int, counter: int): int {
    (counter - start) * MICRO - c.acc * freq
  }

  lemma Products(a: int, q: int, f: int)
    ensures (a + q) * f == a * f + q * f
  {
  }

  lemma DivMod(a: int, b: int)
    requires a >= 0 && b > 0
    ensures var q, r := Quot(a, b), Rem(a, b); q >= 0 && 0 <= r < b && a == q * b + r
  {
    assert a == (a / b) * b + a % b;
  }

  // A read loses less than one tick: up to the point it accounts for, the lag grows by less than a million.
  lemma ReadLag(c: Clock, freq: int, start: int, counter: int)
    requires freq > 0 && c.last <= counter
    ensures var d := Read(c, freq, counter);
            && c.acc <= d.acc && d.last <= counter
            && Lag(c, freq, start, c.last) <= Lag(d, freq, start, d.last) < Lag(c, freq, start, c.last) + MICRO
            && Lag(d, freq, start, counter) < Lag(d, freq, start, d.last) + freq
  {
    var d, perf := Read(c, freq, counter), (counter - c.last) * MICRO;
    DivMod(perf, freq);
    var q, r := Quot(perf, freq), Rem(perf, freq);
    DivMod(r, MICRO);
    var t := Quot(r, MICRO);
    Products(c.acc, q, freq);
    hide Quot, Rem;
    assert (d.last - start) * MICRO == (c.last - start) * MICRO + perf - t * MICRO;
  }

  /**
   The drift stays bounded however often the clock is read: after n reads the microseconds reported, times the
   frequency, fall short of the ticks elapsed, times a million, by less than n million plus the frequency.
   */
  lemma {:induction false} BoundedDrift(start: int, freq: int, counters: seq<int>)
    requires freq > 0 && NonDecreasing(start, counters)
    ensures var c, n := Reads(start, freq, counters), |counters|;
            && c.last <= Latest(start, counters)
            && 0 <= Lag(c, freq, start, c.last) <= n * (MICRO - 1)
            && 0 <= Lag(c, freq, start, Latest(start, counters)) < n * MICRO + freq
            && 0 <= (Latest(start, counters) - start) * 1_000_000 - c.acc * freq < n * 1_000_000 + freq
    decreases |counters|
  {
    if counters != [] {
      var before, counter := counters[..|counters| - 1], counters[|counters| - 1];
      BoundedDrift(start, freq, before);
      var c := Reads(start, freq, before);
      assert Latest(start, before) <= counter;
      ReadLag(c, freq, start, counter);
      var d := Reads(start, freq, counters);
      assert d == Read(c, freq, counter);
      hide Read, Reads;
      assert (d.last - start) * MICRO <= (counter - start) * MICRO;
    }
  }

  /** Later reads never report less. */
  lemma {:induction false} Monotone(start: int, freq: int, counters: seq<int>, k: nat)
    requires freq > 0 && NonDecreasing(start, counters) && k <= |counters|
    ensures 0 <= Reads(start, freq, counters[..k]).acc <= Reads(start, freq, counters).acc
    decreases |counters|
  {
    if k == |counters| {
      assert counters[..k] == counters;
    }
    if counters != [] {
      var before, counter := counters[..|counters| - 1], counters[|counters| - 1];
      BoundedDrift(start, freq, before);
      ReadLag(Reads(start, freq, before), freq, start, counter);
      Monotone(start, freq, before, if k < |counters| then k else k - 1);
      if k < |counters| {
        assert before[..k] == counters[..k];
      } else {
        assert before[..k - 1] == before;
      }
      hide Read;
    }
  }

  // What the read of counters[i] reports.
  function Shown(start: int, freq: int, counters: seq<int>, i: nat): int
    requires freq > 0 && i < |counters|
  {
    Quot(Reads(start, freq, counters[..i + 1]).acc, 1000)
  }

  lemma ShownInOrder(start: int, freq: int, counters: seq<int>, i: nat, j: nat)
    requires freq > 0 && NonDecreasing(start, counters) && i < j < |counters|
    ensures 0 <= Shown(start, freq, counters, i) <= Shown(start, freq, counters, j)
  {
    Monotone(start, freq, counters[..j + 1], i + 1);
    assert counters[..j + 1][..i + 1] == counters[..i + 1];
    hide Reads;
  }

  /** A clock read at counter values that never go back reports times that never go back. */
  method Play(start: int, freq: int, counters: seq<int>) returns (times: seq<int>)
    requires freq > 0
    ensures |times| == |counters|
    ensures forall i | 0 <= i < |times| :: times[i] == Shown(start, freq, counters, i)
    ensures NonDecreasing(start, counters) ==> forall i, j | 0 <= i < j < |times| :: times[i] <= times[j]
  {
    hide Read, Quot, NonDecreasing;
    var clock := new Instance(freq, start);
    times := [];
    for i := 0 to |counters|
      invariant clock.freq == freq && clock.State() == Reads(start, freq, counters[..i])
      invariant |times| == i && forall j | 0 <= j < i :: times[j] == Shown(start, freq, counters, j)
    {
      assert counters[..i + 1][..i] == counters[..i];
      var _, ms := clock.GetCurrentMs(true, counters[i]);
      times := times + [ms];
    }
    if NonDecreasing(start, counters) {
      forall i, j | 0 <= i < j < |times|
        ensures times[i] <= times[j]
      {
        ShownInOrder(start, freq, counters, i, j);
      }
    }
  }
}
