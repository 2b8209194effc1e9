/** Whole runs of the tunnel: what its user sees over every interleaving of calls and callbacks. */
module ProxyRuns {
  import opened Lists
  import opened ProxyResponse
  import opened Wrappers
  import opened ProxyIo

  // ----- Counting -----

  predicate Accepts(io: Io, e: Event) {
    io.state == Closed && e == CallOpen(true)
  }

  // Opens that returned 0 in a run from io.
  function Opens(io: Io, es: seq<Event>): nat
    decreases |es|
  {
    if es == [] then 0
    else (if Accepts(io, es[0]) then 1 else 0) + Opens(Step(io, es[0]).0, es[1..])
  }

  function Completions(calls: seq<Call>): nat {
    if calls == [] then 0 else (if calls[0].OpenComplete? then 1 else 0) + Completions(calls[1..])
  }

  lemma {:induction false} CompletionsAppend(a: seq<Call>, b: seq<Call>)
    ensures Completions(a + b) == Completions(a) + Completions(b)
  {
    if a == [] {
      assert a + b == b;
    } else {
      assert (a + b)[1..] == a[1..] + b;
      CompletionsAppend(a[1..], b);
    }
  }

  // An open has been accepted and its completion not reported yet.
  function Pending(io: Io): nat {
    if io.state == OpeningUnderlyingIo || io.state == WaitingForConnectResponse then 1 else 0
  }

  // Memory for received bytes runs out while a whole header is already in the buffer.
  predicate ReportsTwice(io: Io, e: Event) {
    io.state == WaitingForConnectResponse && e.OnBytesReceived? && !e.gotMemory && HeaderLength(io.buffer).Some?
  }

  // Bytes that arrive while the response is awaited.
  lemma ReceiptBalance(io: Io, e: Event)
    requires io.state == WaitingForConnectResponse && e.OnBytesReceived?
    ensures var (io', calls) := Step(io, e);
            1 == Completions(calls) + Pending(io') - (if ReportsTwice(io, e) then 1 else 0)
  {
    hide HeaderLength, Decide, Completions;
    if e.gotMemory {
      DecideCompletes(io.(buffer := io.buffer + e.data));
    } else {
      var failed := Fail(io);
      DecideCompletes(failed.0);
      CompletionsAppend(failed.1, Decide(failed.0).1);
      CompletionsOfTwo(UnderlyingClose, OpenComplete(OpenError));
    }
  }

  // Every other event makes at most two calls.
  lemma OtherBalance(io: Io, e: Event)
    requires !(io.state == WaitingForConnectResponse && e.OnBytesReceived?)
    ensures var (io', calls) := Step(io, e);
            Pending(io) + (if Accepts(io, e) then 1 else 0) == Completions(calls) + Pending(io')
  {
    hide Decide, Completions;
    var calls := Step(io, e).1;
    if |calls| == 0 {
      NoCompletions();
    } else if |calls| == 1 {
      assert calls == [calls[0]];
      CompletionsOfOne(calls[0]);
    } else {
      assert calls == [calls[0], calls[1]];
      CompletionsOfTwo(calls[0], calls[1]);
    }
  }

  /** One step reports exactly the completions it owes, except in the one case, where it reports one too many. */
  lemma StepBalance(io: Io, e: Event)
    ensures var (io', calls) := Step(io, e);
            Pending(io) + (if Accepts(io, e) then 1 else 0)
            == Completions(calls) + Pending(io') - (if ReportsTwice(io, e) then 1 else 0)
  {
    hide HeaderLength, Step, Completions;
    if io.state == WaitingForConnectResponse && e.OnBytesReceived? {
      ReceiptBalance(io, e);
    } else {
      OtherBalance(io, e);
    }
  }

  lemma NoCompletions()
    ensures Completions([]) == 0
  {
  }

  lemma CompletionsOfOne(c: Call)
    ensures Completions([c]) == if c.OpenComplete? then 1 else 0
  {
    assert [c][1..] == [];
  }

  lemma CompletionsOfTwo(c: Call, d: Call)
    ensures Completions([c, d]) == (if c.OpenComplete? then 1 else 0) + (if d.OpenComplete? then 1 else 0)
  {
    assert [c, d][1..] == [d];
    CompletionsOfOne(d);
  }

  lemma DecideCompletes(io: Io)
    ensures Completions(Decide(io).1) == if HeaderLength(io.buffer).Some? then 1 else 0
    ensures HeaderLength(io.buffer).Some? ==> Pending(Decide(io).0) == 0
    ensures HeaderLength(io.buffer).None? ==> Decide(io) == (io, [])
  {
    hide HeaderLength, Status, CString;
    var calls := Decide(io).1;
    if |calls| == 1 {
      assert calls == [calls[0]];
      CompletionsOfOne(calls[0]);
    } else if |calls| == 2 {
      assert calls == [calls[0], calls[1]];
      CompletionsOfTwo(calls[0], calls[1]);
    }
  }

  // How often a run reports one open twice.
  function DoubleReports(io: Io, es: seq<Event>): nat
    decreases |es|
  {
    if es == [] then 0
    else (if ReportsTwice(io, es[0]) then 1 else 0) + DoubleReports(Step(io, es[0]).0, es[1..])
  }

  /**
   Over every run, so over each of its prefixes: every accepted open gets one on_io_open_complete, no later
   than the state leaves OPENING or WAITING, and one more for each double report.
   */
  lemma {:induction false} OpenCompletions(io: Io, es: seq<Event>)
    ensures var (io', calls) := Run(io, es);
            Completions(calls) + Pending(io') == Opens(io, es) + Pending(io) + DoubleReports(io, es)
    decreases |es|
  {
    hide ReportsTwice;
    if es != [] {
      StepBalance(io, es[0]);
      var (io', calls) := Step(io, es[0]);
      OpenCompletions(io', es[1..]);
      CompletionsAppend(calls, Run(io', es[1..]).1);
    }
  }

  /** With memory for every received byte, no run reports twice. */
  lemma {:induction false} NoDoubleReportWithMemory(io: Io, es: seq<Event>)
    requires forall e | e in es :: e.OnBytesReceived? ==> e.gotMemory
    ensures DoubleReports(io, es) == 0
    decreases |es|
  {
    if es != [] {
      assert es[0] in es;
      NoDoubleReportWithMemory(Step(io, es[0]).0, es[1..]);
    }
  }

  // Whether the buffer is still without a header, so that an open may be accepted safely.
  function Room(io: Io): nat {
    if HeaderLength(io.buffer).None? then 1 else 0
  }

  // Room for an open is taken up by that open only.
  predicate KeepsRoom(io: Io, e: Event) {
    var io' := Step(io, e).0;
    Room(io') - Pending(io') >= Room(io) - Pending(io) - (if Accepts(io, e) then 1 else 0)
  }

  lemma ReceiptKeepsRoom(io: Io, e: Event)
    requires io.state == WaitingForConnectResponse && e.OnBytesReceived? && HeaderLength(io.buffer).None?
    ensures KeepsRoom(io, e)
  {
    hide HeaderLength, Decide;
    var received := if e.gotMemory then io.(buffer := io.buffer + e.data) else Fail(io).0;
    DecideCompletes(received);
    DecideKeepsBuffer(received);
  }

  lemma OtherKeepsRoom(io: Io, e: Event)
    requires !(io.state == WaitingForConnectResponse && e.OnBytesReceived?)
    ensures KeepsRoom(io, e)
  {
    hide HeaderLength;
    assert Step(io, e).0.buffer == io.buffer;
  }

  lemma FirstOpenStep(io: Io, e: Event)
    requires Pending(io) <= Room(io)
    ensures !ReportsTwice(io, e) && KeepsRoom(io, e)
  {
    hide HeaderLength, KeepsRoom;
    if io.state == WaitingForConnectResponse && e.OnBytesReceived? {
      ReceiptKeepsRoom(io, e);
    } else {
      OtherKeepsRoom(io, e);
    }
  }

  lemma DecideKeepsBuffer(io: Io)
    ensures Decide(io).0.buffer == io.buffer
  {
  }

  /** Nor does the first open of an instance, whatever memory there is. */
  lemma {:induction false} NoDoubleReportOnFirstOpen(io: Io, es: seq<Event>)
    requires Opens(io, es) + Pending(io) <= Room(io)
    ensures DoubleReports(io, es) == 0
    decreases |es|
  {
    hide Room, ReportsTwice, Step;
    if es != [] {
      FirstOpenStep(io, es[0]);
      NoDoubleReportOnFirstOpen(Step(io, es[0]).0, es[1..]);
    }
  }

  // ----- The order of what the user sees -----

  // Whether the user may receive bytes: from IO_OPEN_OK until the next open or failure.
  predicate After(c: Call, before: bool) {
    match c
    case OpenComplete(r) => r == OpenOk
    case UnderlyingOpen => false
    case _ => before
  }

  predicate Delivering(calls: seq<Call>, before: bool) {
    if calls == [] then before else Delivering(calls[1..], After(calls[0], before))
  }

  ghost predicate InOrder(calls: seq<Call>, before: bool) {
    calls != [] ==>
      && (calls[0].BytesReceived? || calls[0].UnderlyingSend? ==> before)
      && InOrder(calls[1..], After(calls[0], before))
  }

  lemma {:induction false} InOrderAppend(a: seq<Call>, b: seq<Call>, before: bool)
    ensures Delivering(a + b, before) == Delivering(b, Delivering(a, before))
    ensures InOrder(a + b, before) <==> InOrder(a, before) && InOrder(b, Delivering(a, before))
  {
    if a == [] {
      assert a + b == b;
    } else {
      assert (a + b)[1..] == a[1..] + b;
      InOrderAppend(a[1..], b, After(a[0], before));
    }
  }

  // The monitor agrees with the state where it matters.
  predicate Agrees(io: Io, delivering: bool) {
    && (io.state == Open ==> delivering)
    && (Pending(io) == 1 ==> !delivering)
  }

  lemma OneOrTwo(c: Call, d: Call, before: bool)
    ensures Delivering([c], before) == After(c, before)
    ensures InOrder([c], before) <==> (c.BytesReceived? || c.UnderlyingSend? ==> before)
    ensures Delivering([c, d], before) == Delivering([d], After(c, before))
    ensures InOrder([c, d], before) <==> InOrder([c], before) && InOrder([d], After(c, before))
  {
    assert [c][1..] == [] && [c, d][1..] == [d];
  }

  lemma DecideInOrder(io: Io, before: bool)
    requires Agrees(io, before)
    ensures var (io', calls) := Decide(io);
            InOrder(calls, before) && Agrees(io', Delivering(calls, before))
  {
    hide HeaderLength, Status, CString;
    var calls := Decide(io).1;
    if |calls| == 1 {
      assert calls == [calls[0]];
      OneOrTwo(calls[0], calls[0], before);
    } else if |calls| == 2 {
      assert calls == [calls[0], calls[1]];
      OneOrTwo(calls[0], calls[1], before);
      OneOrTwo(calls[1], calls[1], true);
      OneOrTwo(calls[1], calls[1], before);
    }
  }

  lemma StepInOrder(io: Io, e: Event, before: bool)
    requires Agrees(io, before)
    ensures var (io', calls) := Step(io, e);
            InOrder(calls, before) && Agrees(io', Delivering(calls, before))
  {
    hide Decide, InOrder, Delivering;
    InOrderNothing(before);
    var calls := Step(io, e).1;
    var failed := Fail(io);
    FailInOrder(io, before);
    if io.state == WaitingForConnectResponse && e.OnBytesReceived? {
      if e.gotMemory {
        DecideInOrder(io.(buffer := io.buffer + e.data), before);
      } else {
        DecideInOrder(failed.0, false);
        InOrderAppend(failed.1, Decide(failed.0).1, before);
      }
    } else if |calls| == 1 {
      assert calls == [calls[0]];
      OneOrTwo(calls[0], calls[0], before);
    } else if |calls| == 2 {
      assert calls == [calls[0], calls[1]];
      OneOrTwo(calls[0], calls[1], before);
      OneOrTwo(calls[1], calls[1], before);
    }
  }

  lemma FailInOrder(io: Io, before: bool)
    ensures InOrder(Fail(io).1, before) && !Delivering(Fail(io).1, before)
  {
    OneOrTwo(UnderlyingClose, OpenComplete(OpenError), before);
    OneOrTwo(OpenComplete(OpenError), OpenComplete(OpenError), before);
  }

  lemma InOrderNothing(before: bool)
    ensures InOrder([], before) && Delivering([], before) == before
  {
  }

  /**
   Over every run, and whatever memory there is: no byte reaches the user, and no byte of the user reaches
   the underlying IO, other than after IO_OPEN_OK of the latest open.
   */
  lemma {:induction false} BytesOnlyWhenOpen(io: Io, es: seq<Event>, before: bool)
    requires Agrees(io, before)
    ensures var (io', calls) := Run(io, es);
            InOrder(calls, before) && Agrees(io', Delivering(calls, before))
    decreases |es|
  {
    hide Step;
    if es != [] {
      StepInOrder(io, es[0], before);
      var (io', calls) := Step(io, es[0]);
      BytesOnlyWhenOpen(io', es[1..], Delivering(calls, before));
      InOrderAppend(calls, Run(io', es[1..]).1, before);
    }
  }

  // ----- The sending direction -----

  // The bytes handed to the underlying IO.
  function Sent(calls: seq<Call>): string {
    if calls == [] then "" else (if calls[0].UnderlyingSend? then calls[0].bytes else "") + Sent(calls[1..])
  }

  // The bytes the user sends while the tunnel is open.
  function Offered(io: Io, es: seq<Event>): string
    decreases |es|
  {
    if es == [] then ""
    else (if io.state == Open && es[0].CallSend? then es[0].data else "") + Offered(Step(io, es[0]).0, es[1..])
  }

  lemma {:induction false} SentAppend(a: seq<Call>, b: seq<Call>)
    ensures Sent(a + b) == Sent(a) + Sent(b)
  {
    if a == [] {
      assert a + b == b;
    } else {
      assert (a + b)[1..] == a[1..] + b;
      SentAppend(a[1..], b);
      Reassociate(if a[0].UnderlyingSend? then a[0].bytes else "", Sent(a[1..]), Sent(b));
    }
  }

  lemma {:induction false} NothingSent(calls: seq<Call>)
    requires forall c | c in calls :: !c.UnderlyingSend?
    ensures Sent(calls) == ""
  {
    if calls != [] {
      assert calls[0] in calls;
      NothingSent(calls[1..]);
    }
  }

  lemma StepSends(io: Io, e: Event)
    ensures Sent(Step(io, e).1) == if io.state == Open && e.CallSend? then e.data else ""
    ensures e.CallSend? ==> Step(io, e).0 == io
  {
    hide HeaderLength, Status, CString, Sent;
    var calls := Step(io, e).1;
    if io.state == Open && e.CallSend? && e.data != "" {
      SentOne(e.data);
    } else {
      NothingSent(calls);
    }
  }

  lemma SentOne(data: string)
    ensures Sent([UnderlyingSend(data)]) == data
  {
    assert [UnderlyingSend(data)][1..] == [] && data + "" == data;
  }

  /**
   Over every run the underlying IO is given exactly the bytes the user sent while the tunnel was open, in order:
   nothing is lost, added or held back.
   */
  lemma {:induction false} SendsTransparently(io: Io, es: seq<Event>)
    ensures Sent(Run(io, es).1) == Offered(io, es)
    decreases |es|
  {
    hide Step;
    if es != [] {
      var (io', calls) := Step(io, es[0]);
      StepSends(io, es[0]);
      SendsTransparently(io', es[1..]);
      SentAppend(calls, Run(io', es[1..]).1);
    }
  }

  // ----- What is reported, and why -----

  // The open is cancelled by its user, or by the underlying IO.
  predicate Cancels(io: Io, e: Event) {
    || (Pending(io) == 1 && e.CallClose?)
    || (io.state == OpeningUnderlyingIo && e.OnOpenComplete? && e.result == OpenCancelled)
  }

  // The connection breaks under the open tunnel, or the underlying IO reports an open nobody waits for.
  predicate Breaks(io: Io, e: Event) {
    || (io.state == Open && e == OnError)
    || ((io.state == Open || io.state == Closing) && e.OnOpenComplete?)
  }

  // A close that will be reported is accepted.
  predicate ClosesWithCallback(io: Io, e: Event) {
    (io.state == Open || io.state == Error) && e == CallClose(true, true)
  }

  function CloseOwed(io: Io): nat {
    if io.state == Closing && io.closeCallback then 1 else 0
  }

  // How many events of a run meet a state in which they are such a cause.
  ghost function Met(io: Io, es: seq<Event>, cause: (Io, Event) -> bool): nat
    decreases |es|
  {
    if es == [] then 0 else (if cause(io, es[0]) then 1 else 0) + Met(Step(io, es[0]).0, es[1..], cause)
  }

  function Count(calls: seq<Call>, c: Call): nat {
    if calls == [] then 0 else (if calls[0] == c then 1 else 0) + Count(calls[1..], c)
  }

  lemma {:induction false} CountAppend(a: seq<Call>, b: seq<Call>, c: Call)
    ensures Count(a + b, c) == Count(a, c) + Count(b, c)
  {
    if a == [] {
      assert a + b == b;
    } else {
      assert (a + b)[1..] == a[1..] + b;
      CountAppend(a[1..], b, c);
    }
  }

  function AmongTwo(calls: seq<Call>, c: Call): nat {
    (if |calls| > 0 && calls[0] == c then 1 else 0) + (if |calls| > 1 && calls[1] == c then 1 else 0)
  }

  lemma SmallCount(calls: seq<Call>, c: Call)
    requires |calls| <= 2
    ensures Count(calls, c) == AmongTwo(calls, c)
  {
    assert |calls| == 2 ==> calls[1..] == [calls[1]] && calls[1..][1..] == [];
  }

  // The cancellations, errors and completed closes among the calls.
  ghost predicate Tells(calls: seq<Call>, cancelled: nat, errors: nat, closes: nat) {
    && Count(calls, OpenComplete(OpenCancelled)) == cancelled
    && Count(calls, IoError) == errors
    && Count(calls, CloseComplete) == closes
  }

  lemma SmallCounts(calls: seq<Call>)
    requires |calls| <= 2
    ensures forall c :: Count(calls, c) == AmongTwo(calls, c)
  {
    forall c
      ensures Count(calls, c) == AmongTwo(calls, c)
    {
      SmallCount(calls, c);
    }
  }

  lemma DecideReports(io: Io)
    ensures Tells(Decide(io).1, 0, 0, 0) && Decide(io).0.state in {io.state, Open, Closed}
  {
    hide HeaderLength, Status, CString, Success, Count;
    SmallCounts(Decide(io).1);
  }

  ghost predicate ReportsAsCaused(io: Io, e: Event) {
    var (io', calls) := Step(io, e);
    && CloseOwed(io) + (if ClosesWithCallback(io, e) then 1 else 0) >= CloseOwed(io')
    && Tells(calls, if Cancels(io, e) then 1 else 0, if Breaks(io, e) then 1 else 0,
             CloseOwed(io) + (if ClosesWithCallback(io, e) then 1 else 0) - CloseOwed(io'))
  }

  lemma ReceiptReports(io: Io, e: Event)
    requires io.state == WaitingForConnectResponse && e.OnBytesReceived?
    ensures ReportsAsCaused(io, e)
  {
    hide Decide, Count, HeaderLength;
    DecideReports(io.(buffer := io.buffer + e.data));
    DecideReports(Fail(io).0);
    SmallCounts(Fail(io).1);
    var more := Decide(Fail(io).0).1;
    CountAppend(Fail(io).1, more, OpenComplete(OpenCancelled));
    CountAppend(Fail(io).1, more, IoError);
    CountAppend(Fail(io).1, more, CloseComplete);
  }

  lemma OtherReports(io: Io, e: Event)
    requires !(io.state == WaitingForConnectResponse && e.OnBytesReceived?)
    ensures ReportsAsCaused(io, e)
  {
    hide Decide, Count;
    SmallCounts(Step(io, e).1);
  }

  lemma StepReports(io: Io, e: Event)
    ensures ReportsAsCaused(io, e)
  {
    hide ReportsAsCaused;
    if io.state == WaitingForConnectResponse && e.OnBytesReceived? {
      ReceiptReports(io, e);
    } else {
      OtherReports(io, e);
    }
  }

  /**
   Over every run: an open is reported cancelled exactly as often as its user closes it or the underlying open is
   cancelled; an error is reported exactly as often as the open tunnel breaks or an unexpected open completes; and
   every close accepted with a callback is reported once, when the underlying IO has closed.
   */
  lemma {:induction false} Reports(io: Io, es: seq<Event>)
    ensures var (io', calls) := Run(io, es);
            && Count(calls, OpenComplete(OpenCancelled)) == Met(io, es, Cancels)
            && Count(calls, IoError) == Met(io, es, Breaks)
            && Count(calls, CloseComplete) + CloseOwed(io') == CloseOwed(io) + Met(io, es, ClosesWithCallback)
    decreases |es|
  {
    hide Step, Cancels, Breaks, ClosesWithCallback, CloseOwed;
    if es != [] {
      StepReports(io, es[0]);
      var (next, calls) := Step(io, es[0]);
      Reports(next, es[1..]);
      var more := Run(next, es[1..]).1;
      CountAppend(calls, more, OpenComplete(OpenCancelled));
      CountAppend(calls, more, IoError);
      CountAppend(calls, more, CloseComplete);
    }
  }

  // ----- The underlying IO -----

  // Whether the underlying IO has been opened since it was last closed.
  predicate Holds(calls: seq<Call>, before: bool) {
    if calls == [] then before
    else Holds(calls[1..], if calls[0] == UnderlyingOpen then true else if calls[0] == UnderlyingClose then false else before)
  }

  lemma {:induction false} HoldsAppend(a: seq<Call>, b: seq<Call>, before: bool)
    ensures Holds(a + b, before) == Holds(b, Holds(a, before))
  {
    if a == [] {
      assert a + b == b;
    } else {
      assert (a + b)[1..] == a[1..] + b;
      HoldsAppend(a[1..], b, if a[0] == UnderlyingOpen then true else if a[0] == UnderlyingClose then false else before);
    }
  }

  predicate HoldsAsNeeded(io: Io, held: bool) {
    && (io.state == Closed || io.state == Closing ==> !held)
    && (Pending(io) == 1 ==> held)
  }

  lemma HoldsSmall(calls: seq<Call>, before: bool)
    requires |calls| <= 2
    ensures Holds(calls, before) ==
            var first := if |calls| == 0 then before else calls[0] == UnderlyingOpen || (calls[0] != UnderlyingClose && before);
            if |calls| < 2 then first else calls[1] == UnderlyingOpen || (calls[1] != UnderlyingClose && first)
  {
    assert |calls| == 2 ==> calls[1..] == [calls[1]] && calls[1..][1..] == [];
  }

  lemma DecideHolds(io: Io, held: bool)
    requires io.state == Closed ==> !held
    requires io.state == WaitingForConnectResponse ==> held
    requires io.state == Closed || io.state == WaitingForConnectResponse
    ensures var (io', calls) := Decide(io); HoldsAsNeeded(io', Holds(calls, held))
  {
    hide HeaderLength, Status, CString, Success, Holds;
    HoldsSmall(Decide(io).1, held);
  }

  lemma StepHolds(io: Io, e: Event, held: bool)
    requires HoldsAsNeeded(io, held)
    ensures var (io', calls) := Step(io, e); HoldsAsNeeded(io', Holds(calls, held))
  {
    hide Decide, Holds;
    var calls, failed := Step(io, e).1, Fail(io);
    HoldsSmall(failed.1, held);
    if io.state == WaitingForConnectResponse && e.OnBytesReceived? {
      if e.gotMemory {
        DecideHolds(io.(buffer := io.buffer + e.data), held);
      } else {
        DecideHolds(failed.0, false);
        HoldsAppend(failed.1, Decide(failed.0).1, held);
      }
    } else {
      HoldsSmall(calls, held);
    }
  }

  /**
   Over every run: the underlying IO has been opened, and not closed since, whenever an open is pending, and it has
   been closed whenever the instance is closed or closing.
   */
  lemma {:induction false} UnderlyingIsClosed(io: Io, es: seq<Event>, held: bool)
    requires HoldsAsNeeded(io, held)
    ensures var (io', calls) := Run(io, es); HoldsAsNeeded(io', Holds(calls, held))
    decreases |es|
  {
    hide Step, HoldsAsNeeded, Holds;
    if es == [] {
      HoldsSmall([], held);
    } else {
      StepHolds(io, es[0], held);
      var (io', calls) := Step(io, es[0]);
      UnderlyingIsClosed(io', es[1..], Holds(calls, held));
      HoldsAppend(calls, Run(io', es[1..]).1, held);
    }
  }

  // The underlying IO is open and its CONNECT request can be sent.
  predicate Requests(io: Io, e: Event) {
    io.state == OpeningUnderlyingIo && e == OnOpenComplete(OpenOk, true)
  }

  lemma DecideAsksNothing(io: Io)
    ensures Count(Decide(io).1, SendConnect) == Count(Decide(io).1, UnderlyingOpen) == 0
  {
    hide HeaderLength, Status, CString, Success, Count;
    SmallCounts(Decide(io).1);
  }

  lemma StepAsks(io: Io, e: Event)
    ensures var calls := Step(io, e).1;
            && Count(calls, SendConnect) == (if Requests(io, e) then 1 else 0)
            && Count(calls, UnderlyingOpen) == (if Accepts(io, e) then 1 else 0)
  {
    hide Decide, Count;
    var calls, failed := Step(io, e).1, Fail(io);
    SmallCounts(failed.1);
    if io.state == WaitingForConnectResponse && e.OnBytesReceived? {
      DecideAsksNothing(io.(buffer := io.buffer + e.data));
      DecideAsksNothing(failed.0);
      CountAppend(failed.1, Decide(failed.0).1, SendConnect);
      CountAppend(failed.1, Decide(failed.0).1, UnderlyingOpen);
    } else {
      SmallCounts(calls);
    }
  }

  /** Over every run each accepted open opens the underlying IO once, and each time that is open, one request is sent. */
  lemma {:induction false} RequestsOnce(io: Io, es: seq<Event>)
    ensures var calls := Run(io, es).1;
            Count(calls, SendConnect) == Met(io, es, Requests) && Count(calls, UnderlyingOpen) == Opens(io, es)
    decreases |es|
  {
    hide Step, Requests, Accepts;
    if es != [] {
      StepAsks(io, es[0]);
      var (next, calls) := Step(io, es[0]);
      RequestsOnce(next, es[1..]);
      var more := Run(next, es[1..]).1;
      CountAppend(calls, more, SendConnect);
      CountAppend(calls, more, UnderlyingOpen);
    }
  }

  // ----- The tunnel -----

  function Receipts(fragments: seq<string>): (es: seq<Event>)
    ensures |es| == |fragments|
  {
    if fragments == [] then [] else [OnBytesReceived(fragments[0], true)] + Receipts(fragments[1..])
  }

  // The payload handed to the user, and the results of its opens.
  function Delivered(calls: seq<Call>): string {
    if calls == [] then "" else (if calls[0].BytesReceived? then calls[0].bytes else "") + Delivered(calls[1..])
  }

  function OpenResults(calls: seq<Call>): seq<OpenResult> {
    if calls == [] then [] else (if calls[0].OpenComplete? then [calls[0].result] else []) + OpenResults(calls[1..])
  }

  // The buffer when the header is complete: what came before, up to and with the completing fragment.
  function Arrived(buffer: string, fragments: seq<string>): string
    decreases |fragments|
  {
    if fragments == [] then buffer
    else
      var b := buffer + fragments[0];
      if HeaderLength(b).Some? then b else Arrived(b, fragments[1..])
  }

  lemma {:induction false} FindNul(s: string, t: string, i: nat)
    requires i <= |s| && NUL !in s[i..]
    ensures Find(s + t, NUL, i) == |s| + Find(t, NUL, 0)
    decreases |s| - i
  {
    if i == |s| {
      FindShift(s, t, 0);
    } else {
      assert s[i] in s[i..];
      FindNul(s, t, i + 1);
    }
  }

  lemma {:induction false} FindShift(s: string, t: string, i: nat)
    requires i <= |t|
    ensures Find(s + t, NUL, |s| + i) == |s| + Find(t, NUL, i)
    decreases |t| - i
  {
    if i < |t| {
      assert (s + t)[|s| + i] == t[i];
      FindShift(s, t, i + 1);
    }
  }

  lemma CStringAppend(s: string, t: string)
    requires NUL !in s
    ensures CString(s + t) == s + CString(t)
  {
    FindNul(s, t, 0);
  }

  /** Bytes after a header do not change where it ends. */
  lemma HeaderStable(h: string, p: string)
    requires HeaderLength(h).Some?
    ensures HeaderLength(h + p) == HeaderLength(h)
  {
    hide FindTerminator;
    var e := HeaderLength(h).value;
    var front := h[..e];
    assert h == front + h[e..] && h + p == front + (h[e..] + p);
    CStringAppend(front, h[e..]);
    CStringAppend(front, h[e..] + p);
    hide CString, Find;
    var s, t := CString(h), CString(h + p);
    assert s[..e] == front == t[..e];
    hide HeaderLength;
    forall j | 0 <= j <= e - 4
      ensures TerminatorAt(s, j) <==> TerminatorAt(t, j)
    {
      assert s[j..j + 4] == front[j..j + 4] == t[j..j + 4];
    }
    var i := FindTerminator(s, 0).value;
    assert i == e - 4 && TerminatorAt(t, i);
    assert FindTerminator(t, 0).Some?;
  }

  lemma {:induction false} OpenDelivers(io: Io, fragments: seq<string>)
    requires io.state == Open
    ensures var (io', calls) := Run(io, Receipts(fragments));
            io' == io && Delivered(calls) == Concat(fragments) && OpenResults(calls) == []
    decreases |fragments|
  {
    if fragments != [] {
      var es := Receipts(fragments);
      assert es[1..] == Receipts(fragments[1..]);
      OpenDelivers(io, fragments[1..]);
      var more := Run(io, es[1..]).1;
      assert ([BytesReceived(fragments[0])] + more)[1..] == more;
    }
  }

  lemma {:induction false} ClosedIgnores(io: Io, fragments: seq<string>)
    requires io.state == Closed
    ensures Run(io, Receipts(fragments)) == (io, [])
    decreases |fragments|
  {
    if fragments != [] {
      var es := Receipts(fragments);
      assert es[1..] == Receipts(fragments[1..]) && Step(io, es[0]) == (io, []);
      ClosedIgnores(io, fragments[1..]);
      assert [] + Run(io, es[1..]).1 == [];
    }
  }

  lemma {:induction false} DeliveredAppend(calls: seq<Call>, more: seq<Call>)
    ensures Delivered(calls + more) == Delivered(calls) + Delivered(more)
  {
    if calls == [] {
      assert calls + more == more;
    } else {
      assert (calls + more)[1..] == calls[1..] + more;
      DeliveredAppend(calls[1..], more);
      var first := if calls[0].BytesReceived? then calls[0].bytes else "";
      Reassociate(first, Delivered(calls[1..]), Delivered(more));
    }
  }

  lemma {:induction false} OpenResultsAppend(calls: seq<Call>, more: seq<Call>)
    ensures OpenResults(calls + more) == OpenResults(calls) + OpenResults(more)
  {
    if calls == [] {
      assert calls + more == more;
    } else {
      assert (calls + more)[1..] == calls[1..] + more;
      OpenResultsAppend(calls[1..], more);
      var first := if calls[0].OpenComplete? then [calls[0].result] else [];
      Reassociate(first, OpenResults(calls[1..]), OpenResults(more));
    }
  }

  lemma DecidedCalls(io: Io)
    requires HeaderLength(io.buffer).Some?
    ensures var (io', calls) := Decide(io);
            var ok := Success(Status(CString(io.buffer)));
            && io' == io.(state := if ok then Open else Closed)
            && OpenResults(calls) == [if ok then OpenOk else OpenError]
            && Delivered(calls) == if ok then io.buffer[HeaderLength(io.buffer).value..] else ""
  {
    hide HeaderLength, Status, CString;
    var calls := Decide(io).1;
    assert calls[1..] == [] || calls[1..][1..] == [];
  }

  /**
   The whole stream S, counting bytes already buffered, decides: nothing happens until its header is there;
   then the open completes once, and on success exactly the bytes after the header are delivered.
   */
  lemma {:induction false} TunnelRun(io: Io, fragments: seq<string>)
    requires io.state == WaitingForConnectResponse && fragments != []
    ensures var (io', calls) := Run(io, Receipts(fragments));
            var stream, arrived := io.buffer + Concat(fragments), Arrived(io.buffer, fragments);
            && arrived <= stream
            && match HeaderLength(stream)
               case None => io' == io.(buffer := stream) && calls == []
               case Some(e) =>
                 var ok := Success(Status(CString(arrived)));
                 && HeaderLength(arrived) == Some(e)
                 && io'.state == (if ok then Open else Closed)
                 && OpenResults(calls) == [if ok then OpenOk else OpenError]
                 && Delivered(calls) == if ok then stream[e..] else ""
    decreases |fragments|
  {
    hide HeaderLength, Status, CString, Decide, Success;
    var es := Receipts(fragments);
    var b, later := io.buffer + fragments[0], fragments[1..];
    assert es[0] == OnBytesReceived(fragments[0], true) && es[1..] == Receipts(later);
    assert io.buffer + Concat(fragments) == b + Concat(later);
    var mid := io.(buffer := b);
    var (io', calls) := Step(io, es[0]);
    assert (io', calls) == Decide(mid);
    if HeaderLength(b).Some? {
      HeaderStable(b, Concat(later));
      DecidedCalls(mid);
      if io'.state == Open {
        OpenDelivers(io', later);
        AfterHeader(b, Concat(later), HeaderLength(b).value);
      } else {
        ClosedIgnores(io', later);
      }
      DeliveredAppend(calls, Run(io', Receipts(later)).1);
      OpenResultsAppend(calls, Run(io', Receipts(later)).1);
    } else {
      DecideCompletes(mid);
      if later == [] {
        assert Run(io', []) == (io', []) && Concat(later) == "" && b + "" == b;
      } else {
        TunnelRun(mid, later);
        assert [] + Run(mid, Receipts(later)).1 == Run(mid, Receipts(later)).1;
      }
    }
  }

  lemma AfterHeader(b: string, p: string, e: nat)
    requires e <= |b|
    ensures b[e..] + p == (b + p)[e..]
  {
  }

  /**
   A stream H + P whose header H has a status code of its own: for every fragmentation, a 2xx code opens the
   tunnel once and delivers exactly P, and any other code fails the open once and delivers nothing.
   */
  lemma TunnelTransparent(io: Io, fragments: seq<string>, h: string, p: string)
    requires io.state == WaitingForConnectResponse && fragments != []
    requires io.buffer + Concat(fragments) == h + p
    requires HeaderLength(h) == Some(|h|) && Status(h).Some?
    ensures var (io', calls) := Run(io, Receipts(fragments));
            if Success(Status(h)) then io'.state == Open && OpenResults(calls) == [OpenOk] && Delivered(calls) == p
            else io'.state == Closed && OpenResults(calls) == [OpenError] && Delivered(calls) == ""
  {
    hide Status, HeaderLength, CString, Arrived, Delivered, OpenResults, Run, Receipts;
    TunnelRun(io, fragments);
    HeaderStable(h, p);
    var arrived := Arrived(io.buffer, fragments);
    assert h <= arrived by { assert arrived <= h + p && |h| <= |arrived|; }
    var x := arrived[|h|..];
    assert arrived == h + x && h[..|h|] == h;
    HeaderEndsLine(h);
    CStringAppend(h, x);
    StatusStable(h, CString(x));
    assert (h + p)[|h|..] == p;
  }

  // ----- A reused instance: the receive buffer outlives the open it was filled for -----

  // What a response h, followed by p, is to do: its own status decides, and p alone reaches the user.
  predicate OwnOutcome(calls: seq<Call>, h: string, p: string) {
    var ok := Success(Status(h));
    OpenResults(calls) == [if ok then OpenOk else OpenError] && Delivered(calls) == if ok then p else ""
  }

  // Bytes left in the buffer by an earlier open that do not show: without a header of their own, they must be free of
  // NUL and not turn the verdict; with one, both the earlier response and the new one must be failures.
  predicate Harmless(leftover: string, h: string, first: string) {
    match HeaderLength(leftover)
    case None => NUL !in leftover && (Success(Status(leftover + h)) <==> Success(Status(h)))
    case Some(_) => !Success(Status(CString(leftover + first))) && !Success(Status(h))
  }

  lemma HeaderEndsLine(h: string)
    requires HeaderLength(h) == Some(|h|)
    ensures EndsLine(h) && NUL !in h
  {
    assert h[..|h|] == h;
    assert h[|h| - 4..|h|] == TERMINATOR;
    assert h[|h| - 2] == h[|h| - 4..|h|][2] && h[|h| - 1] == h[|h| - 4..|h|][3];
  }

  lemma {:induction false} FindAppend(s: string, t: string, i: nat)
    requires i <= |s| && NUL in s[i..]
    ensures Find(s + t, NUL, i) == Find(s, NUL, i) < |s|
    decreases |s| - i
  {
    if s[i] != NUL {
      assert s[i..] == [s[i]] + s[i + 1..];
      FindAppend(s, t, i + 1);
    }
  }

  /** No header is ever found behind a NUL. */
  lemma NulHidesHeader(b: string, x: string)
    requires NUL in b && HeaderLength(b).None?
    ensures HeaderLength(b + x).None?
  {
    assert b[0..] == b;
    FindAppend(b, x, 0);
    assert CString(b + x) == CString(b);
  }

  /** A response ends the header that bytes without one begin: no double new-line lies across its first character. */
  lemma HeaderAfter(b: string, h: string, x: string)
    requires NUL !in b && HeaderLength(b).None?
    requires HeaderLength(h) == Some(|h|) && "HTTP/" <= h
    ensures HeaderLength(b + h + x) == Some(|b| + |h|)
  {
    hide FindTerminator, Find;
    HeaderEndsLine(h);
    assert b + "" == b && h + "" == h;
    CStringAppend(b, "");
    CStringAppend(h, "");
    CStringAppend(b + h, x);
    hide CString;
    var t := CString(b + h + x);
    var end := |b| + |h| - 4;
    assert t[..end + 4] == b + h;
    assert TerminatorAt(h, |h| - 4);
    assert t[end..end + 4] == h[|h| - 4..|h|];
    assert TerminatorAt(t, end);
    var i := FindTerminator(t, 0).value;
    if i < end {
      EarlierTerminator(b, h, t, i);
    }
  }

  lemma EarlierTerminator(b: string, h: string, t: string, i: nat)
    requires TerminatorAt(t, i) && b + h <= t && i < |b| + |h| - 4 && "HTTP/" <= h
    ensures TerminatorAt(b, i) || (i >= |b| && TerminatorAt(h, i - |b|))
  {
    assert t[..|b| + |h|] == b + h;
    assert t[|b|] == h[0] == "HTTP/"[0];
    TerminatorCharacters(t, i);
    if i + 4 <= |b| {
      assert b[i..i + 4] == t[i..i + 4];
    } else if i >= |b| {
      assert h[i - |b|..i - |b| + 4] == t[i..i + 4];
    }
  }

  lemma TerminatorCharacters(t: string, i: nat)
    requires TerminatorAt(t, i)
    ensures forall k | i <= k < i + 4 :: t[k] == '\r' || t[k] == '\n'
  {
    assert forall k | i <= k < i + 4 :: t[k] == t[i..i + 4][k - i];
  }

  lemma VerdictOnArrival(b: string, h: string, arrived: string)
    requires b + h <= arrived && NUL !in b + h && EndsLine(h) && Status(h).Some?
    ensures Status(CString(arrived)) == Status(b + h)
  {
    hide Status, CString, Settled, EndsLine;
    var s := b + h;
    var x := arrived[|s|..];
    assert arrived == s + x;
    CStringAppend(s, x);
    SettledAfter(b, h);
    SettledStable(s, CString(x));
  }

  lemma NewResponse(io: Io, fragments: seq<string>, h: string, p: string)
    requires io.state == WaitingForConnectResponse && fragments != [] && Concat(fragments) == h + p
    requires HeaderLength(h) == Some(|h|) && Status(h).Some?
    requires HeaderLength(io.buffer).None? && NUL !in io.buffer
    ensures var calls := Run(io, Receipts(fragments)).1;
            var ok := Success(Status(io.buffer + h));
            OpenResults(calls) == [if ok then OpenOk else OpenError] && Delivered(calls) == if ok then p else ""
  {
    var s := io.buffer + h;
    assert "HTTP/" <= h;
    hide Status, HeaderLength, CString, Arrived, Delivered, OpenResults, Run, Receipts, Settled, Success, Concat, EndsLine;
    TunnelRun(io, fragments);
    HeaderEndsLine(h);
    Regroup(io.buffer, h, p);
    HeaderAfter(io.buffer, h, p);
    var arrived := Arrived(io.buffer, fragments);
    LongPrefix(arrived, s, p);
    VerdictOnArrival(io.buffer, h, arrived);
  }

  lemma Regroup(b: string, h: string, p: string)
    ensures b + (h + p) == b + h + p && (b + h + p)[|b| + |h|..] == p
  {
  }

  lemma LongPrefix(a: string, s: string, p: string)
    ensures a <= s + p && |s| <= |a| ==> s <= a
  {
  }

  /**
   Whatever earlier opens left in the buffer, and for every fragmentation: the response decides by its own status, and
   the user gets exactly the payload behind it, if and only if the leftover is harmless.
   */
  lemma LeftoverDecides(io: Io, fragments: seq<string>, h: string, p: string)
    requires io.state == WaitingForConnectResponse && fragments != [] && Concat(fragments) == h + p
    requires HeaderLength(h) == Some(|h|) && Status(h).Some?
    ensures OwnOutcome(Run(io, Receipts(fragments)).1, h, p) <==> Harmless(io.buffer, h, fragments[0])
  {
    hide Status, HeaderLength, CString, Delivered, OpenResults, Run, Receipts, Success;
    var b, stream := io.buffer, io.buffer + Concat(fragments);
    TunnelRun(io, fragments);
    match HeaderLength(b) {
      case None =>
        if NUL in b {
          NulHidesHeader(b, Concat(fragments));
          NothingOpened();
        } else {
          NewResponse(io, fragments, h, p);
          SameVerdict(Run(io, Receipts(fragments)).1, h, p, Success(Status(b + h)));
        }
      case Some(e) =>
        HeaderStable(b, fragments[0]);
        HeaderStable(b, Concat(fragments));
        assert Arrived(b, fragments) == b + fragments[0];
        assert |stream[e..]| > |p|;
        SameVerdict(Run(io, Receipts(fragments)).1, h, p, Success(Status(CString(b + fragments[0]))));
    }
  }

  lemma NothingOpened()
    ensures OpenResults([]) == []
  {
  }

  // The verdict reported is the response's own.
  lemma SameVerdict(calls: seq<Call>, h: string, p: string, ok: bool)
    requires OpenResults(calls) == [if ok then OpenOk else OpenError]
    ensures OwnOutcome(calls, h, p) <==> ok == Success(Status(h)) && Delivered(calls) == if ok then p else ""
  {
    hide OpenResults, Delivered, Status, Success;
    var own := Success(Status(h));
    if ok != own {
      assert [OpenOk][0] != [OpenError][0];
    }
  }

  /** Whole first lines of an earlier response that bear a status are enough to decide the new open. */
  lemma StatusLineDecides(io: Io, fragments: seq<string>, h: string, p: string)
    requires io.state == WaitingForConnectResponse && fragments != [] && Concat(fragments) == h + p
    requires HeaderLength(h) == Some(|h|) && Status(h).Some?
    requires HeaderLength(io.buffer).None? && NUL !in io.buffer
    requires EndsLine(io.buffer) && Status(io.buffer).Some?
    ensures var calls := Run(io, Receipts(fragments)).1;
            var ok := Success(Status(io.buffer));
            OpenResults(calls) == [if ok then OpenOk else OpenError] && Delivered(calls) == if ok then p else ""
  {
    hide Status, HeaderLength, Delivered, OpenResults, Run, Receipts;
    NewResponse(io, fragments, h, p);
    StatusStable(io.buffer, h);
  }

  /**
   An open that starts with an earlier response in the buffer is decided by that response, and the new
   response is handed to the user as payload.
   */
  lemma StaleResponseDecides(io: Io, fragments: seq<string>, e: nat)
    requires io.state == WaitingForConnectResponse && fragments != []
    requires HeaderLength(io.buffer) == Some(e) && Status(io.buffer[..e]).Some?
    ensures var calls := Run(io, Receipts(fragments)).1;
            if Success(Status(io.buffer[..e])) then
              OpenResults(calls) == [OpenOk] && Delivered(calls) == io.buffer[e..] + Concat(fragments)
            else OpenResults(calls) == [OpenError] && Delivered(calls) == ""
  {
    hide Status, HeaderLength, Delivered, OpenResults, Run, Receipts;
    var h, p := io.buffer[..e], io.buffer[e..] + Concat(fragments);
    assert io.buffer + Concat(fragments) == h + p;
    HeaderOfPrefix(io.buffer, e);
    TunnelTransparent(io, fragments, h, p);
  }

  lemma HeaderOfPrefix(b: string, e: nat)
    requires HeaderLength(b) == Some(e)
    ensures HeaderLength(b[..e]) == Some(e)
  {
    var front := b[..e];
    assert b == front + b[e..];
    CStringAppend(front, b[e..]);
    CStringAppend(front, "");
    assert front + "" == front && CString("") == "";
    assert CString(front) == front;
    assert front[e - 4..e] == b[e - 4..e];
    assert TerminatorAt(front, e - 4);
    assert FindTerminator(front, 0).Some?;
    HeaderStable(front, b[e..]);
  }

  // ----- Such a leftover is reached from a new instance -----

  const New := Io(Closed, "", false)
  const OpenAndConnect := [CallOpen(true), OnOpenComplete(OpenOk, true)]

  // An open, some bytes of a response, and a close.
  function FirstUse(data: string): seq<Event> {
    OpenAndConnect + [OnBytesReceived(data, true), CallClose(true, true), OnCloseComplete]
  }

  lemma {:induction false} RunAppend(io: Io, es: seq<Event>, more: seq<Event>)
    ensures var (io1, calls) := Run(io, es);
            Run(io, es + more) == (Run(io1, more).0, calls + Run(io1, more).1)
    ensures Opens(io, es + more) == Opens(io, es) + Opens(Run(io, es).0, more)
    decreases |es|
  {
    hide Step;
    if es == [] {
      assert es + more == more && [] + Run(io, more).1 == Run(io, more).1;
    } else {
      assert (es + more)[1..] == es[1..] + more;
      var (next, calls) := Step(io, es[0]);
      RunAppend(next, es[1..], more);
      var (io1, rest) := Run(next, es[1..]);
      assert calls + (rest + Run(io1, more).1) == (calls + rest) + Run(io1, more).1;
    }
  }

  lemma RunOne(io: Io, e: Event)
    ensures Run(io, [e]) == Step(io, e)
    ensures Opens(io, [e]) == if Accepts(io, e) then 1 else 0
  {
    hide Step;
    assert [e][1..] == [];
    assert Step(io, e).1 + [] == Step(io, e).1;
  }

  lemma Connects(io: Io)
    requires io.state == Closed
    ensures Run(io, OpenAndConnect) == (io.(state := WaitingForConnectResponse), [UnderlyingOpen, SendConnect])
    ensures Opens(io, OpenAndConnect) == 1
  {
    var opening := io.(state := OpeningUnderlyingIo);
    var call, connect := CallOpen(true), OnOpenComplete(OpenOk, true);
    RunOne(io, call);
    RunOne(opening, connect);
    assert OpenAndConnect == [call] + [connect] && [UnderlyingOpen] + [SendConnect] == [UnderlyingOpen, SendConnect];
    hide Run, Opens;
    RunAppend(io, [call], [connect]);
  }

  lemma ClosesKeepingBuffer(io: Io)
    requires io.state == Closed || io.state == Open || io.state == WaitingForConnectResponse
    ensures var es := [CallClose(true, true), OnCloseComplete];
            var io' := Run(io, es).0;
            io'.state == Closed && io'.buffer == io.buffer && Opens(io, es) == 0
  {
    var close, closed := CallClose(true, true), OnCloseComplete;
    assert [close, closed] == [close] + [closed];
    hide Run, Opens;
    RunOne(io, close);
    RunOne(Step(io, close).0, closed);
    RunAppend(io, [close], [closed]);
  }

  /** Any bytes at all can be left over: they stay in the buffer of the closed instance. */
  lemma LeavesOver(data: string)
    ensures var io := Run(New, FirstUse(data)).0; io.state == Closed && io.buffer == data
    ensures Opens(New, FirstUse(data)) == 1
  {
    var waiting := New.(state := WaitingForConnectResponse);
    var received, close := OnBytesReceived(data, true), [CallClose(true, true), OnCloseComplete];
    assert FirstUse(data) == OpenAndConnect + ([received] + close);
    assert "" + data == data;
    hide Run, Opens, FirstUse, HeaderLength, Completions;
    Connects(New);
    RunOne(waiting, received);
    DecideKeepsBuffer(waiting.(buffer := data));
    DecideCompletes(waiting.(buffer := data));
    ClosesKeepingBuffer(Step(waiting, received).0);
    RunAppend(waiting, [received], close);
    RunAppend(New, OpenAndConnect, [received] + close);
  }

  /** So on a second open of one instance, everything depends on what the first response left behind. */
  lemma SecondOpen(data: string, fragments: seq<string>, h: string, p: string)
    requires fragments != [] && Concat(fragments) == h + p
    requires HeaderLength(h) == Some(|h|) && Status(h).Some?
    ensures var reopened := FirstUse(data) + OpenAndConnect;
            var before := Run(New, reopened).1;
            var calls := Run(New, reopened + Receipts(fragments)).1;
            before <= calls && (OwnOutcome(calls[|before|..], h, p) <==> Harmless(data, h, fragments[0]))
  {
    hide Run, Receipts, Opens, HeaderLength, Status, Harmless, OwnOutcome, FirstUse;
    var reopened := FirstUse(data) + OpenAndConnect;
    LeavesOver(data);
    RunAppend(New, FirstUse(data), OpenAndConnect);
    Connects(Run(New, FirstUse(data)).0);
    RunAppend(New, reopened, Receipts(fragments));
    LeftoverDecides(Run(New, reopened).0, fragments, h, p);
  }

  /** A first response whose status line came through alone spoils a second open that should succeed. */
  lemma RefusalLeftOver(h: string, p: string)
    requires HeaderLength(h) == Some(|h|) && Success(Status(h))
    ensures var data := "HTTP/1.1 407 N\r\n"; Status(data) == Some(407) && !Harmless(data, h, h + p)
  {
    var data := "HTTP/1.1 407 N\r\n";
    RefusedStatus();
    StatusStable(data, h);
  }

  lemma RefusedStatus()
    ensures var data := "HTTP/1.1 407 N\r\n"; Status(data) == Some(407) && EndsLine(data)
  {
    var data := "HTTP/1.1 407 N\r\n";
    assert Find(data, '.', 5) == 6;
    assert Find(data, ' ', 6) == 8;
    assert SkipSpaces(data, 8) == 9;
    assert SkipDigits(data, 10, 9) == 12;
    assert DigitsValue(data, 10, 9, 12) == 407;
  }

  /** When memory runs out at the first bytes of such an open, it is reported twice. */
  lemma ReopenReportsTwice(io: Io, data: string)
    requires io.state == Closed && HeaderLength(io.buffer).Some?
    ensures var es := [CallOpen(true), OnOpenComplete(OpenOk, true), OnBytesReceived(data, false)];
            Opens(io, es) == 1 && Completions(Run(io, es).1) == 2
  {
    hide HeaderLength, Status, CString, Decide, Run, Completions;
    var es := [CallOpen(true), OnOpenComplete(OpenOk, true), OnBytesReceived(data, false)];
    var io1, io2 := Step(io, es[0]).0, Step(Step(io, es[0]).0, es[1]).0;
    assert es[1..][1..] == [es[2]] && [es[2]][1..] == [];
    assert io2 == io.(state := WaitingForConnectResponse);
    assert DoubleReports(io2, [es[2]]) == 1 && Opens(io2, [es[2]]) == 0;
    assert DoubleReports(io1, es[1..]) == 1 && Opens(io1, es[1..]) == 0;
    OpenCompletions(io, es);
    DecideCompletes(Fail(io2).0);
    LastState(io, es, io1, io2);
  }

  lemma LastState(io: Io, es: seq<Event>, io1: Io, io2: Io)
    requires |es| == 3 && io1 == Step(io, es[0]).0 && io2 == Step(io1, es[1]).0
    ensures Run(io, es).0 == Step(io2, es[2]).0
  {
    hide Step;
    assert es[1..][1..] == [es[2]] && [es[2]][1..] == [];
    assert Run(io2, [es[2]]).0 == Step(io2, es[2]).0;
    assert Run(io1, es[1..]).0 == Run(io2, [es[2]]).0;
  }

  /** An instance used twice is told of three completions for its two opens. */
  lemma ReuseReportsTwice(data: string, more: string)
    requires HeaderLength(data).Some?
    ensures var es := FirstUse(data) + [CallOpen(true), OnOpenComplete(OpenOk, true), OnBytesReceived(more, false)];
            Opens(New, es) == 2 && Completions(Run(New, es).1) == 3
  {
    hide HeaderLength, Run, Opens, Completions, FirstUse;
    var second := [CallOpen(true), OnOpenComplete(OpenOk, true), OnBytesReceived(more, false)];
    LeavesOver(data);
    var io := Run(New, FirstUse(data)).0;
    ReopenReportsTwice(io, more);
    RunAppend(New, FirstUse(data), second);
    CompletionsAppend(Run(New, FirstUse(data)).1, Run(io, second).1);
    EmptyBuffer();
    assert Opens(New, FirstUse(data)) + Pending(New) <= Room(New);
    NoDoubleReportOnFirstOpen(New, FirstUse(data));
    OpenCompletions(New, FirstUse(data));
  }

  lemma EmptyBuffer()
    ensures HeaderLength("").None?
  {
  }

  // ----- The instance itself -----

  /** Driven through any events, the instance does what Run says, so every theorem above holds of it. */
  method Play(es: seq<Event>) returns (io: Io, calls: seq<Call>, accepted: nat)
    ensures (io, calls) == Run(New, es) && accepted == Opens(New, es)
    ensures Completions(calls) + Pending(io) == accepted + DoubleReports(New, es)
    ensures InOrder(calls, false) && Sent(calls) == Offered(New, es)
  {
    hide Step, Sent, Offered, Run, Opens, Completions, InOrder;
    var instance := new Instance();
    accepted := 0;
    RunOfNone(New);
    for i := 0 to |es|
      invariant (instance.Value(), instance.calls) == Run(New, es[..i]) && accepted == Opens(New, es[..i])
    {
      ghost var before := instance.Value();
      match es[i] {
        case CallOpen(underlyingOk) =>
          var ok := instance.HttpProxyIoOpen(underlyingOk);
          if ok {
            accepted := accepted + 1;
          }
        case CallClose(callback, closed) =>
          var _ := instance.HttpProxyIoClose(callback, closed);
        case CallSend(data, sent) =>
          var _ := instance.HttpProxyIoSend(data, sent);
        case OnOpenComplete(result, connectSent) =>
          instance.OnUnderlyingIoOpenComplete(result, connectSent);
        case OnBytesReceived(data, gotMemory) =>
          instance.OnUnderlyingIoBytesReceived(data, gotMemory);
        case OnError =>
          instance.OnUnderlyingIoError();
        case OnCloseComplete =>
          instance.OnUnderlyingIoCloseComplete();
      }
      assert es[..i + 1] == es[..i] + [es[i]];
      RunAppend(New, es[..i], [es[i]]);
      RunOne(before, es[i]);
    }
    assert es[..|es|] == es;
    io, calls := instance.Value(), instance.calls;
    OpenCompletions(New, es);
    BytesOnlyWhenOpen(New, es, false);
    SendsTransparently(New, es);
  }

  lemma RunOfNone(io: Io)
    ensures Run(io, []) == (io, []) && Opens(io, []) == 0
  {
  }
}
