/** The resilient send of httpapiex.c: three levels of set-up, climbed on success and unwound on failure. */
module HttpApiEx {
  import opened AssocLists
  import opened Lists

  // An option saved under its name.
  type Option = Entry<string, string>

  // The calls made on the layer below.
  datatype Call =
    | Init(ok: bool)
    | Deinit
    | Connect(ok: bool)
    | Configure(options: seq<Option>)   // every saved option set on a new connection, results ignored
    | SetOption(option: Option)
    | Execute(ok: bool)
    | CloseConnection

  datatype Result = Ok | InvalidArg | Error | RecoveryFailed

  // What the n-th attempt of each step gives within one request.
  datatype Oracle = Oracle(init: nat -> bool, connect: nat -> bool, execute: nat -> bool)

  // ----- The request as a decision tree -----

  // The calls of a climb from the bottom, as attempt i, c and x of the three steps.
  function Climb(o: Oracle, saved: seq<Option>, i: nat, c: nat, x: nat): seq<Call> {
    if !o.init(i) then [Init(false)]
    else if !o.connect(c) then [Init(true), Connect(false), Deinit]
    else if !o.execute(x) then [Init(true), Connect(true), Configure(saved), Execute(false), CloseConnection, Deinit]
    else [Init(true), Connect(true), Configure(saved), Execute(true)]
  }

  // The calls of a request on an open connection: try it, reconnect, and start over.
  function Retry(o: Oracle, saved: seq<Option>): seq<Call> {
    if o.execute(0) then [Execute(true)]
    else if !o.connect(0) then [Execute(false), CloseConnection, Connect(false), Deinit] + Climb(o, saved, 0, 1, 1)
    else if o.execute(1) then [Execute(false), CloseConnection, Connect(true), Configure(saved), Execute(true)]
    else
      [Execute(false), CloseConnection, Connect(true), Configure(saved), Execute(false), CloseConnection, Deinit]
      + Climb(o, saved, 0, 1, 2)
  }

  function Request(o: Oracle, saved: seq<Option>, connected: bool): seq<Call> {
    if connected then Retry(o, saved) else Climb(o, saved, 0, 0, 0)
  }

  // ----- Names and values of the saved options -----

  function Save(saved: seq<Option>, option: Option): seq<Option> {
    var i := IndexOf(saved, option.key);
    if i < |saved| then saved[i := option] else saved + [option]
  }

  // What a call that clones or sets an option answers.
  datatype Reply = Accepted | Rejected | Broken

  datatype Handle = Handle(connected: bool, saved: seq<Option>)

  function ActSetOption(h: Handle, option: Option, clone: Reply, memory: bool): (Handle, seq<Call>) {
    if clone != Accepted || (IndexOf(h.saved, option.key) == |h.saved| && !memory) then (h, [])
    else (h.(saved := Save(h.saved, option)), if h.connected then [Call.SetOption(option)] else [])
  }

  function Teardown(connected: bool): seq<Call> {
    if connected then [CloseConnection, Deinit] else []
  }

  // ----- The handle -----

  class Sender {
    var k: int
    var connected: bool           // httpHandle is not NULL
    var savedOptions: seq<Option>
    var calls: seq<Call>

    // Between calls the handle is either at the bottom or holds an open connection.
    ghost predicate Idle()
      reads this
    {
      (k == -1 && !connected) || (k == 2 && connected)
    }

    constructor ()
      ensures Idle() && !connected && savedOptions == [] && calls == []
    {
      k := -1;
      connected := false;
      savedOptions := [];
      calls := [];
    }

    method ExecuteRequest(validType: bool, built: bool, o: Oracle) returns (result: Result)
      requires Idle()
      modifies `k, `connected, `calls
      ensures Idle()
      ensures !validType ==> result == InvalidArg && calls == old(calls) && connected == old(connected)
      ensures validType && !built ==> result == Error && calls == old(calls) && connected == old(connected)
      ensures validType && built ==>
                && calls == old(calls) + Request(o, savedOptions, old(connected))
                && connected == (calls[|calls| - 1] == Execute(true))
                && result == (if connected then Ok else RecoveryFailed)
    {
      if !validType {
        return InvalidArg;
      }
      if !built {
        return Error;
      }
      if k == -1 {
        k := 0;
      }
      StartOfLoop(o, savedOptions, connected);
      result := Resend(o);
    }

    // The loop, from the level the handle is at, with nothing tried yet.
    method Resend(o: Oracle) returns (result: Result)
      requires if connected then k == 2 else k == 0
      modifies `k, `connected, `calls
      ensures Idle()
      ensures calls == old(calls) + Rest(o, savedOptions, Loop(old(k), false, false, 0, 0, 0))
      ensures calls != [] && connected == (calls[|calls| - 1] == Execute(true))
      ensures result == (if connected then Ok else RecoveryFailed)
    {
      hide Climb, Retry, Rest, Rank, Expected, Advance, Emitted;
      var st := new bool[3] [false, false, false];
      var inits, connects, executes := 0, 0, 0;   // attempts so far
      ghost var base := if k == 2 then 1 else 0;
      ghost var all := calls + Rest(o, savedOptions, Loop(k, false, false, 0, 0, 0));
      ExpectedAtStart(connected);
      result := RecoveryFailed;
      while k >= 0
        invariant st.Length == 3 && !st[2]
        invariant result == RecoveryFailed
        invariant -1 <= k <= 2 && connected == (k == 2)
        invariant k == -1 || (k == 0 && st[0]) ==> calls != [] && calls[|calls| - 1] != Execute(true)
        invariant Expected(Loop(k, st[0], st[1], inits, connects, executes), base)
        invariant calls + Rest(o, savedOptions, Loop(k, st[0], st[1], inits, connects, executes)) == all
        decreases Rank(Loop(k, st[0], st[1], inits, connects, executes))
      {
        ghost var s, before := Loop(k, st[0], st[1], inits, connects, executes), calls;
        LoopAdvances(o, savedOptions, s, base);
        LoopStep(o, savedOptions, s, base);
        var sent: bool;
        if k > 2 {
          break;
        }
        sent, inits, connects, executes := Iteration(st, o, inits, connects, executes);
        if sent {
          SentLast(before, o, savedOptions, s);
          return Ok;
        }
        Reassociate(before, Emitted(o, savedOptions, s), Rest(o, savedOptions, Advance(o, s)));
      }
      LoopEnds(o, savedOptions, Loop(k, st[0], st[1], inits, connects, executes));
    }

    // The body of the loop; st holds which levels have been passed.
    method Iteration(st: array<bool>, o: Oracle, inits0: nat, connects0: nat, executes0: nat)
      returns (sent: bool, inits: nat, connects: nat, executes: nat)
      requires st.Length == 3 && !st[2] && 0 <= k <= 2 && connected == (k == 2)
      modifies `k, `connected, `calls, st
      ensures !st[2] && connected == (k == 2) && -1 <= k <= 2
      ensures calls == old(calls) + Emitted(o, savedOptions, old(Loop(k, st[0], st[1], inits0, connects0, executes0)))
      ensures sent <==> old(k) == 2 && o.execute(executes0)
      ensures sent ==> k == 2
      ensures !sent ==> Loop(k, st[0], st[1], inits, connects, executes) ==
                        Advance(o, old(Loop(k, st[0], st[1], inits0, connects0, executes0)))
      ensures k == -1 ==> old(k) == 0
      ensures old(k) == 0 && old(st[0]) ==> calls == old(calls)
      ensures (k == -1 && !old(st[0])) || (k == 0 && st[0]) ==>
                calls != [] && calls[|calls| - 1] != Execute(true)
    {
      inits, connects, executes := inits0, connects0, executes0;
      var goOn: bool;
      if st[k] {
        goOn := false;
      } else {
        goOn := Attempt(o, inits, connects, executes);
        match k {
          case 0 => inits := inits + 1;
          case 1 => connects := connects + 1;
          case _ => executes := executes + 1;
        }
      }
      if goOn {
        if k == 2 {
          return true, inits, connects, executes;
        }
        st[k] := true;
        k := k + 1;
        st[k] := false;
      } else {
        st[k] := false;
        k := k - 1;
        Unwind();
      }
      return false, inits, connects, executes;
    }

    // One try of the step of level k.
    method Attempt(o: Oracle, inits: nat, connects: nat, executes: nat) returns (goOn: bool)
      requires 0 <= k <= 2
      modifies `connected, `calls
      ensures goOn == if k == 0 then o.init(inits) else if k == 1 then o.connect(connects) else o.execute(executes)
      ensures connected == if k == 1 then goOn else old(connected)
      ensures calls == old(calls) +
                       if k == 0 then [Init(goOn)]
                       else if k == 2 then [Execute(goOn)]
                       else if goOn then [Connect(true), Configure(savedOptions)]
                       else [Connect(false)]
    {
      match k {
        case 0 =>
          goOn := o.init(inits);
          calls := calls + [Init(goOn)];
        case 1 =>
          goOn := o.connect(connects);
          calls := calls + [Connect(goOn)];
          connected := goOn;
          if goOn {
            calls := calls + [Configure(savedOptions)];
          }
        case _ =>
          goOn := o.execute(executes);
          calls := calls + [Execute(goOn)];
      }
    }

    // What going down to level k releases.
    method Unwind()
      modifies `connected, `calls
      ensures connected == (k != 1 && old(connected))
      ensures calls == old(calls) + if k == 0 then [Deinit] else if k == 1 then [CloseConnection] else []
    {
      match k {
        case 0 =>
          calls := calls + [Deinit];
        case 1 =>
          calls := calls + [CloseConnection];
          connected := false;
        case _ =>
      }
    }

    // `memory` says whether a new name and its slot can be allocated.
    method SetOption(option: Option, clone: Reply, memory: bool, reply: Reply) returns (result: Result)
      requires Idle()
      modifies `savedOptions, `calls
      ensures var (h, more) := ActSetOption(old(Handle(connected, savedOptions)), option, clone, memory);
              h == Handle(connected, savedOptions) && calls == old(calls) + more
      ensures result == Ok <==>
              && clone == Accepted && (IndexOf(old(savedOptions), option.key) < |old(savedOptions)| || memory)
              && (connected ==> reply == Accepted)
      ensures result == InvalidArg <==> clone == Rejected || (|calls| > |old(calls)| && reply == Rejected)
    {
      if clone == Rejected {
        return InvalidArg;
      } else if clone == Broken {
        return Error;
      }
      var i := IndexOf(savedOptions, option.key);
      if i < |savedOptions| {
        savedOptions := savedOptions[i := option];
      } else if !memory {
        return Error;
      } else {
        savedOptions := savedOptions + [option];
      }
      if connected {
        calls := calls + [Call.SetOption(option)];
        return match reply case Accepted => Ok case Rejected => InvalidArg case Broken => Error;
      }
      return Ok;
    }

    method Destroy()
      requires Idle()
      modifies `calls
      ensures calls == old(calls) + Teardown(connected)
    {
      if k == 2 {
        calls := calls + [CloseConnection];
        calls := calls + [Deinit];
      }
    }
  }

  // ----- The loop's bookkeeping: which states it reaches, and why it ends -----

  // The loop's variables: the level, which levels below were passed, and the attempts made so far.
  datatype Loop = Loop(k: int, st0: bool, st1: bool, inits: int, connects: int, executes: int)

  // The state after one iteration that does not finish the request.
  function Advance(o: Oracle, s: Loop): Loop
    requires s.inits >= 0 && s.connects >= 0 && s.executes >= 0
  {
    if s.k == 0 then
      if s.st0 then s.(k := -1, st0 := false)
      else if o.init(s.inits) then s.(k := 1, st0 := true, st1 := false, inits := s.inits + 1)
      else s.(k := -1, inits := s.inits + 1)
    else if s.k == 1 then
      if s.st1 then s.(k := 0, st1 := false)
      else if o.connect(s.connects) then s.(k := 2, st1 := true, connects := s.connects + 1)
      else s.(k := 0, connects := s.connects + 1)
    else s.(k := 1, executes := s.executes + 1)
  }

  // The calls one iteration makes.
  function Emitted(o: Oracle, saved: seq<Option>, s: Loop): seq<Call>
    requires s.inits >= 0 && s.connects >= 0 && s.executes >= 0
  {
    if s.k == 0 then
      if s.st0 then [] else [Init(o.init(s.inits))]
    else if s.k == 1 then
      if s.st1 then [Deinit]
      else if o.connect(s.connects) then [Connect(true), Configure(saved)]
      else [Connect(false), Deinit]
    else if o.execute(s.executes) then [Execute(true)]
    else [Execute(false), CloseConnection]
  }

  // Strictly falls with every iteration.
  function Rank(s: Loop): nat {
    if s.k < 0 then 0
    else if !s.st0 then
      if s.k == 0 then 5 else if s.k == 1 then (if s.st1 then 6 else 8) else if s.st1 then 7 else 9
    else if s.k == 0 then 1
    else if s.k == 1 then (if s.st1 then 2 else 4)
    else 3
  }

  // The states the loop reaches; base is 1 for a request on an open connection.
  ghost predicate Expected(s: Loop, base: int) {
    && s.inits >= 0 && s.connects >= 0 && s.executes >= 0
    && if s.k < 0 then true
       else if !s.st0 then
         && s.inits == 0 && s.connects <= base && s.executes <= 2 * base && s.k <= 2
         && (s.k == 0 ==> !s.st1 && s.connects == base)
         && (s.k > 0 ==> base == 1 && s.connects == if s.st1 then 1 else 0)
         && (s.k == 1 ==> s.executes == 1 + s.connects)
         && (s.k == 2 ==> s.executes == s.connects)
       else
         && s.inits == 1 && s.k <= 2
         && (s.k == 2 ==> s.st1)
         && (s.k == 0 ==> !s.st1)
  }

  // The calls still to come.
  function Rest(o: Oracle, saved: seq<Option>, s: Loop): seq<Call>
    requires s.connects >= 0 && s.executes >= 0
  {
    var c, x := s.connects, s.executes;
    if s.k < 0 then []
    else if !s.st0 then
      if s.k == 0 then Climb(o, saved, 0, c, x)
      else if s.k == 1 then
        if s.st1 then [Deinit] + Climb(o, saved, 0, c, x)
        else if !o.connect(c) then [Connect(false), Deinit] + Climb(o, saved, 0, c + 1, x)
        else if o.execute(x) then [Connect(true), Configure(saved), Execute(true)]
        else [Connect(true), Configure(saved), Execute(false), CloseConnection, Deinit] + Climb(o, saved, 0, c + 1, x + 1)
      else if s.st1 then
        if o.execute(x) then [Execute(true)] else [Execute(false), CloseConnection, Deinit] + Climb(o, saved, 0, c, x + 1)
      else Retry(o, saved)
    else if s.k == 0 then []
    else if s.k == 1 then
      if s.st1 then [Deinit]
      else if !o.connect(c) then [Connect(false), Deinit]
      else if o.execute(x) then [Connect(true), Configure(saved), Execute(true)]
      else [Connect(true), Configure(saved), Execute(false), CloseConnection, Deinit]
    else if o.execute(x) then [Execute(true)]
    else [Execute(false), CloseConnection, Deinit]
  }

  lemma ExpectedAtStart(connected: bool)
    ensures Expected(Loop(if connected then 2 else 0, false, false, 0, 0, 0), if connected then 1 else 0)
  {
  }

  lemma SentLast(before: seq<Call>, o: Oracle, saved: seq<Option>, s: Loop)
    requires s.k == 2 && s.inits >= 0 && s.connects >= 0 && s.executes >= 0 && o.execute(s.executes)
    ensures var calls := before + Emitted(o, saved, s); calls != [] && calls[|calls| - 1] == Execute(true)
  {
  }

  lemma StartOfLoop(o: Oracle, saved: seq<Option>, connected: bool)
    ensures var s := Loop(if connected then 2 else 0, false, false, 0, 0, 0);
            Expected(s, if connected then 1 else 0) && Rest(o, saved, s) == Request(o, saved, connected)
  {
    hide Climb, Retry;
  }

  lemma LoopEnds(o: Oracle, saved: seq<Option>, s: Loop)
    requires s.k < 0 && s.connects >= 0 && s.executes >= 0
    ensures Rest(o, saved, s) == []
  {
  }

  // The loop gets closer to its end.
  lemma LoopAdvances(o: Oracle, saved: seq<Option>, s: Loop, base: int)
    requires 0 <= s.k && Expected(s, base)
    ensures s.inits >= 0 && s.connects >= 0 && s.executes >= 0
    ensures var t := Advance(o, s);
            (s.k == 2 && o.execute(s.executes)) || (Expected(t, base) && Rank(t) < Rank(s))
  {
  }

  // An iteration makes the first of the calls to come.
  ghost predicate FirstOfRest(o: Oracle, saved: seq<Option>, s: Loop)
    requires s.inits >= 0 && s.connects >= 0 && s.executes >= 0
  {
    var t, calls := Advance(o, s), Emitted(o, saved, s);
    && t.inits >= 0 && t.connects >= 0 && t.executes >= 0
    && Rest(o, saved, s) == if s.k == 2 && o.execute(s.executes) then calls else calls + Rest(o, saved, t)
  }

  lemma InitStep(o: Oracle, saved: seq<Option>, s: Loop, base: int)
    requires s.k == 0 && Expected(s, base)
    ensures FirstOfRest(o, saved, s)
  {
    hide Retry;
  }

  lemma ConnectStep(o: Oracle, saved: seq<Option>, s: Loop, base: int)
    requires s.k == 1 && Expected(s, base)
    ensures FirstOfRest(o, saved, s)
  {
    hide Climb, Retry, Rest;
    if s.st1 {
      DeinitRest(o, saved, s);
    } else if o.connect(s.connects) {
      ConnectedRest(o, saved, s);
    } else {
      FailedRest(o, saved, s);
    }
  }

  lemma DeinitRest(o: Oracle, saved: seq<Option>, s: Loop)
    requires s.k == 1 && s.st1 && s.connects >= 0 && s.executes >= 0
    ensures Rest(o, saved, s) == [Deinit] + Rest(o, saved, s.(k := 0, st1 := false))
  {
    hide Climb, Retry;
  }

  lemma FailedRest(o: Oracle, saved: seq<Option>, s: Loop)
    requires s.k == 1 && !s.st1 && s.connects >= 0 && s.executes >= 0 && !o.connect(s.connects)
    ensures Rest(o, saved, s)
         == [Connect(false), Deinit] + Rest(o, saved, s.(k := 0, connects := s.connects + 1))
  {
    hide Climb, Retry;
  }

  lemma ConnectedRest(o: Oracle, saved: seq<Option>, s: Loop)
    requires s.k == 1 && !s.st1 && s.connects >= 0 && s.executes >= 0 && o.connect(s.connects)
    ensures var t := s.(k := 2, st1 := true, connects := s.connects + 1);
            Rest(o, saved, s) == [Connect(true), Configure(saved)] + Rest(o, saved, t)
  {
    hide Climb, Retry;
    var x := s.executes;
    if !o.execute(x) && !s.st0 {
      Reassociate([Connect(true), Configure(saved)], [Execute(false), CloseConnection, Deinit],
              Climb(o, saved, 0, s.connects + 1, x + 1));
      assert [Connect(true), Configure(saved)] + [Execute(false), CloseConnection, Deinit]
          == [Connect(true), Configure(saved), Execute(false), CloseConnection, Deinit];
    }
  }

  lemma ExecuteStep(o: Oracle, saved: seq<Option>, s: Loop, base: int)
    requires s.k == 2 && Expected(s, base)
    ensures FirstOfRest(o, saved, s)
  {
    hide Climb;
  }

  lemma LoopStep(o: Oracle, saved: seq<Option>, s: Loop, base: int)
    requires 0 <= s.k && Expected(s, base)
    ensures s.inits >= 0 && s.connects >= 0 && s.executes >= 0 && FirstOfRest(o, saved, s)
  {
    hide Rest;
    if s.k == 0 {
      InitStep(o, saved, s, base);
    } else if s.k == 1 {
      ConnectStep(o, saved, s, base);
    } else {
      ExecuteStep(o, saved, s, base);
    }
  }
}
