/** What every request, and every run of a handle's life, does to the layer below. */
module HttpApiExRuns {
  import opened AssocLists
  import opened HttpApiEx

  // ----- The order of calls -----

  datatype Level = At(n: nat) | Illegal

  // 0: nothing held; 1: initialised; 2: connected.
  function Next(l: Level, c: Call): Level {
    if l.Illegal? then Illegal
    else
      match c
      case Init(ok) => if l.n == 0 then At(if ok then 1 else 0) else Illegal
      case Deinit => if l.n == 1 then At(0) else Illegal
      case Connect(ok) => if l.n == 1 then At(if ok then 2 else 1) else Illegal
      case CloseConnection => if l.n == 2 then At(1) else Illegal
      case _ => if l.n == 2 then l else Illegal
  }

  function LevelAfter(l: Level, calls: seq<Call>): Level
    decreases |calls|
  {
    if calls == [] then l else Next(LevelAfter(l, calls[..|calls| - 1]), calls[|calls| - 1])
  }

  lemma {:induction false} LevelAppend(l: Level, a: seq<Call>, b: seq<Call>)
    ensures LevelAfter(l, a + b) == LevelAfter(LevelAfter(l, a), b)
    decreases |b|
  {
    if b == [] {
      assert a + b == a;
    } else {
      assert (a + b)[..|a + b| - 1] == a + b[..|b| - 1];
      LevelAppend(l, a, b[..|b| - 1]);
    }
  }

  function Idle(connected: bool): Level {
    At(if connected then 2 else 0)
  }

  function Succeeded(calls: seq<Call>): bool {
    calls != [] && calls[|calls| - 1] == Execute(true)
  }

  lemma LevelStep(l: Level, calls: seq<Call>, c: Call)
    ensures LevelAfter(l, calls + [c]) == Next(LevelAfter(l, calls), c)
  {
    assert (calls + [c])[..|calls|] == calls;
  }

  lemma ClimbLevel(o: Oracle, saved: seq<Option>, i: nat, c: nat, x: nat)
    ensures var calls := Climb(o, saved, i, c, x);
            LevelAfter(At(0), calls) == Idle(Succeeded(calls))
  {
    var a := [Init(o.init(i))];
    LevelStep(At(0), [], a[0]);
    var b := a + [Connect(o.connect(c))];
    LevelStep(At(0), a, Connect(o.connect(c)));
    LevelStep(At(0), b, Deinit);
    var d := b + [Configure(saved)];
    LevelStep(At(0), b, Configure(saved));
    var e := d + [Execute(o.execute(x))];
    LevelStep(At(0), d, Execute(o.execute(x)));
    LevelStep(At(0), e, CloseConnection);
    LevelStep(At(0), e + [CloseConnection], Deinit);
    assert Climb(o, saved, i, c, x) ==
           if !o.init(i) then a
           else if !o.connect(c) then b + [Deinit]
           else if !o.execute(x) then e + [CloseConnection] + [Deinit]
           else e;
  }

  // The levels along a request on an open connection, up to the second Execute and what unwinds it.
  lemma RetryPath(o: Oracle, saved: seq<Option>)
    ensures var a := [Execute(o.execute(0))];
            var b := a + [CloseConnection] + [Connect(o.connect(0))];
            var e := b + [Configure(saved)] + [Execute(o.execute(1))];
            && LevelAfter(At(2), a) == At(2)
            && (!o.connect(0) ==> LevelAfter(At(2), b + [Deinit]) == At(0))
            && (o.connect(0) ==> LevelAfter(At(2), e) == At(2))
            && (o.connect(0) ==> LevelAfter(At(2), e + [CloseConnection] + [Deinit]) == At(0))
  {
    LevelOfNothing(At(2));
    hide LevelAfter;
    var a := [Execute(o.execute(0))];
    assert [] + a == a;
    LevelStep(At(2), [], a[0]);
    LevelStep(At(2), a, CloseConnection);
    var b := a + [CloseConnection] + [Connect(o.connect(0))];
    LevelStep(At(2), a + [CloseConnection], Connect(o.connect(0)));
    LevelStep(At(2), b, Deinit);
    var d := b + [Configure(saved)];
    LevelStep(At(2), b, Configure(saved));
    var e := d + [Execute(o.execute(1))];
    LevelStep(At(2), d, Execute(o.execute(1)));
    LevelStep(At(2), e, CloseConnection);
    LevelStep(At(2), e + [CloseConnection], Deinit);
  }

  lemma RetryIs(o: Oracle, saved: seq<Option>)
    ensures var a := [Execute(o.execute(0))];
            var b := a + [CloseConnection] + [Connect(o.connect(0))];
            var e := b + [Configure(saved)] + [Execute(o.execute(1))];
            Retry(o, saved) ==
              if o.execute(0) then a
              else if !o.connect(0) then (b + [Deinit]) + Climb(o, saved, 0, 1, 1)
              else if o.execute(1) then e
              else (e + [CloseConnection] + [Deinit]) + Climb(o, saved, 0, 1, 2)
  {
    hide Climb;
  }

  lemma SucceededAfter(calls: seq<Call>, more: seq<Call>)
    requires more != []
    ensures Succeeded(calls + more) == Succeeded(more)
  {
  }

  lemma RetryLevel(o: Oracle, saved: seq<Option>)
    ensures var calls := Retry(o, saved);
            LevelAfter(At(2), calls) == Idle(Succeeded(calls))
  {
    ClimbLevel(o, saved, 0, 1, 1);
    ClimbLevel(o, saved, 0, 1, 2);
    ClimbNonEmpty(o, saved, 1);
    ClimbNonEmpty(o, saved, 2);
    RetryPath(o, saved);
    RetryIs(o, saved);
    hide Climb, Retry, LevelAfter;
    var a := [Execute(o.execute(0))];
    var b := a + [CloseConnection] + [Connect(o.connect(0))];
    var e := b + [Configure(saved)] + [Execute(o.execute(1))];
    if !o.execute(0) && !o.connect(0) {
      LevelAppend(At(2), b + [Deinit], Climb(o, saved, 0, 1, 1));
      SucceededAfter(b + [Deinit], Climb(o, saved, 0, 1, 1));
    } else if !o.execute(0) && !o.execute(1) {
      LevelAppend(At(2), e + [CloseConnection] + [Deinit], Climb(o, saved, 0, 1, 2));
      SucceededAfter(e + [CloseConnection] + [Deinit], Climb(o, saved, 0, 1, 2));
    }
  }

  lemma ClimbNonEmpty(o: Oracle, saved: seq<Option>, x: nat)
    ensures Climb(o, saved, 0, 1, x) != []
  {
  }

  /**
   Every request respects the order Init, Connect, Execute, Close, Deinit: it starts from nothing or from an
   open connection, and ends with a connection exactly when its last Execute succeeded, else with nothing.
   */
  lemma RequestLevel(o: Oracle, saved: seq<Option>, connected: bool)
    ensures var calls := Request(o, saved, connected);
            LevelAfter(Idle(connected), calls) == Idle(Succeeded(calls))
  {
    if connected {
      RetryLevel(o, saved);
    } else {
      ClimbLevel(o, saved, 0, 0, 0);
    }
  }

  // ----- How often each step is attempted -----

  function Inits(calls: seq<Call>): nat {
    multiset(calls)[Init(true)] + multiset(calls)[Init(false)]
  }
  function Connects(calls: seq<Call>): nat {
    multiset(calls)[Connect(true)] + multiset(calls)[Connect(false)]
  }
  function Executes(calls: seq<Call>): nat {
    multiset(calls)[Execute(true)] + multiset(calls)[Execute(false)]
  }

  lemma ClimbAttempts(o: Oracle, saved: seq<Option>, i: nat, c: nat, x: nat)
    ensures var calls := Climb(o, saved, i, c, x);
            && Inits(calls) == 1
            && Connects(calls) == (if o.init(i) then 1 else 0)
            && Executes(calls) == (if o.init(i) && o.connect(c) then 1 else 0)
  {
    ClimbShapes(saved);
    hide Inits, Connects, Executes;
  }

  lemma ClimbShapes(saved: seq<Option>)
    ensures var calls := [Init(false)]; Inits(calls) == 1 && Connects(calls) == 0 && Executes(calls) == 0
    ensures var calls := [Init(true), Connect(false), Deinit];
            Inits(calls) == 1 && Connects(calls) == 1 && Executes(calls) == 0
    ensures var calls := [Init(true), Connect(true), Configure(saved), Execute(false), CloseConnection, Deinit];
            Inits(calls) == 1 && Connects(calls) == 1 && Executes(calls) == 1
    ensures var calls := [Init(true), Connect(true), Configure(saved), Execute(true)];
            Inits(calls) == 1 && Connects(calls) == 1 && Executes(calls) == 1
  {
  }

  lemma AttemptsAdd(a: seq<Call>, b: seq<Call>)
    ensures Inits(a + b) == Inits(a) + Inits(b)
    ensures Connects(a + b) == Connects(a) + Connects(b)
    ensures Executes(a + b) == Executes(a) + Executes(b)
  {
  }

  lemma RetryAttempts(o: Oracle, saved: seq<Option>)
    ensures var calls := Retry(o, saved);
            && Inits(calls) <= 1 && Connects(calls) <= 2 && Executes(calls) <= 3
            && (Executes(calls) == 3 <==>
                !o.execute(0) && o.connect(0) && !o.execute(1) && o.init(0) && o.connect(1))
  {
    hide Climb, Inits, Connects, Executes;
    RetryShapes(saved);
    ClimbAttempts(o, saved, 0, 1, 1);
    ClimbAttempts(o, saved, 0, 1, 2);
    AttemptsAdd([Execute(false), CloseConnection, Connect(false), Deinit], Climb(o, saved, 0, 1, 1));
    AttemptsAdd([Execute(false), CloseConnection, Connect(true), Configure(saved), Execute(false), CloseConnection, Deinit],
                Climb(o, saved, 0, 1, 2));
  }

  lemma RetryShapes(saved: seq<Option>)
    ensures var calls := [Execute(true)]; Inits(calls) == 0 && Connects(calls) == 0 && Executes(calls) == 1
    ensures var calls := [Execute(false), CloseConnection, Connect(false), Deinit];
            Inits(calls) == 0 && Connects(calls) == 1 && Executes(calls) == 1
    ensures var calls := [Execute(false), CloseConnection, Connect(true), Configure(saved), Execute(true)];
            Inits(calls) == 0 && Connects(calls) == 1 && Executes(calls) == 2
    ensures var calls := [Execute(false), CloseConnection, Connect(true), Configure(saved), Execute(false), CloseConnection, Deinit];
            Inits(calls) == 0 && Connects(calls) == 1 && Executes(calls) == 2
  {
    hide Inits, Connects, Executes;
    LongestAttempts(saved);
    ShortAttempts(saved);
  }

  lemma ShortAttempts(saved: seq<Option>)
    ensures var calls := [Execute(true)]; Inits(calls) == 0 && Connects(calls) == 0 && Executes(calls) == 1
    ensures var calls := [Execute(false), CloseConnection, Connect(false), Deinit];
            Inits(calls) == 0 && Connects(calls) == 1 && Executes(calls) == 1
    ensures var calls := [Execute(false), CloseConnection, Connect(true), Configure(saved), Execute(true)];
            Inits(calls) == 0 && Connects(calls) == 1 && Executes(calls) == 2
  {
  }

  lemma LongestAttempts(saved: seq<Option>)
    ensures var calls := [Execute(false), CloseConnection, Connect(true), Configure(saved), Execute(false), CloseConnection, Deinit];
            Inits(calls) == 0 && Connects(calls) == 1 && Executes(calls) == 2
  {
  }

  /**
   One request makes at most one Init, two CreateConnection and three ExecuteRequest attempts, and at most one
   of each when it starts without a connection. Three sends happen in exactly one case, although the
   requirement quoted in the code allows each step one retry.
   */
  lemma RequestAttempts(o: Oracle, saved: seq<Option>, connected: bool)
    ensures var calls := Request(o, saved, connected);
            && Inits(calls) <= 1 && Connects(calls) <= 2 && Executes(calls) <= 3
            && (!connected ==> Connects(calls) <= 1 && Executes(calls) <= 1)
            && (Executes(calls) == 3 <==>
                connected && !o.execute(0) && o.connect(0) && !o.execute(1) && o.init(0) && o.connect(1))
  {
    hide Climb, Retry, Inits, Connects, Executes;
    RetryAttempts(o, saved);
    ClimbAttempts(o, saved, 0, 0, 0);
  }

  // ----- Resource balance -----

  // What a legal sequence of calls holds is what it acquired and did not release.
  lemma {:induction false} Balance(l: nat, calls: seq<Call>)
    requires l <= 2 && LevelAfter(At(l), calls).At?
    ensures var n, m := LevelAfter(At(l), calls).n, multiset(calls);
            && n <= 2
            && m[Init(true)] + (if l >= 1 then 1 else 0) == m[Deinit] + (if n >= 1 then 1 else 0)
            && m[Connect(true)] + (if l == 2 then 1 else 0) == m[CloseConnection] + (if n == 2 then 1 else 0)
    decreases |calls|
  {
    if calls != [] {
      var before, c := calls[..|calls| - 1], calls[|calls| - 1];
      assert calls == before + [c];
      Balance(l, before);
    }
  }

  // ----- Whole runs of a handle -----

  datatype Action =
    | DoRequest(validType: bool, built: bool, o: Oracle)
    | DoSetOption(option: Option, clone: Reply, memory: bool, reply: Reply)

  function Act(h: Handle, a: Action): (Handle, seq<Call>) {
    match a
    case DoRequest(validType, built, o) =>
      if !validType || !built then (h, [])
      else
        var calls := Request(o, h.saved, h.connected);
        (h.(connected := Succeeded(calls)), calls)
    case DoSetOption(option, clone, memory, _) => ActSetOption(h, option, clone, memory)
  }

  function Run(h: Handle, actions: seq<Action>): (Handle, seq<Call>)
    decreases |actions|
  {
    if actions == [] then (h, [])
    else
      var (h', calls) := Run(h, actions[..|actions| - 1]);
      var (h'', more) := Act(h', actions[|actions| - 1]);
      (h'', calls + more)
  }

  const NEW_HANDLE := Handle(false, [])

  lemma LevelOfNothing(l: Level)
    ensures LevelAfter(l, []) == l
  {
  }

  lemma SetOptionLevel(h: Handle, option: Option, clone: Reply, memory: bool)
    ensures LevelAfter(Idle(h.connected), ActSetOption(h, option, clone, memory).1) == Idle(h.connected)
  {
    var more := ActSetOption(h, option, clone, memory).1;
    if more != [] {
      LevelStep(Idle(h.connected), [], more[0]);
    }
  }

  /** Between any two actions of any run, exactly what `connected` says is held, in the right order. */
  lemma {:induction false} RunLevel(actions: seq<Action>)
    ensures var (h, calls) := Run(NEW_HANDLE, actions);
            LevelAfter(At(0), calls) == Idle(h.connected)
    decreases |actions|
  {
    hide Request, LevelAfter;
    if actions == [] {
      LevelOfNothing(At(0));
    } else {
      var before, a := actions[..|actions| - 1], actions[|actions| - 1];
      RunLevel(before);
      var (h, calls) := Run(NEW_HANDLE, before);
      var more := Act(h, a).1;
      LevelAppend(At(0), calls, more);
      if a.DoRequest? {
        RequestLevel(a.o, h.saved, h.connected);
      } else {
        SetOptionLevel(h, a.option, a.clone, a.memory);
      }
      if more == [] {
        assert calls + more == calls;
      }
    }
  }

  lemma TeardownLevel(connected: bool)
    ensures LevelAfter(Idle(connected), Teardown(connected)) == At(0)
  {
    LevelStep(At(2), [], CloseConnection);
    LevelStep(At(2), [CloseConnection], Deinit);
    assert Teardown(true) == [CloseConnection] + [Deinit];
  }

  /** After any run, HTTPAPIEX_Destroy leaves nothing initialised and no connection open. */
  lemma DestroyReleasesAll(actions: seq<Action>)
    ensures var (h, calls) := Run(NEW_HANDLE, actions);
            var all := calls + Teardown(h.connected);
            && LevelAfter(At(0), all) == At(0)
            && multiset(all)[Init(true)] == multiset(all)[Deinit]
            && multiset(all)[Connect(true)] == multiset(all)[CloseConnection]
  {
    hide Run;
    RunLevel(actions);
    var (h, calls) := Run(NEW_HANDLE, actions);
    LevelAppend(At(0), calls, Teardown(h.connected));
    TeardownLevel(h.connected);
    hide LevelAfter, Teardown;
    Balance(0, calls + Teardown(h.connected));
  }

  // ----- The options of the current connection -----

  function AsMap(saved: seq<Option>): map<string, string> {
    if saved == [] then map[] else AsMap(saved[..|saved| - 1])[saved[|saved| - 1].key := saved[|saved| - 1].value]
  }

  function Reconfigure(before: map<string, string>, c: Call): map<string, string> {
    match c
    case Connect(_) => map[]
    case Configure(options) => before + AsMap(options)
    case SetOption(option) => before[option.key := option.value]
    case _ => before
  }

  // What has been set on the connection made last.
  function Configured(calls: seq<Call>): map<string, string>
    decreases |calls|
  {
    if calls == [] then map[]
    else
      Reconfigure(Configured(calls[..|calls| - 1]), calls[|calls| - 1])
  }

  ghost predicate Distinct(saved: seq<Option>) {
    forall i, j | 0 <= i < j < |saved| :: saved[i].key != saved[j].key
  }

  lemma {:induction false} AsMapUpdate(saved: seq<Option>, i: nat, option: Option)
    requires i < |saved| && saved[i].key == option.key && Distinct(saved)
    ensures AsMap(saved[i := option]) == AsMap(saved)[option.key := option.value]
    decreases |saved|
  {
    var front, last := saved[..|saved| - 1], saved[|saved| - 1];
    var updated := saved[i := option];
    if i == |saved| - 1 {
      assert updated[..|saved| - 1] == front;
    } else {
      assert updated[..|saved| - 1] == front[i := option];
      AsMapUpdate(front, i, option);
    }
  }

  lemma SaveIsUpdate(saved: seq<Option>, option: Option)
    requires Distinct(saved)
    ensures Distinct(Save(saved, option))
    ensures AsMap(Save(saved, option)) == AsMap(saved)[option.key := option.value]
  {
    var i := IndexOf(saved, option.key);
    if i < |saved| {
      AsMapUpdate(saved, i, option);
    } else {
      assert (saved + [option])[..|saved|] == saved;
    }
  }

  lemma ConfiguredStep(calls: seq<Call>, c: Call)
    ensures Configured(calls + [c]) == Reconfigure(Configured(calls), c)
  {
    assert (calls + [c])[..|calls|] == calls;
  }

  // A request that ends connected has either kept the connection or configured a new one.
  lemma RequestConfigures(calls: seq<Call>, o: Oracle, saved: seq<Option>, connected: bool)
    requires connected ==> Configured(calls) == AsMap(saved)
    ensures var more := Request(o, saved, connected);
            Succeeded(more) ==> Configured(calls + more) == AsMap(saved)
  {
    hide Retry, Climb;
    var more := Request(o, saved, connected);
    if |more| > 1 && Succeeded(more) {
      EndsConfigured(o, saved, connected);
    }
    SingleIsKept(o, saved, connected);
    hide Request;
    if Succeeded(more) {
      var n := |more|;
      var all := calls + more;
      assert all == (calls + more[..n - 1]) + [Execute(true)];
      ConfiguredStep(calls + more[..n - 1], Execute(true));
      if n == 1 {
        assert calls + more[..0] == calls;
      } else {
        assert calls + more[..n - 1] == (calls + more[..n - 2]) + [Configure(saved)];
        assert calls + more[..n - 2] == (calls + more[..n - 3]) + [Connect(true)];
        ConfiguredStep(calls + more[..n - 2], Configure(saved));
        ConfiguredStep(calls + more[..n - 3], Connect(true));
      }
    }
  }

  lemma SingleIsKept(o: Oracle, saved: seq<Option>, connected: bool)
    ensures var more := Request(o, saved, connected);
            |more| == 1 && Succeeded(more) ==> connected
  {
  }

  lemma EndsConfigured(o: Oracle, saved: seq<Option>, connected: bool)
    requires Succeeded(Request(o, saved, connected)) && |Request(o, saved, connected)| > 1
    ensures var more := Request(o, saved, connected);
            |more| >= 3 && more[|more| - 2] == Configure(saved) && more[|more| - 3] == Connect(true)
  {
  }

  /** Whenever a run leaves a connection open, every saved option has been set on it, with its latest value. */
  lemma {:induction false} OptionsReachConnection(actions: seq<Action>)
    ensures var (h, calls) := Run(NEW_HANDLE, actions);
            Distinct(h.saved) && (h.connected ==> Configured(calls) == AsMap(h.saved))
    decreases |actions|
  {
    hide Request;
    if actions != [] {
      var before, a := actions[..|actions| - 1], actions[|actions| - 1];
      OptionsReachConnection(before);
      var (h, calls) := Run(NEW_HANDLE, before);
      assert calls + [] == calls;
      match a {
        case DoRequest(_, _, o) =>
          RequestConfigures(calls, o, h.saved, h.connected);
        case DoSetOption(option, _, _, _) =>
          SaveIsUpdate(h.saved, option);
          ConfiguredStep(calls, Call.SetOption(option));
      }
    }
  }

  /**
   An option takes effect if and only if its value can be copied and, for a new name, there is memory for it: then it is
   what the handle has saved under the name, and an open connection is given it at once.
   */
  lemma OptionTakesEffect(h: Handle, option: Option, clone: Reply, memory: bool)
    requires Distinct(h.saved)
    ensures var (h', calls) := ActSetOption(h, option, clone, memory);
            if clone == Accepted && (option.key in AsMap(h.saved) || memory) then
              && AsMap(h'.saved) == AsMap(h.saved)[option.key := option.value] && h'.connected == h.connected
              && calls == (if h.connected then [Call.SetOption(option)] else [])
            else (h', calls) == (h, [])
  {
    SavedKeys(h.saved, option.key);
    SaveIsUpdate(h.saved, option);
    hide AsMap, Distinct;
  }

  lemma {:induction false} SavedKeys(saved: seq<Option>, key: string)
    ensures key in AsMap(saved) <==> IndexOf(saved, key) < |saved|
    decreases |saved|
  {
    if saved != [] {
      var n := |saved| - 1;
      SavedKeys(saved[..n], key);
      var i := IndexOf(saved[..n], key);
      IndexIs(saved, key, if i < n then i else if saved[n].key == key then n else n + 1);
    }
  }

  lemma RequestCalls(o: Oracle, saved: seq<Option>, connected: bool)
    ensures Request(o, saved, connected) != []
  {
  }

  /** A handle driven through any actions and destroyed makes the calls of Run, and leaves nothing acquired. */
  method Play(actions: seq<Action>) returns (handle: Handle, calls: seq<Call>)
    ensures handle == Run(NEW_HANDLE, actions).0
    ensures calls == Run(NEW_HANDLE, actions).1 + Teardown(handle.connected)
    ensures LevelAfter(At(0), calls) == At(0)
  {
    hide Request, LevelAfter, ActSetOption, Teardown;
    var sender := new Sender();
    for i := 0 to |actions|
      invariant sender.Idle()
      invariant (Handle(sender.connected, sender.savedOptions), sender.calls) == Run(NEW_HANDLE, actions[..i])
    {
      assert actions[..i + 1][..i] == actions[..i];
      assert sender.calls + [] == sender.calls;
      match actions[i] {
        case DoRequest(validType, built, o) =>
          RequestCalls(o, sender.savedOptions, sender.connected);
          SucceededAfter(sender.calls, Request(o, sender.savedOptions, sender.connected));
          var _ := sender.ExecuteRequest(validType, built, o);
        case DoSetOption(option, clone, memory, reply) =>
          var _ := sender.SetOption(option, clone, memory, reply);
      }
    }
    assert actions[..|actions|] == actions;
    handle := Handle(sender.connected, sender.savedOptions);
    sender.Destroy();
    calls := sender.calls;
    DestroyReleasesAll(actions);
  }
}
