/** When the readers of the HTTP stream succeed: which call of xio_dowork must have shown what, on any stream. */
module StreamTiming {
  import opened HttpStream

  // ----- What k calls of xio_dowork have shown -----

  function Taken(s: Source, k: nat): nat {
    if k < |s.upcoming| then k else |s.upcoming|
  }

  // The bytes that have arrived by then, and whether an I/O error has been signalled.
  function Shown(s: Source, k: nat): nat {
    |s.received| + |Deliveries(s.upcoming[..Taken(s, k)])|
  }

  ghost predicate Erred(s: Source, k: nat) {
    s.failed || exists i | 0 <= i < Taken(s, k) :: s.upcoming[i].failed
  }

  // One of the first `calls` calls shows n bytes, before any error.
  ghost predicate InTime(s: Source, n: int, calls: nat) {
    exists k: nat :: 1 <= k <= calls && Shown(s, k) >= n && !Erred(s, k)
  }

  lemma ShownFirst(s: Source)
    ensures Shown(s, 1) == |Poll(s).received| && (Erred(s, 1) <==> Poll(s).failed)
  {
    if s.upcoming != [] {
      var first := s.upcoming[..1];
      assert first == [s.upcoming[0]] && first[1..] == [];
      assert Deliveries(first) == s.upcoming[0].data + "";
    }
  }

  lemma ShownLater(s: Source, k: nat)
    ensures Shown(s, k + 1) == Shown(Poll(s), k) && (Erred(s, k + 1) <==> Erred(Poll(s), k))
  {
    var p, n := Poll(s), Taken(s, k + 1);
    if s.upcoming != [] {
      assert s.upcoming[..n][1..] == p.upcoming[..n - 1] && s.upcoming[..n][0] == s.upcoming[0];
      assert forall i | 0 <= i < n - 1 :: p.upcoming[i] == s.upcoming[i + 1];
      if Erred(s, k + 1) && !p.failed {
        var i :| 0 <= i < n && s.upcoming[i].failed;
        assert p.upcoming[i - 1].failed;
      }
    }
  }

  lemma InTimeFirst(s: Source, n: int, calls: nat)
    requires calls > 0
    ensures Poll(s).failed ==> !InTime(s, n, calls)
    ensures !Poll(s).failed && |Poll(s).received| >= n ==> InTime(s, n, calls)
  {
    ShownFirst(s);
    hide Shown, Poll;
    assert Erred(s, 1) ==> forall k | k >= 1 :: Erred(s, k);
  }

  lemma InTimeLater(s: Source, n: int, calls: nat)
    requires calls > 0 && !(|Poll(s).received| >= n && !Poll(s).failed)
    ensures InTime(s, n, calls) <==> InTime(Poll(s), n, calls - 1)
  {
    ShownFirst(s);
    hide Shown, Poll, Erred;
    if InTime(s, n, calls) {
      var k :| 1 <= k <= calls && Shown(s, k) >= n && !Erred(s, k);
      ShownLater(s, k - 1);
    }
    if InTime(Poll(s), n, calls - 1) {
      var k :| 1 <= k <= calls - 1 && Shown(Poll(s), k) >= n && !Erred(Poll(s), k);
      ShownLater(s, k);
    }
  }

  // Taking the received bytes away leaves that much less to wait for.
  lemma InTimeEmptied(s: Source, n: int, calls: nat)
    ensures InTime(s.(received := ""), n - |s.received|, calls) <==> InTime(s, n, calls)
  {
    var t := s.(received := "");
    assert forall k: nat :: Shown(s, k) == Shown(t, k) + |s.received|;
    assert forall k: nat :: Erred(s, k) <==> Erred(t, k);
    hide Shown, Erred;
  }

  // ----- The readers -----

  /**
   conn_receive has no budget: it succeeds if and only if some call shows the n bytes before any error, and it stops
   with the error if and only if one is signalled before that.
   */
  lemma {:induction false} ReceiveExactly(s: Source, n: nat)
    ensures Receive(s, n).0.Data? <==> InTime(s, n, |s.upcoming| + 1)
    ensures Receive(s, n).0.Failed? <==> !InTime(s, n, |s.upcoming| + 1) && Erred(s, |s.upcoming|)
    decreases |s.upcoming|
  {
    var p, calls := Poll(s), |s.upcoming| + 1;
    InTimeFirst(s, n, calls);
    ShownFirst(s);
    if !p.failed && |p.received| < n {
      InTimeLater(s, n, calls);
      if s.upcoming != [] {
        ReceiveExactly(p, n);
        ShownLater(s, calls - 2);
      }
    }
    hide Shown;
  }

  /** skipN discards n bytes if and only if they are shown, before any error, within its budget of calls. */
  lemma {:induction false} SkipExactly(s: Source, n: nat, retries: nat)
    ensures Skip(s, n, retries).0 <==> n == 0 || InTime(s, n, retries + 1)
    ensures Skip(s, n, retries).0 ==> n <= |Total(s)| && Total(Skip(s, n, retries).1) == Total(s)[n..]
    decreases retries
  {
    var p := Poll(s);
    if n > 0 {
      InTimeFirst(s, n, retries + 1);
      if !p.failed && |p.received| < n {
        InTimeLater(s, n, retries + 1);
        InTimeEmptied(p, n, retries);
        hide InTime, Poll;
        if retries > 0 {
          SkipExactly(p.(received := ""), n - |p.received|, retries - 1);
        } else {
          NoCallsLeft(p, n);
        }
      }
    }
  }

  lemma NoCallsLeft(s: Source, n: int)
    ensures !InTime(s, n, 0)
  {
  }

  lemma CRPlace(received: string, text: string, rest: string)
    requires received <= text + [CR] + rest && CR !in text
    ensures IndexOfCR(received) == if |received| <= |text| then |received| else |text|
  {
    var all, i := text + [CR] + rest, IndexOfCR(received);
    assert forall j | 0 <= j < |received| && j < |text| :: received[j] == all[j] == text[j] && text[j] in text;
    assert |received| > |text| ==> received[|text|] == all[|text|] == CR;
  }

  /**
   readLine returns the text in front of the next CR if and only if it is shorter than the limit and shown with its CR,
   before any error, within the budget of calls.
   */
  lemma {:induction false} ReadLineExactly(s: Source, line: string, text: string, rest: string, limit: nat, retries: nat)
    requires CR !in text && Total(s) == text + [CR] + rest && |line| < limit
    ensures ReadLine(s, line, limit, retries).0 ==
            if |line + text| < limit && InTime(s, |text| + 1, retries + 1) then Text(line + text) else NoLine
    decreases retries
  {
    hide Total, InTime, Poll, Deliveries;
    var p, n := Poll(s), |text| + 1;
    var r := p.received;
    InTimeFirst(s, n, retries + 1);
    if !p.failed {
      ReceivedIsPrefix(p, text + [CR] + rest);
      CRPlace(r, text, rest);
      if |r| >= n {
        TextIsThere(r, text, rest);
      } else {
        InTimeLater(s, n, retries + 1);
        if retries == 0 {
          NoCallsLeft(p, n);
        } else if |line + r| < limit {
          var later := text[|r|..];
          SplitText(r, later, line, text, rest);
          InTimeEmptied(p, n, retries);
          TotalEmptied(p, later + [CR] + rest, text + [CR] + rest);
          ReadLineExactly(p.(received := ""), line + r, later, rest, limit, retries - 1);
        }
      }
    }
  }

  lemma TextIsThere(r: string, text: string, rest: string)
    requires r <= text + [CR] + rest && |text| <= |r|
    ensures r[..|text|] == text
  {
    assert r[..|text|] == (text + [CR] + rest)[..|text|];
  }

  lemma SplitText(r: string, later: string, line: string, text: string, rest: string)
    requires r <= text + [CR] + rest && |r| <= |text| && later == text[|r|..]
    ensures text == r + later && line + text == (line + r) + later
    ensures text + [CR] + rest == r + (later + [CR] + rest)
  {
    assert r == (text + [CR] + rest)[..|r|];
  }

  lemma ReceivedIsPrefix(s: Source, all: string)
    requires Total(s) == all
    ensures s.received <= all
  {
  }

  lemma TotalEmptied(s: Source, later: string, all: string)
    requires Total(s) == all && all == s.received + later
    ensures Total(s.(received := "")) == later
  {
    assert all[|s.received|..] == later;
  }

  /** With the figures of the source: lines of at most 1022 characters, 201 calls of xio_dowork for each line or skip. */
  lemma Budget(s: Source, text: string, rest: string, n: nat)
    requires CR !in text && Total(s) == text + [CR] + rest
    ensures ReadLine(s, "", LINE_LIMIT, MAX_RECEIVE_RETRY).0 ==
            if |text| <= 1022 && InTime(s, |text| + 1, 201) then Text(text) else NoLine
    ensures Skip(s, n, MAX_RECEIVE_RETRY).0 <==> n == 0 || InTime(s, n, 201)
  {
    ReadLineExactly(s, "", text, rest, LINE_LIMIT, MAX_RECEIVE_RETRY);
    SkipExactly(s, n, MAX_RECEIVE_RETRY);
    assert "" + text == text;
    hide ReadLine, Skip, InTime;
  }
}
