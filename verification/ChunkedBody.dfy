/** Chunked decoding inverts chunked encoding (section 4.1 of RFC 7230): exactly when, and what is lost otherwise. */
module ChunkedBody {
  import opened HttpStream
  import opened Words

  // ----- The encoding: any hexadecimal size line, with an extension if it likes; no trailers -----

  datatype Chunk = Chunk(line: string, data: string)

  ghost predicate SizeLine(line: string, n: nat) {
    |line| < LINE_LIMIT && CR !in line && ParseHex(line) == Number(n)
  }

  ghost predicate WellFormed(c: Chunk) {
    0 < |c.data| < TWO_31 && SizeLine(c.line, |c.data|)
  }

  function Encode(cs: seq<Chunk>, last: string): string {
    if cs == [] then last + CRLF + CRLF
    else cs[0].line + CRLF + (cs[0].data + CRLF + Encode(cs[1..], last))
  }

  function AllData(cs: seq<Chunk>): string {
    if cs == [] then "" else cs[0].data + AllData(cs[1..])
  }

  // ----- When the pieces arrive; only the lengths of the fragments matter -----

  // No I/O error is ever signalled.
  ghost predicate Clean(s: Source) {
    !s.failed && forall w | w in s.upcoming :: !w.failed
  }

  datatype Arrival = OnTime(after: Source) | Cut(after: Source) | Late

  // The first poll that shows the CR after an n-byte line shows the LF as well, or not, or comes too late.
  function LineArrival(s: Source, n: nat, retries: nat): Arrival
    decreases retries
  {
    var p := Poll(s);
    if |p.received| > n + 1 then OnTime(p.(received := p.received[n + 2..]))
    else if |p.received| == n + 1 then Cut(p.(received := ""))
    else if retries == 0 then Late
    else LineArrival(p, n, retries - 1)
  }

  // The poll that brings the n-th byte of discarded data.
  function SkipArrival(s: Source, n: nat, retries: nat): Arrival
    decreases retries
  {
    var p := Poll(s);
    if |p.received| >= n then OnTime(p.(received := p.received[n..]))
    else if retries == 0 then Late
    else SkipArrival(p, n, retries - 1)
  }

  /**
   No size line is split between its CR and its LF by the end of what has arrived when the line is
   scanned, and every size line, and all discarded data, arrives within the retry budget.
   */
  function AllOnTime(s: Source, cs: seq<Chunk>, last: string, keep: bool): bool
    decreases |cs|
  {
    var line := LineArrival(s, |if cs == [] then last else cs[0].line|, MAX_RECEIVE_RETRY);
    if !line.OnTime? then false
    else if cs == [] then true
    else if keep then AllOnTime(Receive(Receive(line.after, |cs[0].data|).1, 2).1, cs[1..], last, keep)
    else
      var data := SkipArrival(line.after, |cs[0].data|, MAX_RECEIVE_RETRY);
      data.OnTime? && AllOnTime(Receive(data.after, 2).1, cs[1..], last, keep)
  }

  // The same fragments as far as their lengths and the error signals go, whatever bytes they carry.
  ghost predicate SameShape(s: Source, t: Source) {
    && |s.received| == |t.received| && s.failed == t.failed && |s.upcoming| == |t.upcoming|
    && forall i | 0 <= i < |s.upcoming| ::
         |s.upcoming[i].data| == |t.upcoming[i].data| && s.upcoming[i].failed == t.upcoming[i].failed
  }

  ghost predicate SameArrival(a: Arrival, b: Arrival) {
    match a
    case OnTime(s) => b.OnTime? && SameShape(s, b.after)
    case Cut(s) => b.Cut? && SameShape(s, b.after)
    case Late => b.Late?
  }

  lemma PollShape(s: Source, t: Source)
    requires SameShape(s, t)
    ensures SameShape(Poll(s), Poll(t))
  {
  }

  lemma {:induction false} LineArrivalShape(s: Source, t: Source, n: nat, retries: nat)
    requires SameShape(s, t)
    ensures SameArrival(LineArrival(s, n, retries), LineArrival(t, n, retries))
    decreases retries
  {
    hide Poll;
    PollShape(s, t);
    if |Poll(s).received| <= n && retries != 0 {
      LineArrivalShape(Poll(s), Poll(t), n, retries - 1);
    }
  }

  lemma {:induction false} SkipArrivalShape(s: Source, t: Source, n: nat, retries: nat)
    requires SameShape(s, t)
    ensures SameArrival(SkipArrival(s, n, retries), SkipArrival(t, n, retries))
    decreases retries
  {
    hide Poll;
    PollShape(s, t);
    if |Poll(s).received| < n && retries != 0 {
      SkipArrivalShape(Poll(s), Poll(t), n, retries - 1);
    }
  }

  lemma {:induction false} ReceiveShape(s: Source, t: Source, n: nat)
    requires SameShape(s, t)
    ensures SameShape(Receive(s, n).1, Receive(t, n).1)
    decreases |s.upcoming|
  {
    PollShape(s, t);
    if s.upcoming != [] {
      ReceiveShape(Poll(s), Poll(t), n);
    }
    hide Poll;
  }

  // The same lengths of size lines and of data.
  ghost predicate SameLengths(cs: seq<Chunk>, ds: seq<Chunk>) {
    |cs| == |ds| && forall i | 0 <= i < |cs| :: |cs[i].line| == |ds[i].line| && |cs[i].data| == |ds[i].data|
  }

  /** Being on time is a matter of lengths alone: of the fragments, of the size lines and of the data. */
  lemma {:induction false} OnlyLengthsMatter(s: Source, t: Source, cs: seq<Chunk>, ds: seq<Chunk>,
                                             last: string, end: string, keep: bool)
    requires SameShape(s, t) && SameLengths(cs, ds) && |last| == |end|
    ensures AllOnTime(s, cs, last, keep) == AllOnTime(t, ds, end, keep)
    decreases |cs|
  {
    hide LineArrival, SkipArrival, Receive, SameShape;
    LineArrivalShape(s, t, |if cs == [] then last else cs[0].line|, MAX_RECEIVE_RETRY);
    if cs != [] {
      var n := |cs[0].data|;
      var a := LineArrival(s, |cs[0].line|, MAX_RECEIVE_RETRY);
      var b := LineArrival(t, |ds[0].line|, MAX_RECEIVE_RETRY);
      if a.OnTime? {
        SkipArrivalShape(a.after, b.after, n, MAX_RECEIVE_RETRY);
        ReceiveShape(a.after, b.after, n);
        var c, d := SkipArrival(a.after, n, MAX_RECEIVE_RETRY), SkipArrival(b.after, n, MAX_RECEIVE_RETRY);
        if keep {
          ReceiveShape(Receive(a.after, n).1, Receive(b.after, n).1, 2);
          OnlyLengthsMatter(Receive(Receive(a.after, n).1, 2).1, Receive(Receive(b.after, n).1, 2).1,
                            cs[1..], ds[1..], last, end, keep);
        } else if c.OnTime? {
          ReceiveShape(c.after, d.after, 2);
          OnlyLengthsMatter(Receive(c.after, 2).1, Receive(d.after, 2).1, cs[1..], ds[1..], last, end, keep);
        }
      }
    }
  }

  // ----- What the primitives do on a clean stream -----

  lemma PollClean(s: Source)
    requires Clean(s)
    ensures Clean(Poll(s))
  {
  }

  lemma {:induction false} ReceiveClean(s: Source, n: nat)
    requires Clean(s) && n <= |Total(s)|
    ensures var (r, t) := Receive(s, n);
            r == Data(Total(s)[..n]) && Total(t) == Total(s)[n..] && Clean(t)
    decreases |s.upcoming|
  {
    PollClean(s);
    var p := Poll(s);
    if |p.received| < n && s.upcoming != [] {
      ReceiveClean(p, n);
    }
  }

  lemma {:induction false} SkipClean(s: Source, before: string, n: nat, retries: nat)
    requires Clean(s) && 0 < n <= |Total(s)|
    ensures var v := s.(received := before + s.received);
            var a := SkipArrival(v, |before| + n, retries);
            var (ok, t) := Skip(s, n, retries);
            && ok == a.OnTime? && !a.Cut?
            && (ok ==> t == a.after && Total(t) == Total(s)[n..] && Clean(t))
    decreases retries
  {
    PollClean(s);
    var v := s.(received := before + s.received);
    var p := Poll(s);
    assert Poll(v).received == before + p.received && Poll(v).upcoming == p.upcoming;
    if |p.received| >= n {
      assert (before + p.received)[|before| + n..] == p.received[n..];
    } else if retries != 0 {
      var q := p.(received := "");
      assert Total(s) == p.received + Total(q);
      assert (before + p.received) + "" == before + p.received;
      SkipClean(q, before + p.received, n - |p.received|, retries - 1);
      assert Total(q)[n - |p.received|..] == Total(s)[n..];
    }
  }

  lemma {:induction false} FirstCR(s: string, n: nat)
    requires n <= |s| && CR !in s[..n] && (n < |s| ==> s[n] == CR)
    ensures IndexOfCR(s) == n
  {
    if n > 0 {
      assert s[0] in s[..n];
      assert s[1..][..n - 1] == s[..n][1..];
      FirstCR(s[1..], n - 1);
    }
  }

  /** readLine on a clean stream whose next line is `text`: the line is read in full unless it comes late. */
  lemma {:induction false} ReadLineClean(s: Source, line: string, text: string, rest: string, retries: nat)
    requires Clean(s) && |text| < LINE_LIMIT && CR !in text && |line| <= |text|
    requires line + Total(s) == text + (CRLF + rest)
    ensures var a := LineArrival(s.(received := line + s.received), |text|, retries);
            var (r, t) := ReadLine(s, line, LINE_LIMIT, retries);
            match a
            case OnTime(after) => r == Text(text) && t == after && Total(t) == rest && Clean(t)
            case Cut(after) => r == Text(text) && Total(t) == [LF] + rest && Clean(t)
            case Late => r == NoLine
    decreases retries
  {
    var v := s.(received := line + s.received);
    var p := Poll(s);
    var more := Deliveries(p.upcoming);
    var seen := line + p.received;
    PollWith(s, line, text + (CRLF + rest));
    LinePrefix(seen, more, text, rest);
    hide Poll, Deliveries;
    if |seen| <= |text| {
      NoCRIn(p.received, line, text);
      hide IndexOfCR;
      if retries != 0 {
        var q := p.(received := "");
        assert Total(q) == more by {
          assert "" + more == more;
        }
        assert seen + "" == seen;
        ReadLineClean(q, seen, text, rest, retries - 1);
      }
    } else {
      FoundCR(p.received, line, text, rest, more);
    }
  }

  // A poll seen with the part of a line read before it.
  lemma PollWith(s: Source, line: string, all: string)
    requires Clean(s) && line + Total(s) == all
    ensures var p, v := Poll(s), s.(received := line + s.received);
            && Clean(p) && (line + p.received) + Deliveries(p.upcoming) == all
            && Poll(v) == p.(received := line + p.received)
  {
    PollClean(s);
    var p := Poll(s);
    assert Total(p) == Total(s);
    assert (line + p.received) + Deliveries(p.upcoming) == line + Total(p);
    if s.upcoming != [] {
      assert (line + s.received) + s.upcoming[0].data == line + p.received;
    }
  }

  // The buffered bytes r end the line: where its CR is, and what follows.
  lemma FoundCR(r: string, line: string, text: string, rest: string, more: string)
    requires CR !in text && |line| <= |text| < |line + r|
    requires (line + r) + more == text + (CRLF + rest)
    ensures var i := IndexOfCR(r);
            && i == |text| - |line| && line + r[..i] == text
            && (|line + r| > |text| + 1 ==>
                LineEnd(r, i) == i + 2 && r[i + 2..] == (line + r)[|text| + 2..] && r[i + 2..] + more == rest)
            && (|line + r| == |text| + 1 ==> LineEnd(r, i) == |r| && more == [LF] + rest)
  {
    var seen, i := line + r, |text| - |line|;
    LinePrefix(seen, more, text, rest);
    assert r[..i] == text[|line|..] by { assert seen[..|text|] == text; }
    assert r[i] == seen[|text|] == CR;
    FirstCR(r, i);
    if |seen| > |text| + 1 {
      assert r[i + 1] == seen[|text| + 1] == LF;
      assert seen[|text| + 2..] + more == (seen + more)[|text| + 2..] == rest;
    } else {
      assert more == (seen + more)[|text| + 1..] == [LF] + rest;
    }
  }

  lemma LinePrefix(seen: string, more: string, text: string, rest: string)
    requires seen + more == text + (CRLF + rest)
    ensures |seen| <= |text| ==> seen == text[..|seen|]
    ensures |seen| > |text| ==> seen[..|text|] == text && seen[|text|] == CR
    ensures |seen| > |text| + 1 ==> seen[|text| + 1] == LF
  {
    var all := seen + more;
    assert seen == all[..|seen|];
    assert text == all[..|text|];
    if |seen| > |text| {
      assert seen[|text|] == all[|text|];
      if |seen| > |text| + 1 {
        assert seen[|text| + 1] == all[|text| + 1];
      }
    }
  }

  lemma NoCRIn(r: string, line: string, text: string)
    requires |line + r| <= |text| && line + r == text[..|line + r|] && CR !in text
    ensures IndexOfCR(r) == |r|
  {
    var seen := line + r;
    forall j | 0 <= j < |r|
      ensures r[j] != CR
    {
      assert r[j] == seen[|line| + j] == text[|line| + j];
    }
    FirstCR(r, |r|);
  }

  // ----- One chunk -----

  lemma CrlfClean(s: Source, rest: string)
    requires Clean(s) && |Total(s)| >= 2 && Total(s)[2..] == rest
    ensures var (r, t) := ReadCrlf(s);
            && r == (if Total(s)[..2] == CRLF then Ok else ReadDataFailed)
            && t == Receive(s, 2).1 && Total(t) == rest && Clean(t)
  {
    ReceiveClean(s, 2);
    assert AsInt(2) == 2;
  }

  // Data of fewer than 2^31 bytes that is there in full, on its way to the sink.
  lemma TakeClean(s: Source, n: nat, sink: Sink, size: nat, canAlloc: nat -> bool, junk: char)
    requires Clean(s) && 0 < n < TWO_31 && n <= |Total(s)|
    requires forall k :: canAlloc(k)
    requires sink.Keep? ==> size <= sink.buffer.Size()
    ensures var (r, sink', t) := TakeData(s, sink, size, n, canAlloc, junk);
            && r == (if sink.Keep? || SkipArrival(s, n, MAX_RECEIVE_RETRY).OnTime? then Ok else ReadDataFailed)
            && (r.Ok? ==> Total(t) == Total(s)[n..] && Clean(t))
            && (sink.Discard? ==> sink' == Discard && (r.Ok? ==> t == SkipArrival(s, n, MAX_RECEIVE_RETRY).after))
            && (sink.Keep? ==> sink' == Keep(sink.buffer.Enlarge(n, junk).Store(size, Total(s)[..n])) && t == Receive(s, n).1)
  {
    hide Receive, Skip, SkipArrival, Total, Clean, AsInt;
    SmallCast(n);
    if sink.Keep? {
      ReceiveClean(s, n);
    } else {
      assert s.(received := "" + s.received) == s;
      SkipClean(s, "", n, MAX_RECEIVE_RETRY);
    }
  }

  lemma SmallCast(n: nat)
    requires n < TWO_31
    ensures AsInt(n) == n
  {
  }

  /**
   A size line cut off after its CR: the LF is taken for the first byte of data, and the check for CRLF
   after the data then sees the last data byte and the CR.
   */
  lemma CutChunkFails(t: Source, data: string, rest: string, sink: Sink, size: nat, canAlloc: nat -> bool, junk: char)
    requires Clean(t) && 0 < |data| < TWO_31 && Total(t) == [LF] + (data + (CRLF + rest))
    requires forall k :: canAlloc(k)
    requires sink.Keep? ==> size <= sink.buffer.Size()
    ensures var (r, sink', u) := TakeData(t, sink, size, |data|, canAlloc, junk);
            r == ReadDataFailed || (r == Ok && ReadCrlf(u).0 == ReadDataFailed)
  {
    var n := |data|;
    TakeClean(t, n, sink, size, canAlloc, junk);
    var (r, sink', u) := TakeData(t, sink, size, n, canAlloc, junk);
    if r.Ok? {
      assert Total(u)[1] == Total(t)[n + 1] == CR;
      CrlfClean(u, Total(u)[2..]);
      assert Total(u)[..2][1] != CRLF[1];
    }
  }

  /** A whole chunk read on time leaves the stream at the next one. */
  lemma ChunkClean(t: Source, data: string, rest: string, sink: Sink, size: nat, canAlloc: nat -> bool, junk: char)
    requires Clean(t) && 0 < |data| < TWO_31 && Total(t) == data + (CRLF + rest)
    requires forall k :: canAlloc(k)
    requires sink.Keep? ==> size <= sink.buffer.Size()
    ensures var (r, sink', u) := TakeData(t, sink, size, |data|, canAlloc, junk);
            var a := SkipArrival(t, |data|, MAX_RECEIVE_RETRY);
            && (sink.Discard? && !a.OnTime? ==> r == ReadDataFailed)
            && (sink.Keep? || a.OnTime? ==>
                  && r == Ok
                  && u == (if sink.Keep? then Receive(t, |data|).1 else a.after)
                  && sink' == (if sink.Keep? then Keep(sink.buffer.Enlarge(|data|, junk).Store(size, data)) else Discard)
                  && var (r', v) := ReadCrlf(u);
                     r' == Ok && v == Receive(u, 2).1 && Total(v) == rest && Clean(v))
  {
    TakeClean(t, |data|, sink, size, canAlloc, junk);
    assert Total(t)[..|data|] == data && Total(t)[|data|..] == CRLF + rest;
    var (r, sink', u) := TakeData(t, sink, size, |data|, canAlloc, junk);
    if r.Ok? {
      assert Total(u)[..2] == CRLF && Total(u)[2..] == rest;
      CrlfClean(u, rest);
    }
  }

  // ----- Whole bodies -----

  // What the sink holds after `data` was stored at position `size`.
  ghost predicate Stored(before: Sink, after: Sink, size: nat, data: string)
    requires before.Keep? ==> size <= before.buffer.Size()
  {
    match before
    case Discard => after == Discard
    case Keep(b) =>
      && after.Keep? && after.buffer.Size() == b.Size() + |data|
      && (data == "" ==> after == before)
      && (data != "" ==> after.buffer.bytes[size..size + |data|] == data)
      && (size > 0 ==> after.buffer.bytes[..size] == b.bytes[..size])
  }

  lemma StoredStep(b: Buffer, size: nat, data: string, junk: char, after: Sink, more: string)
    requires size <= b.Size() && data != ""
    requires Stored(Keep(b.Enlarge(|data|, junk).Store(size, data)), after, size + |data|, more)
    ensures Stored(Keep(b), after, size, data + more)
  {
    var mid := b.Enlarge(|data|, junk).Store(size, data);
    assert mid.bytes[size..size + |data|] == data;
    assert after.buffer.bytes[..size + |data|] == mid.bytes[..size + |data|];
    assert after.buffer.bytes[size..size + |data|] == after.buffer.bytes[..size + |data|][size..] == data;
    if size > 0 {
      assert after.buffer.bytes[..size] == after.buffer.bytes[..size + |data|][..size] == mid.bytes[..size + |data|][..size] == b.bytes[..size];
    }
  }

  lemma NothingStored(sink: Sink, size: nat)
    requires sink.Keep? ==> size <= sink.buffer.Size()
    ensures Stored(sink, sink, size, "")
  {
  }

  lemma ChunkStored(sink: Sink, size: nat, data: string, junk: char, sink': Sink, sink'': Sink, more: string)
    requires data != "" && (sink.Keep? ==> size <= sink.buffer.Size())
    requires sink' == if sink.Keep? then Keep(sink.buffer.Enlarge(|data|, junk).Store(size, data)) else Discard
    requires Stored(sink', sink'', size + |data|, more)
    ensures Stored(sink, sink'', size, data + more)
  {
    if sink.Keep? {
      StoredStep(sink.buffer, size, data, junk, sink'', more);
    }
  }

  lemma EncodeHead(cs: seq<Chunk>, last: string, rest: string)
    ensures cs == [] ==> Encode(cs, last) + rest == last + (CRLF + (CRLF + rest))
    ensures cs != [] ==> Encode(cs, last) + rest ==
                         cs[0].line + (CRLF + (cs[0].data + (CRLF + (Encode(cs[1..], last) + rest))))
  {
  }

  // After the last chunk's line: the final CRLF, or what is left when that line was cut.
  lemma LastClean(t: Source, rest: string, cut: bool)
    requires Clean(t) && Total(t) == if cut then [LF] + (CRLF + rest) else CRLF + rest
    ensures var (r, u) := ReadCrlf(t);
            if cut then r == ReadDataFailed else r == Ok && Total(u) == rest && Clean(u)
  {
    CrlfClean(t, Total(t)[2..]);
    if cut {
      assert Total(t)[..2][0] != CRLF[0];
    } else {
      assert Total(t)[..2] == CRLF && Total(t)[2..] == rest;
    }
  }

  /**
   On a stream that carries an encoding and signals no error, with memory to be had, the reader returns
   OK exactly when everything is on time. It then has stored exactly the concatenated chunks and has
   consumed exactly the encoding; otherwise it reports a read failure.
   */
  lemma {:induction false} DecodeEncode(s: Source, cs: seq<Chunk>, last: string, rest: string,
                                        sink: Sink, size: nat, canAlloc: nat -> bool, junk: char)
    requires Clean(s) && (forall c | c in cs :: WellFormed(c)) && SizeLine(last, 0)
    requires Total(s) == Encode(cs, last) + rest
    requires forall k :: canAlloc(k)
    requires sink.Keep? ==> size <= sink.buffer.Size()
    ensures var (r, sink', t) := ReadChunks(s, sink, size, canAlloc, junk);
            && r == (if AllOnTime(s, cs, last, sink.Keep?) then Ok else ReadDataFailed)
            && (r.Ok? ==> Total(t) == rest && Clean(t) && Stored(sink, sink', size, AllData(cs)))
    decreases |cs|
  {
    hide Total, Receive, TakeData, ReadLine, ReadCrlf, ParseHex, LineArrival, SkipArrival, Stored, Clean, AsInt;
    var text := if cs == [] then last else cs[0].line;
    var after := if cs == [] then CRLF + rest else cs[0].data + (CRLF + (Encode(cs[1..], last) + rest));
    EncodeHead(cs, last, rest);
    assert SizeLine(text, if cs == [] then 0 else |cs[0].data|) by { assert cs != [] ==> WellFormed(cs[0]); }
    assert s.(received := "" + s.received) == s && "" + Total(s) == Total(s);
    ReadLineClean(s, "", text, after, MAX_RECEIVE_RETRY);
    var a := LineArrival(s, |text|, MAX_RECEIVE_RETRY);
    var (line, t) := ReadLine(s, "", LINE_LIMIT, MAX_RECEIVE_RETRY);
    if a.Late? {
    } else if cs == [] {
      LastClean(t, rest, a.Cut?);
      NothingStored(sink, size);
    } else {
      var data, next := cs[0].data, Encode(cs[1..], last) + rest;
      assert WellFormed(cs[0]);
      if a.Cut? {
        CutChunkFails(t, data, next, sink, size, canAlloc, junk);
      } else {
        ChunkClean(t, data, next, sink, size, canAlloc, junk);
        var (r, sink', u) := TakeData(t, sink, size, |data|, canAlloc, junk);
        if r.Ok? {
          var v := ReadCrlf(u).1;
          DecodeEncode(v, cs[1..], last, rest, sink', size + |data|, canAlloc, junk);
          var (r', sink'', w) := ReadChunks(v, sink', size + |data|, canAlloc, junk);
          if r'.Ok? {
            ChunkStored(sink, size, data, junk, sink', sink'', AllData(cs[1..]));
          }
        }
      }
    }
  }

  /** The whole call, on an empty BUFFER or on NULL, after any earlier I/O error flag is cleared. */
  lemma ChunkedBodyRoundTrip(s: Source, cs: seq<Chunk>, last: string, rest: string, keep: bool,
                             canAlloc: nat -> bool, junk: char, bodyLength: nat)
    requires Clean(s.(failed := false)) && (forall c | c in cs :: WellFormed(c)) && SizeLine(last, 0)
    requires Total(s) == Encode(cs, last) + rest
    requires forall k :: canAlloc(k)
    ensures var (r, content, t) := ReadBody(s, bodyLength, true, if keep then Keep(NoMemory) else Discard, canAlloc, junk);
            && (r == Ok <==> AllOnTime(s.(failed := false), cs, last, keep))
            && (r != Ok ==> r == ReadDataFailed)
            && (r == Ok ==> Total(t) == rest && content.Keep? == keep)
            && (r == Ok && keep && cs != [] ==> content.buffer == Memory(AllData(cs)))
  {
    hide ReadChunks, Encode;
    var sink := if keep then Keep(NoMemory) else Discard;
    assert Total(s.(failed := false)) == Total(s);
    DecodeEncode(s.(failed := false), cs, last, rest, sink, 0, canAlloc, junk);
    var (r, content, t) := ReadBody(s, bodyLength, true, sink, canAlloc, junk);
    if r == Ok && keep && cs != [] {
      assert WellFormed(cs[0]);
      assert content.buffer.bytes[0..|AllData(cs)|] == content.buffer.bytes;
    }
  }

  /** A body with a Content-Length of at most INT_MAX: its bytes exactly, or a wait without end. */
  lemma PlainBody(s: Source, n: nat, canAlloc: nat -> bool, junk: char)
    requires Clean(s.(failed := false)) && 0 < n < TWO_31 && canAlloc(n)
    ensures var (r, content, t) := ReadBody(s, n, false, Keep(NoMemory), canAlloc, junk);
            && (n <= |Total(s)| ==> r == Ok && content == Keep(Memory(Total(s)[..n])) && Total(t) == Total(s)[n..])
            && (n > |Total(s)| ==> r == Hangs)
  {
    var u := s.(failed := false);
    assert AsInt(n) == n;
    assert Total(u) == Total(s);
    if n <= |Total(s)| {
      ReceiveClean(u, n);
      var b := NoMemory.Enlarge(n, junk);
      assert b.bytes[..0] + Total(s)[..n] + b.bytes[n..] == Total(s)[..n];
    } else {
      ReceiveShort(u, n);
    }
  }

  // conn_receive has no retry budget: a stream that ends early is waited for without end.
  lemma {:induction false} ReceiveShort(s: Source, n: nat)
    requires Clean(s) && n > |Total(s)|
    ensures Receive(s, n).0 == Stalled
    decreases |s.upcoming|
  {
    PollClean(s);
    if s.upcoming != [] {
      ReceiveShort(Poll(s), n);
    }
  }

  /** When everything has arrived before the call, everything is on time. */
  lemma {:induction false} BufferedIsOnTime(s: Source, cs: seq<Chunk>, last: string, rest: string, keep: bool)
    requires s.upcoming == [] && !s.failed && s.received == Encode(cs, last) + rest
    requires forall c | c in cs :: WellFormed(c)
    ensures AllOnTime(s, cs, last, keep)
    decreases |cs|
  {
    hide LineArrival, SkipArrival, Receive, ParseHex, Encode;
    EncodeHead(cs, last, rest);
    if cs == [] {
      BufferedStep(s, last, CRLF + rest);
    } else {
      var c, next := cs[0], Encode(cs[1..], last) + rest;
      assert WellFormed(c);
      BufferedStep(s, c.line, c.data + (CRLF + next));
      BufferedData(s.(received := c.data + (CRLF + next)), c.data, next);
      BufferedIsOnTime(s.(received := next), cs[1..], last, rest, keep);
    }
  }

  lemma BufferedStep(s: Source, line: string, after: string)
    requires s.upcoming == [] && s.received == line + (CRLF + after)
    ensures LineArrival(s, |line|, MAX_RECEIVE_RETRY) == OnTime(s.(received := after))
  {
    assert s.received[|line| + 2..] == after;
  }

  lemma BufferedData(s: Source, data: string, next: string)
    requires s.upcoming == [] && !s.failed && s.received == data + (CRLF + next) && data != ""
    ensures var t := s.(received := CRLF + next);
            && Receive(s, |data|).1 == t && SkipArrival(s, |data|, MAX_RECEIVE_RETRY) == OnTime(t)
            && Receive(t, 2).1 == s.(received := next)
  {
    assert s.received[|data|..] == CRLF + next;
    assert (CRLF + next)[2..] == next;
  }

  /** The same bytes in two fragments, the first ending with the CR of the size line: the body is lost. */
  lemma CutExample(canAlloc: nat -> bool)
    requires forall k :: canAlloc(k)
    ensures var body := "5" + CRLF + "hello" + CRLF + "0" + CRLF + CRLF;
            && ReadBody(Source("", false, [Work(body, false)]), 0, true, Keep(NoMemory), canAlloc, '?').0 == Ok
            && ReadBody(Source("", false, [Work(body[..2], false), Work(body[2..], false)]), 0, true, Keep(NoMemory), canAlloc, '?').0
               == ReadDataFailed
  {
    hide ReadChunks, ParseHex;
    var cs, last := [Chunk("5", "hello")], "0";
    var body := "5" + CRLF + "hello" + CRLF + "0" + CRLF + CRLF;
    ExampleEncodes();
    var whole := Source("", false, [Work(body, false)]);
    var cut := Source("", false, [Work(body[..2], false), Work(body[2..], false)]);
    DeliveriesTwo(body[..2], body[2..]);
    DeliveriesOne(body);
    assert Total(whole) == body + "" && Total(cut) == body + "";
    assert LineArrival(whole, 1, MAX_RECEIVE_RETRY).OnTime?;
    ChunkedBodyRoundTrip(whole, cs, last, "", true, canAlloc, '?', 0);
    ChunkedBodyRoundTrip(cut, cs, last, "", true, canAlloc, '?', 0);
    assert LineArrival(cut, 1, MAX_RECEIVE_RETRY).Cut?;
  }

  lemma DeliveriesOne(a: string)
    ensures Deliveries([Work(a, false)]) == a
  {
    assert [Work(a, false)][1..] == [];
  }

  lemma DeliveriesTwo(a: string, b: string)
    ensures Deliveries([Work(a, false), Work(b, false)]) == a + b
  {
    DeliveriesOne(b);
    assert [Work(a, false), Work(b, false)][1..] == [Work(b, false)];
  }

  lemma ExampleEncodes()
    ensures var cs := [Chunk("5", "hello")];
            && Encode(cs, "0") + "" == "5" + CRLF + "hello" + CRLF + "0" + CRLF + CRLF
            && WellFormed(cs[0]) && SizeLine("0", 0)
  {
    assert HexLength("5"[1..]) == 0 && HexLength("0"[1..]) == 0;
    assert "5"[..1] == "5" && "5"[..0] == "" && "0"[..1] == "0" && "0"[..0] == "";
    assert [Chunk("5", "hello")][1..] == [];
  }
}
