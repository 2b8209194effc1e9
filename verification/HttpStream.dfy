/**
 What the response reader of httpapi_compact.c does to the bytes of a connection. Each call of xio_dowork
 takes the next item of `upcoming`; once that is exhausted the peer stays silent. Bytes are chars.
 */
module HttpStream {
  import opened Words

  // What one call of xio_dowork delivers, and whether it signals an I/O error.
  datatype Work = Work(data: string, failed: bool)

  datatype Source = Source(received: string, failed: bool, upcoming: seq<Work>)

  // Everything the connection still has to give.
  function Total(s: Source): string {
    s.received + Deliveries(s.upcoming)
  }

  function Deliveries(ws: seq<Work>): string {
    if ws == [] then "" else ws[0].data + Deliveries(ws[1..])
  }

  const CR := '\r'
  const LF := '\n'
  const MAX_RECEIVE_RETRY := 200

  function Poll(s: Source): (p: Source)
    ensures Total(p) == Total(s)
  {
    if s.upcoming == [] then s
    else (assert s.received + (s.upcoming[0].data + Deliveries(s.upcoming[1..])) == (s.received + s.upcoming[0].data) + Deliveries(s.upcoming[1..]);
      Source(s.received + s.upcoming[0].data, s.failed || s.upcoming[0].failed, s.upcoming[1..]))
  }

  // ----- conn_receive: wait, without limit, until n bytes are there -----

  datatype Receipt = Data(bytes: string) | Failed | Stalled

  function Receive(s: Source, n: nat): (r: (Receipt, Source))
    ensures r.0.Data? ==> |r.0.bytes| == n && Total(s) == r.0.bytes + Total(r.1)
    ensures !r.0.Data? ==> Total(s) == Total(r.1)
    decreases |s.upcoming|
  {
    var p := Poll(s);
    if p.failed then (Failed, p)
    else if |p.received| >= n then (
      assert p.received == p.received[..n] + p.received[n..];
      (Data(p.received[..n]), p.(received := p.received[n..])))
    else if s.upcoming == [] then (Stalled, p)
    else Receive(p, n)
  }

  // ----- skipN: discard n bytes, within a retry budget -----

  function Skip(s: Source, n: nat, retries: nat): (r: (bool, Source))
    ensures |Total(r.1)| <= |Total(s)|
    decreases retries
  {
    if n == 0 then (true, s)
    else
      var p := Poll(s);
      if p.failed then (false, p)
      else if |p.received| >= n then (true, p.(received := p.received[n..]))
      else if retries == 0 then (false, p.(received := ""))
      else Skip(p.(received := ""), n - |p.received|, retries - 1)
  }

  // ----- readLine: bytes up to a CR, dropping an LF that is already there -----

  datatype Line = Text(text: string) | NoLine

  function IndexOfCR(s: string): (i: nat)
    ensures i <= |s| && (forall j | 0 <= j < i :: s[j] != CR) && (i < |s| ==> s[i] == CR)
  {
    if s == "" || s[0] == CR then 0 else 1 + IndexOfCR(s[1..])
  }

  // How many bytes a line ending with the CR at index i takes out of the buffer.
  function LineEnd(r: string, i: nat): (e: nat)
    requires i < |r|
    ensures i < e <= |r|
  {
    if i + 1 < |r| && r[i + 1] == LF then i + 2 else i + 1
  }

  // `line` is what earlier polls put in the line buffer, which holds `limit` characters and a NUL.
  function ReadLine(s: Source, line: string, limit: nat, retries: nat): (r: (Line, Source))
    ensures |Total(r.1)| <= |Total(s)|
    ensures r.0.Text? ==> |Total(r.1)| < |Total(s)|
    decreases retries
  {
    var p := Poll(s);
    if p.failed then (NoLine, p)
    else
      var i := IndexOfCR(p.received);
      if i > 0 && |line| + i >= limit then (NoLine, p.(received := ""))
      else if i < |p.received| then (Text(line + p.received[..i]), p.(received := p.received[LineEnd(p.received, i)..]))
      else if retries == 0 then (NoLine, p.(received := ""))
      else ReadLine(p.(received := ""), line + p.received, limit, retries - 1)
  }

  // ----- readChunk and the hexadecimal size -----

  // The outcome of readChunk: the offset it returns and the bytes it stored. After an I/O error its
  // size counter runs upward without end in sight, and a silent peer makes conn_receive wait for ever.
  datatype ChunkRead = Read(offset: int, bytes: string) | NoReturn

  function ReadChunk(s: Source, size: nat): (r: (ChunkRead, Source))
    ensures r.0.Read? ==> |r.0.bytes| <= size && Total(s) == r.0.bytes + Total(r.1)
  {
    var c := AsInt(size);
    if c <= 0 then (Read(c, ""), s)
    else
      var (receipt, t) := Receive(s, c);
      if receipt.Data? then (Read(c, receipt.bytes), t) else (NoReturn, t)
  }

  function HexDigit(c: char): (d: int)
    ensures -1 <= d < 16
  {
    if '0' <= c <= '9' then c as int - '0' as int
    else if 'a' <= c <= 'f' then c as int - 'a' as int + 10
    else if 'A' <= c <= 'F' then c as int - 'A' as int + 10
    else -1
  }

  // The number of leading hexadecimal digits.
  function HexLength(s: string): (n: nat)
    ensures n <= |s| && (forall j | 0 <= j < n :: HexDigit(s[j]) != -1) && (n < |s| ==> HexDigit(s[n]) == -1)
  {
    if s == "" || HexDigit(s[0]) == -1 then 0 else 1 + HexLength(s[1..])
  }

  // The value of a string of hexadecimal digits.
  function HexValue(digits: string): (v: nat)
    requires forall j | 0 <= j < |digits| :: HexDigit(digits[j]) != -1
  {
    if digits == "" then 0 else HexValue(digits[..|digits| - 1]) * 16 + HexDigit(digits[|digits| - 1])
  }

  datatype Parsed = Number(value: nat) | NotANumber

  // ParseStringToHexadecimal; the accumulator is a 64-bit size_t.
  function ParseHex(s: string): (r: Parsed)
    ensures r.Number? ==> r.value < TWO_64
  {
    var n := HexLength(s);
    if n == 0 then NotANumber else Number(HexValue(s[..n]) % TWO_64)
  }

  // ----- The chunked body -----

  datatype BodyResult = Ok | AllocFailed | ReadDataFailed | ReceiveResponseFailed | Hangs

  // A BUFFER: its bytes, or no memory yet.
  datatype Buffer = NoMemory | Memory(bytes: string) {
    function Size(): nat {
      if NoMemory? then 0 else |bytes|
    }

    // realloc to a larger size; what the new bytes hold is arbitrary.
    function Enlarge(n: nat, junk: char): (b: Buffer)
      ensures b.Memory? && b.Size() == Size() + n
    {
      var added := seq(n, _ => junk);
      if NoMemory? then Memory(added) else Memory(bytes + added)
    }

    function Store(at: nat, data: string): (b: Buffer)
      requires at + |data| <= Size()
      ensures b.Size() == Size()
    {
      if NoMemory? then this else Memory(bytes[..at] + data + bytes[at + |data|..])
    }
  }

  const LINE_LIMIT := 1023
  const CRLF := "\r\n"

  // The responseContent argument: NULL, or a BUFFER with its allocator.
  datatype Sink = Discard | Keep(buffer: Buffer)

  // The two bytes after chunk data, read into the line buffer.
  function ReadCrlf(s: Source): (r: (BodyResult, Source))
    ensures r.0.Ok? ==> |Total(r.1)| <= |Total(s)|
  {
    var (end, t) := ReadChunk(s, 2);
    match end
    case NoReturn => (Hangs, t)
    case Read(_, bytes) => (if bytes == CRLF then Ok else ReadDataFailed, t)
  }

  // Take the data of one chunk to position `size` of the sink.
  function TakeData(s: Source, sink: Sink, size: nat, chunkSize: nat, canAlloc: nat -> bool, junk: char)
    : (r: (BodyResult, Sink, Source))
    requires sink.Keep? ==> size <= sink.buffer.Size()
    ensures r.0.Ok? ==> |Total(r.2)| <= |Total(s)| && (sink.Keep? <==> r.1.Keep?)
    ensures r.0.Ok? && sink.Keep? ==> r.1.buffer.Size() == sink.buffer.Size() + chunkSize
  {
    match sink
    case Discard =>
      var (ok, t) := Skip(s, chunkSize, MAX_RECEIVE_RETRY);
      (if ok && AsInt(chunkSize) >= 0 then Ok else ReadDataFailed, sink, t)
    case Keep(buffer) =>
      if !canAlloc(buffer.Size() + chunkSize) then (AllocFailed, Keep(NoMemory), s)
      else
        var enlarged := buffer.Enlarge(chunkSize, junk);
        var (read, t) := ReadChunk(s, chunkSize);
        match read
        case NoReturn => (Hangs, Keep(enlarged), t)
        case Read(offset, bytes) =>
          if offset < 0 then (ReadDataFailed, Keep(enlarged), t)
          else (Ok, Keep(enlarged.Store(size, bytes)), t)
  }

  // The chunked branch of ReadHTTPResponseBodyFromXIO, with `size` bytes taken so far.
  function ReadChunks(s: Source, sink: Sink, size: nat, canAlloc: nat -> bool, junk: char): (BodyResult, Sink, Source)
    requires sink.Keep? ==> size <= sink.buffer.Size()
    decreases |Total(s)|
  {
    var (line, t) := ReadLine(s, "", LINE_LIMIT, MAX_RECEIVE_RETRY);
    if line.NoLine? then (ReadDataFailed, sink, t)
    else
      var parsed := ParseHex(line.text);
      if parsed.NotANumber? then (ReceiveResponseFailed, sink, t)
      else if parsed.value == 0 then
        var (r, u) := ReadCrlf(t);
        (r, if r.ReadDataFailed? && sink.Keep? then Keep(NoMemory) else sink, u)
      else
        var (r, sink', u) := TakeData(t, sink, size, parsed.value, canAlloc, junk);
        if !r.Ok? then (r, sink', u)
        else
          var (r', v) := ReadCrlf(u);
          if !r'.Ok? then (r', sink', v)
          else ReadChunks(v, sink', size + parsed.value, canAlloc, junk)
  }

  // ReadHTTPResponseBodyFromXIO.
  function ReadBody(s: Source, bodyLength: nat, chunked: bool, sink: Sink, canAlloc: nat -> bool, junk: char)
    : (BodyResult, Sink, Source)
  {
    var s := s.(failed := false);
    if chunked then ReadChunks(s, sink, 0, canAlloc, junk)
    else if bodyLength == 0 then (Ok, sink, s)
    else if sink.Keep? && (sink.buffer.Memory? || !canAlloc(bodyLength)) then (AllocFailed, sink, s)
    else TakeData(s, sink, 0, bodyLength, canAlloc, junk)
  }
}
