/** The receive side of httpapi_compact.c: a pull parser over a buffer that callbacks fill. */
module HttpReader {
  import opened HttpStream
  import opened Words

  const TEMP_BUFFER_SIZE := 1024

  class HttpInstance {
    var received: string       // received_bytes[..received_bytes_count]
    var isIoError: bool
    var upcoming: seq<Work>    // what later calls of xio_dowork will deliver

    constructor (upcoming: seq<Work>)
      ensures Stream() == Source("", false, upcoming)
    {
      received := "";
      isIoError := false;
      this.upcoming := upcoming;
    }

    function Stream(): Source
      reads this
    {
      Source(received, isIoError, upcoming)
    }

    // on_bytes_received, and on_io_error or a failed reallocation.
    method DoWork()
      modifies this
      ensures Stream() == Poll(old(Stream()))
    {
      if upcoming != [] {
        received := received + upcoming[0].data;
        isIoError := isIoError || upcoming[0].failed;
        upcoming := upcoming[1..];
      }
    }

    // `stalled` means that the source's loop would never end.
    method ConnReceive(count: int) returns (result: int, buffer: string, stalled: bool)
      modifies this
      ensures result <= 0 ==> buffer == ""
      ensures count < 0 ==> result == -1 && !stalled && Stream() == old(Stream())
      ensures count == 0 ==> result == 0 && buffer == "" && !stalled && Stream() == old(Stream())
      ensures count > 0 ==>
                var (receipt, t) := Receive(old(Stream()), count);
                && Stream() == t && stalled == receipt.Stalled?
                && (receipt.Failed? ==> result == -1)
                && (receipt.Data? ==> result == count && buffer == receipt.bytes)
    {
      buffer := "";
      stalled := false;
      if count < 0 {
        return -1, "", false;
      }
      result := 0;
      while result < count
        invariant result == 0 || result == count
        invariant !stalled && (result == 0 ==> buffer == "")
        invariant result < count ==> count > 0 && Receive(Stream(), count) == Receive(old(Stream()), count)
        invariant count == 0 ==> Stream() == old(Stream())
        invariant count > 0 && result == count ==> (Data(buffer), Stream()) == Receive(old(Stream()), count)
        decreases |upcoming|, count - result
      {
        var silent := upcoming == [];
        DoWork();
        if isIoError {
          return -1, buffer, false;
        }
        if |received| >= count {
          buffer := received[..count];
          received := received[count..];
          result := count;
          break;
        }
        if silent {
          return 0, buffer, true;
        }
      }
    }

    method ReadLine(maxBufSize: nat) returns (size: int, line: string)
      requires maxBufSize > 0
      modifies this
      ensures var (r, t) := HttpStream.ReadLine(old(Stream()), "", maxBufSize - 1, MAX_RECEIVE_RETRY);
              && Stream() == t
              && (r.NoLine? ==> size == -1)
              && (r.Text? ==> size == |line| && line == r.text)
    {
      hide Deliveries, IndexOfCR;
      ghost var all := HttpStream.ReadLine(Stream(), "", maxBufSize - 1, MAX_RECEIVE_RETRY);
      var dest := "";
      var countRetry: int := MAX_RECEIVE_RETRY;
      var endOfSearch := false;
      size := -1;
      line := "";
      while !endOfSearch
        invariant 0 <= countRetry
        invariant !endOfSearch ==> size == -1 && HttpStream.ReadLine(Stream(), dest, maxBufSize - 1, countRetry) == all
        invariant endOfSearch ==> Stream() == all.1
        invariant endOfSearch ==> if all.0.Text? then size == |line| && line == all.0.text else size == -1
        decreases if endOfSearch then 0 else countRetry + 1
      {
        DoWork();
        if isIoError {
          endOfSearch := true;
        } else {
          var found: bool, tooLong: bool, consumed: nat;
          dest, found, tooLong, consumed := ScanLine(dest, maxBufSize);
          if tooLong {
            endOfSearch := true;
          } else if found {
            line := dest;
            size := |dest|;
            endOfSearch := true;
          }
          received := received[consumed..];
        }
        if !endOfSearch {
          if countRetry > 0 {
            countRetry := countRetry - 1;
          } else {
            endOfSearch := true;
          }
        }
      }
    }

    // The inner loop of readLine over the buffered bytes.
    method ScanLine(start: string, maxBufSize: nat) returns (dest: string, found: bool, tooLong: bool, consumed: nat)
      requires maxBufSize > 0
      ensures consumed <= |received|
      ensures var i := IndexOfCR(received);
              && (tooLong <==> i > 0 && |start| + i >= maxBufSize - 1)
              && (found <==> !tooLong && i < |received|)
              && (found ==> dest == start + received[..i] && consumed == LineEnd(received, i))
              && (!found ==> consumed == |received|)
              && (!found && !tooLong ==> dest == start + received)
    {
      dest := start;
      found, tooLong := false, false;
      var receivedByte := 0;
      while receivedByte < |received|
        invariant receivedByte <= |received|
        invariant !found && !tooLong ==> dest == start + received[..receivedByte] && receivedByte <= IndexOfCR(received)
        invariant !found && !tooLong && receivedByte > 0 ==> |start| + receivedByte < maxBufSize - 1
        invariant !found && !tooLong
      {
        if received[receivedByte] != CR {
          NotYetCR(received, receivedByte);
          dest := dest + [received[receivedByte]];
          receivedByte := receivedByte + 1;
          if |dest| >= maxBufSize - 1 {
            receivedByte := |received|;
            tooLong := true;
            break;
          }
        } else {
          receivedByte := receivedByte + 1;
          if receivedByte < |received| && received[receivedByte] == LF {
            receivedByte := receivedByte + 1;
          }
          found := true;
          break;
        }
      }
      consumed := receivedByte;
    }

    method SkipN(n: nat) returns (result: int)
      modifies this
      ensures var (ok, t) := Skip(old(Stream()), n, MAX_RECEIVE_RETRY);
              Stream() == t && result == if ok then AsInt(n) else -1
    {
      hide AsInt, Deliveries;
      ghost var all := Skip(Stream(), n, MAX_RECEIVE_RETRY);
      var countRetry: int := MAX_RECEIVE_RETRY;
      var left := n;
      result := AsInt(n);
      while left > 0
        invariant 0 <= countRetry && 0 <= left
        invariant left > 0 ==> result == AsInt(n) && Skip(Stream(), left, countRetry) == all
        invariant left == 0 ==> Stream() == all.1 && result == if all.0 then AsInt(n) else -1
        decreases if left == 0 then 0 else countRetry + 1
      {
        DoWork();
        if isIoError {
          result := -1;
          left := 0;
        } else {
          if |received| <= left {
            assert received[|received|..] == "";
            left := left - |received|;
            received := "";
          } else {
            received := received[left..];
            left := 0;
          }
          if left > 0 {
            if countRetry > 0 {
              countRetry := countRetry - 1;
            } else {
              left := 0;
              result := -1;
            }
          }
        }
      }
    }

    method ReadChunk(size: nat) returns (r: ChunkRead)
      requires size < TWO_64
      modifies this
      ensures (r, Stream()) == HttpStream.ReadChunk(old(Stream()), size)
    {
      hide Deliveries, AsInt, Receive;
      ghost var c := AsInt(size);
      CastFacts(0);
      CastFacts(size);
      var left := size;
      var offset := 0;
      var buf := "";
      while left > 0
        invariant 0 <= left < TWO_64
        invariant c <= 0 ==> Stream() == old(Stream()) && buf == "" && c <= offset <= 0 && AsInt(left) == c - offset
        invariant c > 0 && offset == 0 ==> left == size && Stream() == old(Stream()) && buf == ""
        invariant c > 0 && offset != 0 ==> offset == c && left == size - c
        invariant c > 0 && offset != 0 ==> (Read(c, buf), Stream()) == HttpStream.ReadChunk(old(Stream()), size)
        decreases if c > 0 then (if offset == 0 then 1 else 0) else offset - c
      {
        var count := AsInt(left);
        CastFacts(left);
        var cur, got, stalled := ConnReceive(count);
        if stalled || (count > 0 && cur < 0) {
          return NoReturn;
        }
        if cur == 0 {
          break;
        }
        left := (left - cur) % TWO_64;
        offset := offset + cur;
        assert "" + got == got;
        buf := buf + got;
      }
      r := Read(offset, buf);
    }

    // The two bytes after chunk data, or after the last chunk's line.
    method ReadCrlf() returns (r: BodyResult)
      modifies this
      ensures (r, Stream()) == HttpStream.ReadCrlf(old(Stream()))
    {
      var end := ReadChunk(2);
      if end.NoReturn? {
        r := Hangs;
      } else if end.offset < 0 || |end.bytes| < 2 || end.bytes[0] != '\r' || end.bytes[1] != '\n' {
        r := ReadDataFailed;
      } else {
        r := Ok;
      }
    }

    method TakeData(sink: Sink, size: nat, chunkSize: nat, canAlloc: nat -> bool, junk: char)
      returns (r: BodyResult, sink': Sink)
      requires sink.Keep? ==> size <= sink.buffer.Size()
      requires chunkSize < TWO_64
      modifies this
      ensures (r, sink', Stream()) == HttpStream.TakeData(old(Stream()), sink, size, chunkSize, canAlloc, junk)
    {
      hide Deliveries, AsInt;
      sink' := sink;
      match sink {
        case Keep(buffer) =>
          if !canAlloc(buffer.Size() + chunkSize) {
            return AllocFailed, Keep(NoMemory);
          }
          sink' := Keep(buffer.Enlarge(chunkSize, junk));
          var read := ReadChunk(chunkSize);
          if read.NoReturn? {
            return Hangs, sink';
          }
          if read.offset < 0 {
            return ReadDataFailed, sink';
          }
          r, sink' := Ok, Keep(sink'.buffer.Store(size, read.bytes));
        case Discard =>
          var skipped := SkipN(chunkSize);
          r := if skipped < 0 then ReadDataFailed else Ok;
      }
    }

    method ReadBody(bodyLength: nat, chunked: bool, responseContent: Sink, canAlloc: nat -> bool, junk: char)
      returns (result: BodyResult, content: Sink)
      requires bodyLength < TWO_64
      modifies this
      ensures (result, content, Stream()) == HttpStream.ReadBody(old(Stream()), bodyLength, chunked, responseContent, canAlloc, junk)
    {
      hide Total, ParseHex, HttpStream.TakeData, HttpStream.ReadLine, HttpStream.ReadCrlf;
      isIoError := false;
      content := responseContent;
      result := Ok;
      if !chunked {
        if bodyLength > 0 {
          if content.Keep? && (content.buffer.Memory? || !canAlloc(bodyLength)) {
            return AllocFailed, content;
          }
          result, content := TakeData(content, 0, bodyLength, canAlloc, junk);
        }
        return;
      }
      ghost var all := ReadChunks(Stream(), content, 0, canAlloc, junk);
      var size: nat := 0;
      var lastChunk := false;
      while result.Ok? && !lastChunk
        invariant result.Ok? && !lastChunk && content.Keep? ==> size <= content.buffer.Size()
        invariant if result.Ok? && !lastChunk then ReadChunks(Stream(), content, size, canAlloc, junk) == all
                  else (result, content, Stream()) == all
        decreases result.Ok? && !lastChunk, |Total(Stream())|
      {
        var lineSize, line := ReadLine(TEMP_BUFFER_SIZE);
        if lineSize < 0 {
          result := ReadDataFailed;
        } else {
          var parsed := ParseStringToHexadecimal(line);
          if parsed.NotANumber? {
            result := ReceiveResponseFailed;
          } else if parsed.value == 0 {
            result := ReadCrlf();
            if result.ReadDataFailed? && content.Keep? {
              content := Keep(NoMemory);
            }
            lastChunk := true;
          } else {
            result, content := TakeData(content, size, parsed.value, canAlloc, junk);
            if result.Ok? {
              result := ReadCrlf();
              size := size + parsed.value;
            }
          }
        }
      }
    }
  }

  method ParseStringToHexadecimal(src: string) returns (r: Parsed)
    ensures r == ParseHex(src)
  {
    if src == "" || HexDigit(src[0]) == -1 {
      return NotANumber;
    }
    var dst := 0;
    var i := 0;
    while i < |src| && HexDigit(src[i]) != -1
      invariant i <= HexLength(src) <= |src|
      invariant dst == HexValue(src[..i]) % TWO_64
    {
      HexLengthPast(src, i);
      assert src[..i + 1][..i] == src[..i];
      ghost var before := HexValue(src[..i]);
      dst := (dst * 16) % TWO_64;
      dst := (dst + HexDigit(src[i])) % TWO_64;
      ModStep(before, HexDigit(src[i]));
      i := i + 1;
    }
    assert i == HexLength(src);
    r := Number(dst);
  }

  lemma ModStep(v: nat, d: nat)
    ensures (v % TWO_64 * 16 % TWO_64 + d) % TWO_64 == (v * 16 + d) % TWO_64
  {
    var q := v / TWO_64;
    assert v * 16 + d == v % TWO_64 * 16 + d + TWO_64 * (16 * q);
  }

  lemma {:induction false} HexLengthPast(s: string, i: nat)
    requires i < |s| && i <= HexLength(s) && HexDigit(s[i]) != -1
    ensures i < HexLength(s)
  {
  }

  // The low 32 bits as int: one step up from a negative value, and what taking a positive value away leaves.
  lemma CastFacts(n: nat)
    requires n < TWO_64
    ensures AsInt(n) < 0 ==> AsInt((n + 1) % TWO_64) == AsInt(n) + 1
    ensures n == 0 ==> AsInt(n) == 0
    ensures AsInt(n) > 0 ==> AsInt(n) <= n && AsInt(n - AsInt(n)) == 0
  {
  }

  lemma {:induction false} NotYetCR(s: string, i: nat)
    requires i < |s| && i <= IndexOfCR(s) && s[i] != CR
    ensures i + 1 <= IndexOfCR(s)
  {
  }
}
