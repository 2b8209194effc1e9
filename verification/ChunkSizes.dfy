/** Chunk sizes written in hexadecimal, and the chunked bodies that use them. */
module ChunkSizes {
  import opened ChunkedBody
  import opened HttpStream
  import Numbers
  import opened Numerals
  import NumeralConversions
  import opened Words

  // ----- Sizes -----

  // The reader's digits are those of base 16.
  lemma HexDigitIs(c: char)
    ensures HexDigit(c) == if Numbers.InBase(c, 16) then Numbers.DigitVal(c) else -1
  {
  }

  lemma {:induction false} HexLengthIs(s: string)
    ensures HexLength(s) == Numbers.Digits(s, 16)
  {
    if s != "" {
      HexDigitIs(s[0]);
      HexLengthIs(s[1..]);
    }
  }

  lemma {:induction false} HexValueIs(s: string)
    requires forall c | c in s :: Numbers.InBase(c, 16)
    ensures forall j | 0 <= j < |s| :: HexDigit(s[j]) != -1
    ensures HexValue(s) == Numbers.Number(s, 16)
  {
    forall j | 0 <= j < |s|
      ensures HexDigit(s[j]) == Numbers.DigitVal(s[j]) != -1
    {
      assert s[j] in s;
      HexDigitIs(s[j]);
    }
    if s != "" {
      hide HexDigit, Numbers.DigitVal;
      HexValueIs(s[..|s| - 1]);
    }
  }

  /** A size in hexadecimal, in lower or upper case, is read as that size, whatever other than a digit follows it. */
  lemma NumeralIsParsed(n: nat, digits: string, rest: string)
    requires Digitary(digits) && EndsDigits(16, rest)
    ensures |digits| == 36 && ParseHex(Numeral(n, 16, digits) + rest) == Number(n % TWO_64)
  {
    hide HexDigit, Numbers.DigitVal, Numeral, DigitOf;
    NumeralConversions.NumberOfNumeral(n, 16, digits);
    var numeral := Numeral(n, 16, digits);
    var s := numeral + rest;
    if rest != "" {
      NumeralConversions.DigitsOfBase(16, rest[0]);
    }
    HexLengthIs(s);
    assert s[..|numeral|] == numeral && s[0..] == s;
    Numbers.RunIs(s, 0, |numeral|, 16);
    HexValueIs(numeral);
  }

  /** Text without a digit in front is no size. */
  lemma NotParsed(s: string)
    requires EndsDigits(16, s)
    ensures ParseHex(s) == NotANumber
  {
    if s != "" {
      NumeralConversions.DigitsOfBase(16, s[0]);
      HexDigitIs(s[0]);
    }
  }

  // ----- Bodies -----

  // The data of a chunk, and what may follow its size on the line.
  datatype Piece = Piece(data: string, extension: string)

  ghost predicate Sendable(p: Piece) {
    0 < |p.data| < TWO_31 && |p.extension| <= 1000 && CR !in p.extension && EndsDigits(16, p.extension)
  }

  // What a server writes for the pieces, with sizes in lower or upper case.
  function Body(pieces: seq<Piece>, digits: string): string
    requires 16 <= |digits|
  {
    if pieces == [] then "0\r\n\r\n"
    else
      var p := pieces[0];
      Numeral(|p.data|, 16, digits) + p.extension + "\r\n" + (p.data + "\r\n" + Body(pieces[1..], digits))
  }

  function Content(pieces: seq<Piece>): string {
    if pieces == [] then "" else pieces[0].data + Content(pieces[1..])
  }

  function Chunks(pieces: seq<Piece>, digits: string): (cs: seq<Chunk>)
    requires 16 <= |digits|
    ensures |cs| == |pieces|
  {
    if pieces == [] then []
    else
      var p := pieces[0];
      [Chunk(Numeral(|p.data|, 16, digits) + p.extension, p.data)] + Chunks(pieces[1..], digits)
  }

  lemma NumeralHasNoCr(n: nat, digits: string)
    requires Digitary(digits)
    ensures |digits| == 36 && CR !in Numeral(n, 16, digits)
  {
    NumeralConversions.NumberOfNumeral(n, 16, digits);
    assert !Numbers.InBase(CR, 16);
  }

  lemma SizeIsLine(n: nat, digits: string, extension: string)
    requires Digitary(digits) && n < TWO_31
    requires |extension| <= 1000 && CR !in extension && EndsDigits(16, extension)
    ensures |digits| == 36 && SizeLine(Numeral(n, 16, digits) + extension, n)
  {
    NumeralIsParsed(n, digits, extension);
    NumeralHasNoCr(n, digits);
    hide Numeral, ParseHex, EndsDigits;
    EightDigits();
    HexNumeralLength(n, digits, 8);
  }

  lemma EightDigits()
    ensures TWO_31 < Power16(8)
  {
    assert Power16(2) == 256 && Power16(4) == 65536;
  }

  lemma {:induction false} ChunksAreWellFormed(pieces: seq<Piece>, digits: string)
    requires Digitary(digits) && forall p | p in pieces :: Sendable(p)
    ensures |digits| == 36
    ensures var cs := Chunks(pieces, digits);
            && (forall c | c in cs :: WellFormed(c))
            && Encode(cs, "0") == Body(pieces, digits) && AllData(cs) == Content(pieces)
  {
    NumeralHasNoCr(0, digits);
    if pieces == [] {
      assert "0" + CRLF + CRLF == "0\r\n\r\n";
    } else {
      var p := pieces[0];
      assert Sendable(p);
      SizeIsLine(|p.data|, digits, p.extension);
      hide Numeral, SizeLine;
      ChunksAreWellFormed(pieces[1..], digits);
    }
  }

  /**
   A body of any pieces, with their sizes in hexadecimal, is read in full if and only if it arrives on time: the
   content is the pieces put together, and exactly the body is consumed.
   */
  lemma BodyIsRead(s: Source, pieces: seq<Piece>, digits: string, rest: string, keep: bool,
                   canAlloc: nat -> bool, junk: char, bodyLength: nat)
    requires Digitary(digits) && forall p | p in pieces :: Sendable(p)
    requires Clean(s.(failed := false)) && forall k :: canAlloc(k)
    requires |digits| == 36 && Total(s) == Body(pieces, digits) + rest
    ensures var (r, content, t) := ReadBody(s, bodyLength, true, if keep then Keep(NoMemory) else Discard, canAlloc, junk);
            && (r == Ok <==> AllOnTime(s.(failed := false), Chunks(pieces, digits), "0", keep))
            && (r != Ok ==> r == ReadDataFailed)
            && (r == Ok ==> Total(t) == rest && content.Keep? == keep)
            && (r == Ok && keep && pieces != [] ==> content.buffer == Memory(Content(pieces)))
  {
    hide ReadBody, Body, Encode, AllData, Content, AllOnTime, SizeLine, WellFormed, Sendable, Clean, Total;
    ChunksAreWellFormed(pieces, digits);
    LastSize(digits);
    ChunkedBodyRoundTrip(s, Chunks(pieces, digits), "0", rest, keep, canAlloc, junk, bodyLength);
  }

  lemma LastSize(digits: string)
    requires Digitary(digits)
    ensures SizeLine("0", 0)
  {
    SizeIsLine(0, digits, "");
    NumeralConversions.FirstDigit(0, 16, digits);
    assert "0" + "" == "0";
  }

  // ----- When a chunk is refused -----

  /**
   A size is cast to int before its data is read. With memory, a chunk is stored if and only if the low 32 bits of its
   size, taken as a signed number, are not negative and that many bytes arrive; the rest of its place stays as it was.
   */
  lemma LargeSizes(s: Source, buffer: Buffer, size: nat, n: nat, canAlloc: nat -> bool, junk: char)
    requires size <= buffer.Size() && canAlloc(buffer.Size() + n)
    ensures var low := (n + 0x8000_0000) % 0x1_0000_0000 - 0x8000_0000;
            var (r, sink, t) := TakeData(s, Keep(buffer), size, n, canAlloc, junk);
            && (low < 0 ==> r == ReadDataFailed && t == s)
            && (low == 0 ==> r == Ok && t == s)
            && (low > 0 ==> (r == Ok <==> Receive(s, low).0.Data?) && (r != Ok ==> r == Hangs))
            && (r == Ok && low > 0 && sink.buffer.Memory? && n > 0 ==>
                  sink.buffer.bytes[size..size + low] == Receive(s, low).0.bytes)
  {
    AsIntIs(n);
    hide Receive;
  }

  /** Discarded, such a chunk is skipped in full, and refused all the same when the cast is negative. */
  lemma LargeSizesDiscarded(s: Source, n: nat, canAlloc: nat -> bool, junk: char)
    ensures var low := (n + 0x8000_0000) % 0x1_0000_0000 - 0x8000_0000;
            var (r, sink, t) := TakeData(s, Discard, 0, n, canAlloc, junk);
            && t == Skip(s, n, 200).1
            && r == if low >= 0 && Skip(s, n, 200).0 then Ok else ReadDataFailed
  {
    AsIntIs(n);
    hide Skip;
  }

  /** A size line without a digit in front ends the body as a bad response, with the content as it is. */
  lemma NoSize(s: Source, sink: Sink, size: nat, canAlloc: nat -> bool, junk: char, line: string)
    requires sink.Keep? ==> size <= sink.buffer.Size()
    requires ReadLine(s, "", LINE_LIMIT, MAX_RECEIVE_RETRY).0 == Text(line) && EndsDigits(16, line)
    ensures var r := ReadChunks(s, sink, size, canAlloc, junk); r.0 == ReceiveResponseFailed && r.1 == sink
  {
    hide ReadLine, EndsDigits, ParseHex;
    NotParsed(line);
  }

  /** A chunk there is no memory for ends the body, and what was stored is given up. */
  lemma NoMemoryForChunk(s: Source, buffer: Buffer, size: nat, canAlloc: nat -> bool, junk: char, n: nat, rest: string)
    requires size <= buffer.Size() && |LOWER| == 36 && EndsDigits(16, rest)
    requires 0 < n < TWO_64 && !canAlloc(buffer.Size() + n)
    requires ReadLine(s, "", LINE_LIMIT, MAX_RECEIVE_RETRY).0 == Text(Numeral(n, 16, LOWER) + rest)
    ensures var r := ReadChunks(s, Keep(buffer), size, canAlloc, junk); r.0 == AllocFailed && r.1 == Keep(NoMemory)
  {
    hide ReadLine, Numeral, EndsDigits, ParseHex, ReadChunks;
    NumeralIsParsed(n, LOWER, rest);
    ChunkWithoutMemory(s, buffer, size, canAlloc, junk, n, Numeral(n, 16, LOWER) + rest);
  }

  lemma ChunkWithoutMemory(s: Source, buffer: Buffer, size: nat, canAlloc: nat -> bool, junk: char, n: nat, line: string)
    requires size <= buffer.Size() && n > 0 && !canAlloc(buffer.Size() + n) && ParseHex(line) == Number(n)
    requires ReadLine(s, "", LINE_LIMIT, MAX_RECEIVE_RETRY).0 == Text(line)
    ensures var r := ReadChunks(s, Keep(buffer), size, canAlloc, junk); r.0 == AllocFailed && r.1 == Keep(NoMemory)
  {
    hide ReadLine, ParseHex, ReadCrlf, ReadChunk, Total, Skip;
  }

  /** A body with a Content-Length needs an empty BUFFER and the memory for it; one of no bytes needs nothing. */
  lemma PlainBodyRefused(s: Source, n: nat, buffer: Buffer, canAlloc: nat -> bool, junk: char)
    ensures var r := ReadBody(s, n, false, Keep(buffer), canAlloc, junk);
            && (n == 0 ==> r == (Ok, Keep(buffer), s.(failed := false)))
            && (n > 0 && (buffer.Memory? || !canAlloc(n)) ==> r == (AllocFailed, Keep(buffer), s.(failed := false)))
  {
  }
}
