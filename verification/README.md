# Verification of the shared C utilities

A model in Dafny of the utility library under `c-utility/` of an IoT device SDK written in C, and proofs about
it. `dafny verify dfyconfig.toml` checks the whole project.

What is modelled, one module or a few per C file:

- **Hashing** (`Fips180`, `HashConstants`, `HashExamples`, `Padding`, `ShaContext`, `Hmac`, `HashRuns`): the mutable
  contexts of `sha1.c` and `sha224.c`, whose text is shared line for line, and of `hmac.c`. `Fips180` defines the hash
  functions on bit strings as the standard FIPS 180-2 does, and `Hmac.HmacBits` is section 2 of RFC 2104; the contexts
  are proved to compute these for every way of splitting the input. The constants are proved to be the roots of the
  primes, and the two examples of the standard to come out.
- **The HTTP response reader** (`HttpStream`, `StreamTiming`, `HttpReader`, `ChunkedBody`, `ChunkSizes`): the receive
  side of `httpapi_compact.c`. `xio_dowork` takes the next fragment of an arbitrary list, possibly signalling an I/O
  error. `HttpStream` holds the functions, `HttpReader` the loops proved equal to them, `StreamTiming` says when each
  succeeds, `ChunkedBody` and `ChunkSizes` hold the encoding of section 4.1 of RFC 7230 and what decoding makes of it.
- **The CONNECT tunnel** (`ProxyResponse`, `ProxyIo`, `ProxyRuns`, `ProxyCodes`): the six-state machine of
  `http_proxy_io.c`, with everything it does outward kept in a list of calls.
- **The resilient send** (`HttpApiEx`, `HttpApiExRuns`): the retry loop of `httpapiex.c` over three levels.
- **Codecs and numbers** (`Rfc4648`, `Base64`, `Base32`, `Alphabets`, `UrlCodec`, `UrlCharacters`, `Numbers`,
  `Numerals`, `NumeralConversions`, `TickCounter`): `base64.c`, `base32.c`, `urlencode.c`, `strtoull_s` and
  `size_tToString` of `crt_abstractions.c`, and the performance-counter clock.
- **Storage** (`DoublyLinkedList`, `GbAlloc`, `GbAllocRuns`, `KeyValueMap`, `KeyValueMapRuns`, `HttpHeaders`): the
  intrusive ring, the tracking allocator, and the map with its HTTP headers under every failure of an allocation.
- **SAS tokens** (`SasToken`, `SasTokenFields`, `SasTokenBuilder`): the scan that validates a token, and the builder,
  which decodes the key, signs with HMAC-SHA256, encodes twice and lays the token out; the pieces are the modules above.

`Wrappers`, `Words`, `Bytes`, `Lists` and `AssocLists` hold what several modules share.

Code that works by changing things step by step is imperative Dafny: a class or a method with loops, proved against
a function on values. The run modules then prove properties of that function over every sequence of calls. What
the code gets from outside (memory, time, bytes received, results of the layer below) is a parameter. The methods named
`Play` drive an object through any sequence of calls, so that the theorems about runs hold of the object.

Where the code does not do what its documentation or a caller expects, the code is followed, and the exact condition
is proved:

- The length macros of the hash contexts set Corrupted when the 64-bit count wraps, but the input call that does it
  returns success (`ShaContext.Context.Input`).
- `readLine` drops the LF of a line end only if it has arrived with the CR. A chunked body is decoded if and only if
  no size line is cut there and none comes late (`ChunkedBody.DecodeEncode`, `ChunkedBody.CutExample`).
- `conn_receive` has no retry bound: a short body is waited for without end (`ChunkedBody.PlainBody`).
- A chunk size is cast to int before its data is read, so sizes from 2^31 on are refused or read in part, depending on
  their low 32 bits (`ChunkSizes.LargeSizes`, `ChunkSizes.LargeSizesDiscarded`).
- `http_proxy_io.c` never clears its receive buffer. A second open goes as its own response says if and only if the
  bytes the first one left are harmless (`ProxyRuns.LeftoverDecides`, over whole runs `ProxyRuns.SecondOpen`); a
  status line alone does harm (`ProxyRuns.StatusLineDecides`, `ProxyRuns.RefusalLeftOver`). A failed allocation is
  reported and the header is looked at all the same, so an open can be reported twice
  (`ProxyRuns.ReuseReportsTwice`).
- The comment in `httpapiex.c` allows each step one retry, the loop sends up to three times
  (`HttpApiExRuns.RequestAttempts`).
- The allocation count of `gballoc.c`, documented as the current number, is never lowered. It is that number if and
  only if as many blocks were given up since the last reset as were tracked then (`GbAllocRuns.CountIsCurrent`), so
  not after one allocation and its release (`GbAllocRuns.CountAfterFree`). Freeing after a reset of the metrics wraps
  the total (`GbAllocRuns.FreeAfterReset`).
- A map that becomes empty, or whose first insertion fails late, forgets its filter (`KeyValueMapRuns.FilterSurvives`),
  and so does the copy of an empty map (`KeyValueMap.Map.Clone`).
- `strtoull_s` is the strtoull of section 7.20.1.4 of the C99 standard if and only if no prefix is taken without a
  digit behind it, as in "0", "08" or "0x" in base 0, and no negative number overflows (`Numbers.StandardExactly`):
  the first are not converted (`Numbers.LoneZero`), the second give 1 (`Numbers.OverflowResult`).
- `SASToken_Validate` takes the value in front of an ampersand to stop one character early, so it rejects a scope of
  one character (`SasToken.BuilderAndValidatorAgree`), and reads an expiry that stands in front of another field without
  its last digit (`SasTokenFields.AnyOrder`, `SasTokenFields.ExpiryLosesDigit`).
- The URL decoder refuses what the encoder makes of a character beyond ASCII (`UrlCodec.DecodeEncode`).
- The base 32 decoder rejects no ASCII character (`Base32.ReadsEveryAsciiString`).
- The field `current_ms` of the clock counts microseconds (`TickCounter.Instance`).

## Model

| member | source | states |
|---|---|---|
| `ShaContext.Context.AddLength` | c-utility/src/sha224.c:67-70 | The length macro adds to the 64-bit count split in two words and raises Corrupted exactly when that count wraps |
| `ShaContext.Context.Input` | c-utility/src/sha224.c:226-257 | Empty input changes nothing; input after a result or on a corrupted context is refused with the right code; otherwise the bytes are appended, and Corrupted is raised exactly when the bit count reaches 2^64 although the call still reports success |
| `ShaContext.Context.ProcessMessageBlock` | c-utility/src/sha224.c:450-518 | Hashing the full block buffer extends the chaining value of the blocks before it by that block, for SHA-1 (Compress1) and SHA-224/256 (Compress2) |
| `ShaContext.Context.ProcessSha1Block` | c-utility/src/sha1.c:365-439 | The 80-word schedule and the four round loops compute the SHA-1 compression of FIPS 180-2 |
| `ShaContext.Context.ProcessSha2Block` | c-utility/src/sha224.c:450-518 | The 64-word schedule and the round loop compute the SHA-224/256 compression of FIPS 180-2 |
| `ShaContext.Context.PadMessage` | c-utility/src/sha224.c:395-429 | Both branches of the padder hash exactly the padded blocks of the message, with bits of a partial last byte included |
| `ShaContext.Context.FinalBits` | c-utility/src/sha224.c:278-315 | One to seven final bits end the message after its bytes; zero bits do nothing; eight or more, or a second call, corrupt the context |
| `ShaContext.Context.Result` | c-utility/src/sha224.c:580-599 | The digest written is that of the whole message, padding is done once, a second call gives the same digest, and a corrupted context writes nothing |
| `ShaContext.ModifiedMacros` | c-utility/inc/azure_c_shared_utility/sha-private.h:16-30 | The alternative Ch and Maj macros compute the functions of FIPS 180-2 |
| `ShaContext.MarkBit` | c-utility/src/sha224.c:278-315 | The mask and mark tables keep the final bits, set the next bit and clear the rest |
| `ShaContext.PaddedSplit` | c-utility/src/sha224.c:395-429 | One or two final blocks, as the branch on the block index decides, complete the padded message of section 5.1.1 |
| `HashConstants.PrimesInOrder` | c-utility/src/sha224.c:452-468 | The table the constants are measured against holds all primes in order: each is prime, and the t-th has t primes below it |
| `HashConstants.RoundConstants2` | c-utility/src/sha224.c:452-468 | Section 4.2.2 of FIPS 180-2: with p the t-th prime and r the integer part of its cube root, r * 2^32 + K[t] is the integer part of 2^32 times the cube root of p |
| `HashConstants.RoundConstants1` | c-utility/src/sha1.c:365-371 | Section 4.2.1: the four constants are the integer parts of 2^30 times the square roots of 2, 3, 5 and 10 |
| `HashConstants.InitialHash256` | c-utility/src/sha224.c:88-92 | Section 5.3.2: the first 32 bits behind the point of the square roots of the first eight primes |
| `HashConstants.InitialHash224` | c-utility/src/sha224.c:82-86 | Change Notice 1: the second 32 bits behind the point of the square roots of the ninth to the sixteenth prime |
| `HashConstants.InitialHash1` | c-utility/src/sha1.c:87-100 | The five words, least significant byte first, count the hexadecimal digits up and down |
| `HashExamples.SHA1OfAbc` | c-utility/src/sha1.c:365-439 | The digest of "abc" is that of appendix A.1 of FIPS 180-2, through all 80 rounds |
| `HashExamples.SHA256OfAbc` | c-utility/src/sha224.c:450-518 | The digest of "abc" is that of appendix B.1, through all 64 rounds |
| `Padding.PadLayout` | c-utility/src/sha1.c:310-345 | Message, pad byte, minimal zero fill and 64-bit length are exactly the padded bit string, as blocks |
| `Padding.PadInjective` | c-utility/src/sha1.c:310-345 | Two different bit strings under 2^64 bits never give the same block sequence |
| `HashRuns.Digest` | c-utility/src/sha224.c:226-257 | For every split of the input into calls, with optional final bits, both results equal the FIPS 180-2 digest of the concatenation, and success means exactly that the bytes number fewer than 2^61 |
| `Hmac.HmacContext.FillPads` | c-utility/src/hmac.c:72-132 | The two loops fill both pads with the zero-extended key XORed with 0x36 and 0x5c |
| `Hmac.HashKey` | c-utility/src/hmac.c:72-132 | A key longer than a block is replaced by its digest |
| `Hmac.HmacOfShortKey` | c-utility/src/hmac.c:72-132 | For a key of up to 64 bytes the value is the digest of the key XORed with 0x5c and the digest of the key XORed with 0x36 and the text, the key extended with zero bytes |
| `Hmac.HmacOfLongKey` | c-utility/src/hmac.c:72-132 | A longer key gives the same value as its digest |
| `Hmac.HmacContext.Reset` | c-utility/src/hmac.c:72-132 | After a reset the inner context holds the inner pad and the outer pad is kept, for every key length |
| `Hmac.HmacContext.Input` | c-utility/src/hmac.c:154-160 | Text is appended to what the inner context hashes, up to the wrap of its bit count |
| `Hmac.HmacContext.Result` | c-utility/src/hmac.c:211-231 | The value is H(K xor opad, H(K xor ipad, text)) although the digest buffer serves as inner result and outer input |
| `HashRuns.HmacDigest` | c-utility/src/hmac.c:72-231 | For every key and every split of the text the streamed value is the HMAC of section 2 of RFC 2104, and it succeeds exactly when a block and the text are under 2^64 bits |
| `HttpStream.Poll` | c-utility/adapters/httpapi_compact.c:397-434 | Bytes are only moved from what is still to come to the receive buffer, never lost or reordered |
| `HttpStream.Receive` | c-utility/adapters/httpapi_compact.c:446-494 | A successful receive takes exactly n bytes off the front of the stream; a failed or stalled one takes none |
| `StreamTiming.ReceiveExactly` | c-utility/adapters/httpapi_compact.c:446-494 | A receive succeeds if and only if the n bytes are shown before any I/O error, however many calls of xio_dowork that takes; it fails if and only if an error comes first |
| `StreamTiming.SkipExactly` | c-utility/adapters/httpapi_compact.c:625-687 | Discarding n bytes succeeds if and only if they are shown, before any error, within the budget of calls, and then takes exactly n |
| `StreamTiming.ReadLineExactly` | c-utility/adapters/httpapi_compact.c:509-597 | On any stream the text in front of the next CR is returned if and only if it is shorter than the limit and shown with its CR, before any error, within the budget of calls |
| `StreamTiming.Budget` | c-utility/adapters/httpapi_compact.c:509-687 | With the figures of the source: lines of at most 1022 characters, and 201 calls of xio_dowork for each line or skip |
| `HttpReader.HttpInstance.ConnReceive` | c-utility/adapters/httpapi_compact.c:446-494 | The loop returns exactly the count asked for, -1 on an I/O error, and never ends when the peer falls silent: it has no retry bound |
| `HttpReader.HttpInstance.ScanLine` | c-utility/adapters/httpapi_compact.c:509-597 | The scan stops at the first CR, drops an LF only when it has already arrived, and gives up when the line does not fit |
| `HttpReader.HttpInstance.ReadLine` | c-utility/adapters/httpapi_compact.c:509-597 | The nested loops compute the line function of the stream within the retry budget |
| `HttpReader.HttpInstance.SkipN` | c-utility/adapters/httpapi_compact.c:625-687 | The loop discards exactly n bytes within the retry budget, and returns n cast to int or -1 |
| `HttpReader.HttpInstance.ReadChunk` | c-utility/adapters/httpapi_compact.c:599-623 | The loop reads the size cast to int in one receive; for a negative cast it counts back to zero and reads nothing |
| `HttpReader.ParseStringToHexadecimal` | c-utility/adapters/httpapi_compact.c:81-105 | The loop yields the value of the leading hexadecimal digits modulo 2^64, or no number without a digit |
| `ChunkSizes.NumeralIsParsed` | c-utility/adapters/httpapi_compact.c:79-105 | A number written in hexadecimal, with digits of either case, is read as that number modulo 2^64, whatever other than a digit follows |
| `ChunkSizes.NotParsed` | c-utility/adapters/httpapi_compact.c:81-105 | Text without a hexadecimal digit in front is no number |
| `ChunkSizes.BodyIsRead` | c-utility/adapters/httpapi_compact.c:1012-1150 | A body of any pieces with their sizes in hexadecimal and any extensions is read in full if and only if it is on time; the content is the pieces put together |
| `ChunkSizes.LargeSizes` | c-utility/adapters/httpapi_compact.c:1102-1133 | A chunk size is cast to int: with memory a chunk is stored if and only if the low 32 bits of its size, as a signed number, are not negative and that many bytes arrive |
| `ChunkSizes.LargeSizesDiscarded` | c-utility/adapters/httpapi_compact.c:1114-1133 | When discarded such a chunk is skipped in full, and refused all the same when the cast is negative |
| `ChunkSizes.NoSize` | c-utility/adapters/httpapi_compact.c:1060-1100 | A size line without a digit ends the body as a bad response |
| `ChunkSizes.NoMemoryForChunk` | c-utility/adapters/httpapi_compact.c:1102-1113 | A chunk there is no memory for ends the body, and what was stored is given up |
| `ChunkSizes.PlainBodyRefused` | c-utility/adapters/httpapi_compact.c:1012-1060 | A body with a Content-Length needs an empty BUFFER and memory; one of no bytes needs nothing |
| `HttpReader.HttpInstance.TakeData` | c-utility/adapters/httpapi_compact.c:1102-1133 | The data of a chunk goes to its place in the enlarged buffer or is skipped |
| `HttpReader.HttpInstance.ReadBody` | c-utility/adapters/httpapi_compact.c:1012-1150 | The whole body reader computes the body function of the stream, on a BUFFER or on NULL |
| `ChunkedBody.ReadLineClean` | c-utility/adapters/httpapi_compact.c:509-597 | On an error-free stream the next line is read in full unless it comes late, and its LF is left over exactly when it had not arrived when the CR was scanned |
| `ChunkedBody.SkipClean` | c-utility/adapters/httpapi_compact.c:625-687 | Discarding succeeds exactly when the last byte arrives within the retry budget |
| `ChunkedBody.CutChunkFails` | c-utility/adapters/httpapi_compact.c:1060-1146 | A size line cut after its CR makes the chunk fail |
| `ChunkedBody.ChunkClean` | c-utility/adapters/httpapi_compact.c:1102-1143 | A chunk read on time is stored in full and leaves the stream at the next one |
| `ChunkedBody.DecodeEncode` | c-utility/adapters/httpapi_compact.c:1060-1146 | Decoding an encoding returns OK if and only if everything is on time, and then has stored exactly the chunks and consumed exactly the encoding; otherwise it is a read failure |
| `ChunkedBody.ChunkedBodyRoundTrip` | c-utility/adapters/httpapi_compact.c:1012-1150 | The same for the whole call on an empty BUFFER or on NULL |
| `ChunkedBody.PlainBody` | c-utility/adapters/httpapi_compact.c:1021-1066 | A body with a Content-Length is returned exactly, or waited for without end when the stream is short |
| `ChunkedBody.BufferedIsOnTime` | c-utility/adapters/httpapi_compact.c:397-434 | An encoding that has arrived before the call is always on time |
| `ChunkedBody.OnlyLengthsMatter` | c-utility/adapters/httpapi_compact.c:397-687 | Whether everything is on time depends only on the lengths of the fragments, size lines and data |
| `ChunkedBody.CutExample` | c-utility/adapters/httpapi_compact.c:509-597 | The same body in one fragment decodes, and in two with the cut after a CR it does not |
| `ProxyResponse.HeaderLength` | c-utility/src/http_proxy_io.c:647-656 | The header found ends at a double new-line with no NUL before it |
| `ProxyResponse.ParseHttpResponse` | c-utility/src/http_proxy_io.c:533-604 | The pointer loops compute the status of the response: prefix, first dot, first blank after it, then a strtol number cast to int |
| `ProxyResponse.StatusStable` | c-utility/src/http_proxy_io.c:533-604 | Bytes after a header, or after whole lines of one, that have a status do not change the status |
| `ProxyIo.Instance.HttpProxyIoOpen` | c-utility/src/http_proxy_io.c:703-760 | Open is accepted only when closed and the underlying open succeeds; one step of the machine |
| `ProxyIo.Instance.HttpProxyIoClose` | c-utility/src/http_proxy_io.c:762-824 | Close cancels a pending open at once, or closes the underlying IO and restores the state when that fails |
| `ProxyIo.Instance.HttpProxyIoSend` | c-utility/src/http_proxy_io.c:826-870 | Data reaches the underlying IO only in the open state |
| `ProxyIo.Instance.OnUnderlyingIoOpenComplete` | c-utility/src/http_proxy_io.c:245-445 | Each state and each result of the underlying open is one step of the machine |
| `ProxyIo.Instance.OnUnderlyingIoError` | c-utility/src/http_proxy_io.c:447-477 | An error fails a pending open or is reported once the tunnel is open |
| `ProxyIo.Instance.OnUnderlyingIoCloseComplete` | c-utility/src/http_proxy_io.c:479-511 | A completed close is reported once, if a callback was given |
| `ProxyIo.Instance.OnUnderlyingIoBytesReceived` | c-utility/src/http_proxy_io.c:606-701 | Bytes fail an opening, are collected while waiting, and are passed on once open; one step of the machine |
| `ProxyIo.Instance.DecideOnHeader` | c-utility/src/http_proxy_io.c:647-692 | A complete header opens or fails the tunnel, and what follows it is passed on |
| `ProxyRuns.OpenCompletions` | c-utility/src/http_proxy_io.c:230-477 | Over every interleaving each accepted open gets exactly one completion, no later than the state leaves opening or waiting, plus one for each double report |
| `ProxyRuns.StepBalance` | c-utility/src/http_proxy_io.c:606-701 | A step reports exactly the completions it owes, except when memory runs out with a whole header already in the buffer |
| `ProxyRuns.NoDoubleReportWithMemory` | c-utility/src/http_proxy_io.c:606-701 | With memory for every received byte no open is reported twice |
| `ProxyRuns.NoDoubleReportOnFirstOpen` | c-utility/src/http_proxy_io.c:606-701 | On the first open of an instance no open is reported twice, whatever memory there is |
| `ProxyRuns.BytesOnlyWhenOpen` | c-utility/src/http_proxy_io.c:606-701 | Over every run no byte is delivered, and none sent, other than after IO_OPEN_OK of the latest open |
| `ProxyRuns.SendsTransparently` | c-utility/src/http_proxy_io.c:826-870 | Over every run the underlying IO is given exactly the bytes sent while the tunnel was open, in order |
| `ProxyRuns.Reports` | c-utility/src/http_proxy_io.c:245-511 | Over every run, cancellations, errors and completed closes are reported exactly as often as their causes occur |
| `ProxyRuns.UnderlyingIsClosed` | c-utility/src/http_proxy_io.c:230-824 | Over every run the underlying IO has been opened and not closed since while an open is pending, and has been closed whenever the instance is closed or closing |
| `ProxyRuns.RequestsOnce` | c-utility/src/http_proxy_io.c:245-445 | Over every run each accepted open opens the underlying IO once, and each time that is open one CONNECT request is sent |
| `ProxyRuns.HeaderStable` | c-utility/src/http_proxy_io.c:647-656 | Bytes after a header do not change where it ends |
| `ProxyRuns.TunnelRun` | c-utility/src/http_proxy_io.c:606-701 | For every fragmentation nothing happens until the header is complete; then the open completes once and exactly the bytes after the header are delivered |
| `ProxyRuns.TunnelTransparent` | c-utility/src/http_proxy_io.c:606-701 | A stream H + P with a 2xx header opens the tunnel once and delivers exactly P; any other status fails the open once and delivers nothing |
| `ProxyCodes.StatusIsNumber` | c-utility/src/http_proxy_io.c:533-604 | The status is the number behind the blank of the status line, decimal, octal or hexadecimal and with its sign, brought into the range of a 64-bit long and cast to int |
| `ProxyCodes.StatusIsCode` | c-utility/src/http_proxy_io.c:533-604 | The status of a response is the decimal code behind the blank of its status line |
| `ProxyCodes.CodeDecides` | c-utility/src/http_proxy_io.c:606-701 | For every fragmentation a response opens the tunnel and P is delivered if its code is from 200 to 299; with any other code the open fails and nothing is delivered |
| `ProxyCodes.LineIsHeader` | c-utility/src/http_proxy_io.c:647-656 | A status line and an empty line are a whole header |
| `ProxyRuns.HeaderAfter` | c-utility/src/http_proxy_io.c:606-656 | Behind leftover bytes without a header the next header ends where the new response ends its own: no double new-line lies across its first character |
| `ProxyRuns.LeftoverDecides` | c-utility/src/http_proxy_io.c:606-701 | For every leftover and every fragmentation of a response H + P: H decides by its own status and exactly P is delivered if and only if the leftover is harmless: without a header it must hold no NUL and not turn the verdict, with one both responses must be failures |
| `ProxyRuns.StatusLineDecides` | c-utility/src/http_proxy_io.c:606-701 | A leftover of whole lines that bear a status decides the new open by that status, though no header is complete |
| `ProxyRuns.StaleResponseDecides` | c-utility/src/http_proxy_io.c:606-701 | A leftover with a whole header and a status decides the new open by that status, and on success the new response is delivered as payload |
| `ProxyRuns.LeavesOver` | c-utility/src/http_proxy_io.c:606-824 | From a new instance, one open, any bytes received and a close end closed with exactly these bytes in the buffer |
| `ProxyRuns.SecondOpen` | c-utility/src/http_proxy_io.c:606-824 | So after any first use of a new instance, what the second open reports and delivers is that of its own response if and only if the bytes of the first are harmless |
| `ProxyRuns.RefusalLeftOver` | c-utility/src/http_proxy_io.c:533-604 | The line of a 407 response, left over, is harmful to every response that should succeed |
| `ProxyRuns.ReopenReportsTwice` | c-utility/src/http_proxy_io.c:606-701 | A reopen with a header in the buffer that runs out of memory at its first bytes is reported twice |
| `ProxyRuns.ReuseReportsTwice` | c-utility/src/http_proxy_io.c:606-824 | From a new instance: two opens, the second short of memory after a first response with a header, are reported three times |
| `ProxyRuns.Play` | c-utility/src/http_proxy_io.c:606-870 | Driven through any events from its constructor, the instance ends in the state and has made the calls of the run, with as many opens accepted; so completions are accounted for and bytes flow only when open |
| `HttpApiEx.Sender.ExecuteRequest` | c-utility/src/httpapiex.c:347-474 | The retry loop ends for every pattern of successes and failures, makes exactly the calls of the decision tree, and returns OK exactly when its last send succeeded; the level stays within 0..2 wherever st is indexed |
| `HttpApiEx.Sender.Resend` | c-utility/src/httpapiex.c:353-470 | From the level the handle is at, the loop makes exactly the calls that the decision tree has to come, and ends connected on success only |
| `HttpApiEx.Sender.Iteration` | c-utility/src/httpapiex.c:358-470 | One pass of the loop body: a step tried or skipped, then one level up or one level unwound |
| `HttpApiEx.LoopAdvances` | c-utility/src/httpapiex.c:353-470 | Every pass that does not finish the request stays among the expected states and lowers the rank |
| `HttpApiEx.LoopStep` | c-utility/src/httpapiex.c:358-470 | Every pass makes the first of the calls that the decision tree still has to come |
| `HttpApiEx.Sender.SetOption` | c-utility/src/httpapiex.c:582-657 | An option is saved in place or appended, set on an open connection, and the answers are those of the layer below |
| `HttpApiEx.Sender.Destroy` | c-utility/src/httpapiex.c:501-514 | A connected handle closes its connection and deinitialises; any other does nothing |
| `HttpApiExRuns.RequestLevel` | c-utility/src/httpapiex.c:347-474 | Every request keeps the order Init, Connect, Execute, Close, Deinit, and ends connected exactly when its last send succeeded |
| `HttpApiExRuns.RequestAttempts` | c-utility/src/httpapiex.c:347-474 | At most one Init, two connection and three send attempts, one of each when starting unconnected, with the one case of three sends |
| `HttpApiExRuns.Balance` | c-utility/src/httpapiex.c:353-474 | What a legal sequence of calls holds is what it acquired and has not released |
| `HttpApiExRuns.RunLevel` | c-utility/src/httpapiex.c:347-474 | Between any two actions of any run exactly what the handle says is held |
| `HttpApiExRuns.DestroyReleasesAll` | c-utility/src/httpapiex.c:501-514 | After any run, destroying the handle leaves inits and deinits, and connections and closings, balanced |
| `HttpApiExRuns.OptionsReachConnection` | c-utility/src/httpapiex.c:385-407 | Whenever a run leaves a connection open, every saved option has been set on it with its latest value |
| `HttpApiExRuns.OptionTakesEffect` | c-utility/src/httpapiex.c:582-657 | An option is saved, and given to an open connection, if and only if its value can be copied and a new name finds memory |
| `HttpApiExRuns.Play` | c-utility/src/httpapiex.c:347-514 | A handle driven through any actions and then destroyed has made exactly the calls of the run and the teardown, and nothing is left acquired |
| `DoublyLinkedList.InitializeListHead` | c-utility/src/doublylinkedlist.c:6-14 | A head alone is a ring |
| `DoublyLinkedList.IsListEmpty` | c-utility/src/doublylinkedlist.c:16-24 | Empty exactly when the head is alone |
| `DoublyLinkedList.InsertTailList` | c-utility/src/doublylinkedlist.c:65-80 | The ring gains the entry at its end |
| `DoublyLinkedList.InsertHeadList` | c-utility/src/doublylinkedlist.c:101-107 | The ring gains the entry right after its head |
| `DoublyLinkedList.RemoveHeadList` | c-utility/src/doublylinkedlist.c:45-61 | The oldest entry leaves the ring, or the head is returned and nothing changes |
| `DoublyLinkedList.RemoveEntryList` | c-utility/src/doublylinkedlist.c:26-43 | Any entry leaves whatever ring holds it, its own links untouched, and the result is non-zero exactly when at most one node remains |
| `DoublyLinkedList.AppendTailList` | c-utility/src/doublylinkedlist.c:83-97 | Two disjoint rings become their concatenation, the second head included |
| `DoublyLinkedList.JoinRing` | c-utility/src/doublylinkedlist.c:83-97 | Two chains linked at both seams form one ring |
| `DoublyLinkedList.WithoutRing` | c-utility/src/doublylinkedlist.c:26-43 | A ring with the neighbours of an entry joined is a ring without the entry |
| `DoublyLinkedList.RingIsUnique` | c-utility/src/doublylinkedlist.c:6-107 | The links leave no choice of entries or order: a head stands for one sequence |
| `DoublyLinkedList.FirstInFirstOut` | c-utility/src/doublylinkedlist.c:45-80 | Whatever entries go in at the tail come out at the head in the same order |
| `GbAlloc.Tracker.Malloc` | c-utility/src/gballoc.c:78-132 | A granted block is tracked and charged; without a record or memory nothing changes |
| `GbAlloc.Tracker.Calloc` | c-utility/src/gballoc.c:134-188 | The same with the product of the sizes, which wraps in 64 bits |
| `GbAlloc.Tracker.Realloc` | c-utility/src/gballoc.c:190-283 | NULL tracks a new block, a tracked pointer has its record rewritten and recharged, an untracked one is refused |
| `GbAlloc.Tracker.Free` | c-utility/src/gballoc.c:285-337 | The record of the pointer leaves the list and its size the total; an untracked pointer is not freed |
| `GbAlloc.Tracker.Find` | c-utility/src/gballoc.c:216-230 | The walk stops at the first record of the pointer, with its predecessor |
| `GbAlloc.Tracker.Unlink` | c-utility/src/gballoc.c:304-326 | Joining the neighbours of a record takes exactly it off the list |
| `GbAlloc.Tracker.Reset` | c-utility/src/gballoc.c:420-441 | All three figures become zero and the list is kept |
| `GbAllocRuns.RunTracks` | c-utility/src/gballoc.c:78-337 | In every run the list is exactly the live blocks it is answerable for, each once, with its true size |
| `GbAllocRuns.RunTotal` | c-utility/src/gballoc.c:78-337 | The total is the sum of tracked sizes less that sum at the last reset, modulo 2^64 |
| `GbAllocRuns.TotalIsSum` | c-utility/src/gballoc.c:366-391 | The memory reported is the memory tracked if and only if nothing of any size was tracked at the last reset |
| `GbAllocRuns.FreeAfterReset` | c-utility/src/gballoc.c:285-337 | Freeing a block from before a reset makes the reported total wrap around |
| `GbAllocRuns.RunMaximum` | c-utility/src/gballoc.c:119-124 | Without resets the maximum is the highest total ever reached, and the total the sum of tracked sizes |
| `GbAllocRuns.RunCount` | c-utility/src/gballoc.c:393-418 | The count is the number of requests granted since the last reset: frees never lower it |
| `GbAllocRuns.CountIsCurrent` | c-utility/src/gballoc.c:393-418 | The count is the current number of allocations if and only if as many tracked blocks were freed or reallocated since the last reset as there were then, in 64 bits |
| `GbAllocRuns.CountAfterFree` | c-utility/src/gballoc.c:285-337 | One block of any size allocated and freed leaves a count of one and no block |
| `GbAllocRuns.SoundStep` | c-utility/src/gballoc.c:78-337 | Blocks of an honest library stay within the address space and apart from each other |
| `GbAllocRuns.TrackedFits` | c-utility/src/gballoc.c:78-337 | Hence the tracked sizes together, and the number of tracked blocks, are below 2^64 |
| `GbAllocRuns.Play` | c-utility/src/gballoc.c:78-441 | The module driven through any requests reports, through its three getters, the figures of the run |
| `Base64.TablesAgree` | c-utility/src/base64.c:43-58 | The packed tables hold the characters of the shifted values |
| `Base64.EncodeInternal` | c-utility/src/base64.c:236-314 | The loop and its two tails write the encoding and its terminator, filling the buffer exactly |
| `Base64.EncodeIsBase64` | c-utility/src/base64.c:236-314 | The encoding is base 64 as section 4 of RFC 4648 defines it, bit by bit, with its padding |
| `Alphabets.Symbol64Is` | c-utility/src/base64.c:18-41 | The characters of base 64 are those of table 1 of RFC 4648 |
| `Alphabets.Base64ReadsTable` | c-utility/src/base64.c:60-100 | The decoder reads exactly the characters of the table, each as its place |
| `Base64.NumberOfBase64Characters` | c-utility/src/base64.c:91-100 | The length of the longest prefix of alphabet characters |
| `Base64.Decode` | c-utility/src/base64.c:128-185 | The prefix of alphabet characters is decoded and the rest of the buffer is left as it was |
| `Base64.DecodeEncode` | c-utility/src/base64.c:104-185 | Decoding an encoding gives the bytes back and fills the allotted buffer exactly |
| `Base64.WritesWithinBuffer` | c-utility/src/base64.c:104-185 | For any string of a length divisible by four the decoder stays within its buffer, and fills it if and only if all characters before the padding are in the alphabet |
| `Base64.Decoder` | c-utility/src/base64.c:187-233 | No result exactly for a bad length or without memory; otherwise a buffer of the decoded length that starts with the decoded bytes |
| `Base32.Places` | c-utility/src/base32.c:101-139 | The two fall-through switches give the five-bit places of the zero-extended block, with padding in the unused ones |
| `Base32.EncodeImpl` | c-utility/src/base32.c:70-153 | The loop writes the encoding and its terminator, filling the buffer exactly |
| `Base32.EncodeLength` | c-utility/src/base32.c:25-28 | The length of the encoding is 8 * ceil(n / 5) |
| `Base32.EncodeIsBase32` | c-utility/src/base32.c:70-153 | The encoding is base 32 as section 6 of RFC 4648 defines it, in lower case, with its padding |
| `Alphabets.Symbol32Is` | c-utility/src/base32.c:12-28 | The characters of base 32 are those of table 3 of RFC 4648, in lower case |
| `Alphabets.Base32ReadsTable` | c-utility/src/base32.c:35-68 | The decoder reads the table, capital letters as small ones, and an opening brace as a 2 |
| `Base32.DecodeImpl` | c-utility/src/base32.c:155-264 | The nested loops compute the decoding: no result exactly for a bad length, a non-ASCII character or without memory; the overflow check never fires |
| `Base32.DecodeEncode` | c-utility/src/base32.c:70-264 | Decoding an encoding gives the bytes back for every length of the last block |
| `Base32.FortyBits` | c-utility/src/base32.c:101-243 | Forty bits packed from the places of a block are its bytes, and the padding tells their number |
| `Base32.ReadsEveryAsciiString` | c-utility/src/base32.c:35-68 | The decoder rejects no ASCII character: it decodes every string as the alphabet string it reads it as |
| `Base32.ReadAsIs` | c-utility/src/base32.c:35-68 | Upper case is read as lower case, an opening brace as 2, anything else outside the alphabet is no place of its own |
| `Numbers.SizeTToString` | c-utility/src/crt_abstractions.c:777-822 | The conversion succeeds exactly when the numeral and its terminator fit, and then writes just these |
| `Numbers.WriteDigits` | c-utility/src/crt_abstractions.c:793-798 | The loop writes the numeral backwards and finishes exactly when it fits |
| `Numbers.ReversePrefix` | c-utility/src/crt_abstractions.c:801-811 | The swaps up to the middle reverse the digits in place |
| `Numbers.NumberOfDecimal` | c-utility/src/crt_abstractions.c:777-822 | The numeral denotes the number |
| `Numbers.StrToULL` | c-utility/src/crt_abstractions.c:290-389 | The runner computes the conversion of any string in any base, and sets errno only when it converts |
| `Numbers.CappedStep` | c-utility/src/crt_abstractions.c:353-368 | The check before the multiplication finds exactly the overflows, and they stick |
| `Numbers.DigitStringIsConverted` | c-utility/src/crt_abstractions.c:290-389 | A plain digit string in bases 2 to 36 is converted to min(N, 2^64 - 1), whole, with ERANGE exactly on overflow, if and only if it is not the octal 0 |
| `NumeralConversions.NumeralIsConverted` | c-utility/src/crt_abstractions.c:280-389 | For every number, base, sign and run of blanks, with or without its prefix, in lower or upper case, and whatever follows its digits: the numeral is read to its end and gives the number or, with ERANGE, the largest; with a minus sign, what is missing to 2^64 |
| `NumeralConversions.DigitsOfBase` | c-utility/src/crt_abstractions.c:280-282 | The digits of a base are its first characters in the list of digits and letters of either case, and no others |
| `NumeralConversions.DecimalIsNumeral` | c-utility/src/crt_abstractions.c:777-822 | The text written is the numeral in base 10 |
| `NumeralConversions.RoundTrip` | c-utility/src/crt_abstractions.c:777-822 | Number to text and back gives the number, and reads up to the terminator |
| `Numbers.OverflowResult` | c-utility/src/crt_abstractions.c:353-386 | An overflow gives the largest number exactly when there is no minus sign, and 1 with one |
| `Numbers.StandardExactly` | c-utility/src/crt_abstractions.c:290-389 | For every string and every base the result, end and error are those of strtoull in section 7.20.1.4 of the C99 standard if and only if no prefix is taken without a digit behind it and no negative number overflows |
| `Numbers.BarePrefixIs` | c-utility/src/crt_abstractions.c:321-340 | The prefixes taken without a digit: a zero in base 0 or 8 with neither x nor an octal digit behind it, or 0x in base 0 or 16 with no hexadecimal digit |
| `Numbers.LoneZero` | c-utility/src/crt_abstractions.c:321-340 | Strings of this kind: "0", "0 ", "08", "0x" and "0xg" are not converted |
| `KeyValueMap.Map.IncreaseStorage` | c-utility/src/map.c:161-207 | Both arrays grow by a slot, or the map is as before |
| `KeyValueMap.Map.DecreaseStorage` | c-utility/src/map.c:209-246 | The last slot goes, and with the only slot the filter |
| `KeyValueMap.Map.FindKey` | c-utility/src/map.c:248-269 | The first place of the key |
| `KeyValueMap.Map.InsertNewKeyValue` | c-utility/src/map.c:294-325 | Under every failure of an allocation the pair is added last or the pairs are as before |
| `KeyValueMap.Map.MapAdd` | c-utility/src/map.c:327-375 | An existing key or a refused pair changes nothing; otherwise the pair is inserted |
| `KeyValueMap.Map.MapAddOrUpdate` | c-utility/src/map.c:377-440 | The value of an existing key is replaced in place, a new key goes last |
| `KeyValueMap.Map.MapDelete` | c-utility/src/map.c:442-478 | The pair goes and the later ones move down |
| `KeyValueMap.Map.GetValueFromKey` | c-utility/src/map.c:528-557 | The value of the key, or nothing |
| `KeyValueMap.Map.Clone` | c-utility/src/map.c:99-159 | The copy has the same pairs and filter, but the copy of an empty map has no filter |
| `KeyValueMapRuns.StepIsMapOperation` | c-utility/src/map.c:327-478 | Every call keeps the keys distinct and in insertion order; a successful one updates or removes its key in the finite map, a failed one leaves all pairs unchanged |
| `KeyValueMapRuns.ResultIs` | c-utility/src/map.c:327-478 | Which calls succeed, and with which code the others fail, in terms of the finite map, the filter and the memory |
| `KeyValueMapRuns.RunKeepsKeysDistinct` | c-utility/src/map.c:327-478 | Keys are distinct after every run |
| `KeyValueMapRuns.Play` | c-utility/src/map.c:327-557 | A map driven through any calls holds under every key what the run holds |
| `KeyValueMapRuns.FilterSurvives` | c-utility/src/map.c:209-219 | The filter a map was made with is still there if and only if no call deleted the only key or failed a first insertion for its strings |
| `KeyValueMapRuns.FilterHolds` | c-utility/src/map.c:352-356 | As long as the filter is there the map holds no pair it refuses |
| `KeyValueMapRuns.RefusedPairGetsIn` | c-utility/src/map.c:209-219 | Once a map has been emptied, a refused pair gets in |
| `HttpHeaders.Headers.ReplaceHeaderNameValuePair` | c-utility/src/httpheaders.c:68-165 | Names are checked, leading blanks dropped, values joined or replaced, and each failure has its code |
| `HttpHeaders.Headers.GetHeader` | c-utility/src/httpheaders.c:236-300 | The line of the indexed header is name, colon, blank and value |
| `HttpHeaders.Headers.FindHeaderValue` | c-utility/src/httpheaders.c:179-200 | The value stored under the name |
| `HttpHeaders.StoredValue` | c-utility/src/httpheaders.c:103-161 | Over every run with any failures, the value under a name is the values accepted since its last replacement, trimmed and joined by comma and blank |
| `HttpHeaders.Play` | c-utility/src/httpheaders.c:68-234 | Headers set in any order with any failures: the value found is the accepted ones joined, and the count that of the names stored |
| `HttpHeaders.AddedValues` | c-utility/src/httpheaders.c:111-146 | Values added one after the other under a new name are stored joined |
| `HttpHeaders.StoreResult` | c-utility/src/httpheaders.c:68-165 | A header is accepted if and only if its name is graphic without a colon and there is memory for what has to be stored; each failure has its code |
| `HttpHeaders.GrantedValues` | c-utility/src/httpheaders.c:103-161 | With memory, values added one after the other under any new graphic name are stored joined |
| `HttpHeaders.TrimIs` | c-utility/src/httpheaders.c:103-107 | Leading blanks, tabs and line ends are all that is left out of a value |
| `HttpHeaders.NamesAreValid` | c-utility/src/httpheaders.c:83-99 | Only valid names are ever stored, each once |
| `HttpHeaders.LineSplits` | c-utility/src/httpheaders.c:284-291 | The line of a header gives its name and value back: the first colon ends the name |
| `UrlCodec.UrlEncode` | c-utility/src/urlencode.c:244-291 | The two passes write the encoding and its terminator, filling the buffer exactly |
| `UrlCodec.CalculateDecodedStringSize` | c-utility/src/urlencode.c:106-170 | The first pass gives the exact size of the decoded string, or 0 for a string the decoder does not accept |
| `UrlCodec.CreateDecodedString` | c-utility/src/urlencode.c:180-198 | The second pass, which checks nothing, writes exactly the decoded string and its terminator |
| `UrlCodec.UrlDecode` | c-utility/src/urlencode.c:316-352 | No result exactly for a string that is not accepted or without memory |
| `UrlCodec.DecodeEncode` | c-utility/src/urlencode.c:54-198 | Decoding an encoding gives the text back if and only if the text is ASCII; any other encoding is refused |
| `UrlCodec.EncodesUtf8` | c-utility/src/urlencode.c:54-104 | A byte beyond ASCII is taken as Latin-1 and encoded as percent-encoded UTF-8 |
| `UrlCodec.EncodingIsSafe` | c-utility/src/urlencode.c:20-29 | An encoding consists of printable characters and percent signs only |
| `UrlCharacters.KeptIsUnchanged` | c-utility/src/urlencode.c:20-29 | Text of letters, digits and the seven marks is its own encoding |
| `UrlCharacters.OthersArePercent` | c-utility/src/urlencode.c:54-104 | Every other ASCII character becomes a percent sign and its code in two lower-case hexadecimal digits |
| `UrlCharacters.Utf8Carries` | c-utility/src/urlencode.c:54-104 | The two bytes encoded for a character beyond ASCII carry its code point as UTF-8 does |
| `UrlCharacters.AcceptedIs` | c-utility/src/urlencode.c:106-170 | The decoder takes the kept characters, and a percent sign with the two hexadecimal digits of an ASCII code |
| `UrlCharacters.PercentIsDecoded` | c-utility/src/urlencode.c:180-198 | An ASCII code in two hexadecimal digits of either case is decoded to its character |
| `SasTokenBuilder.ComputeHash` | c-utility/src/hmacsha256.c:9-35 | The HMAC of the payload under the key, or none for an empty key or payload |
| `SasTokenBuilder.ExpirationTime` | c-utility/src/sastoken.c:209-223 | The buffer of 32 characters is large enough for every expiry: the conversion never fails |
| `SasTokenBuilder.Sign` | c-utility/src/sastoken.c:240-275 | The signature is the URL encoding of the base 64 of the HMAC-SHA256 over scope, line feed and expiry, or none for an empty key |
| `SasTokenBuilder.PayloadIs` | c-utility/src/sastoken.c:233-248 | What is signed is the scope, a line feed and the expiry in decimal |
| `SasTokenBuilder.LayOut` | c-utility/src/sastoken.c:276-283 | The pieces appended one after the other are the token |
| `SasTokenBuilder.SignatureShape` | c-utility/src/sastoken.c:273-275 | A signature has at least 44 characters and no equals sign |
| `SasTokenBuilder.ConstructSasToken` | c-utility/src/sastoken.c:205-303 | A token is built exactly when the key is decoded to something and memory suffices; its signature is the URL encoding of the base 64 of HMAC-SHA256 over scope and expiry; a key that encodes k is used as k |
| `SasTokenBuilder.BuiltTokenIsAccepted` | c-utility/src/sastoken.c:37-303 | For every key the token built is accepted until it expires, if and only if its scope has at least two characters and its expiry is positive |
| `SasToken.Advance` | c-utility/src/sastoken.c:56-124 | The nested branches of the scan are one step of the field automaton |
| `SasToken.GetExpiryValue` | c-utility/src/sastoken.c:18-35 | The loop gives the value of a decimal numeral, and 0 for anything else |
| `SasToken.Validate` | c-utility/src/sastoken.c:37-203 | The scan, the closing of the last field and the expiry check compute the verdict on any string |
| `SasToken.TokenLaid` | c-utility/src/sastoken.c:273-283 | In a token as built the scan meets exactly the three field names, at their places |
| `SasToken.ScanLaid` | c-utility/src/sastoken.c:56-124 | The scan of such a token finds the three fields, those in front of an ampersand stopping one place early |
| `SasToken.BuilderAndValidatorAgree` | c-utility/src/sastoken.c:37-203 | A token as built is accepted if and only if it has not expired, its expiry is positive, and scope and signature have at least two characters |
| `SasTokenFields.AnyOrder` | c-utility/src/sastoken.c:37-203 | The verdict on a token with the three fields in any order and any characters between them: both must be a blank or an ampersand, something must be read of each value, and what is read of the expiry must be a positive number that is not past |
| `SasTokenFields.ExpiryLosesDigit` | c-utility/src/sastoken.c:56-124 | In front of an ampersand and another field the expiry is read without its last digit, in front of a blank in full |
| `SasTokenFields.OnlyDecimals` | c-utility/src/sastoken.c:18-35 | Text with anything but decimal digits is no expiry |
| `SasTokenFields.BuiltToken` | c-utility/src/sastoken.c:273-284 | A built token is SharedAccessSignature, a blank, and the fields sr, sig and se in this order, then the name of the key |
| `TickCounter.Instance.GetCurrentMs` | c-utility/adapters/tickcounter_win32.c:76-102 | A read adds the ticks since the last one, converted, and carries the remainder; a failed query changes nothing |
| `TickCounter.ReadLag` | c-utility/adapters/tickcounter_win32.c:92-97 | A read never goes back and loses less than one tick |
| `TickCounter.BoundedDrift` | c-utility/adapters/tickcounter_win32.c:67-101 | After n reads 0 <= elapsed * 10^6 - accumulated * frequency < n * 10^6 + frequency |
| `TickCounter.Monotone` | c-utility/adapters/tickcounter_win32.c:67-101 | Later reads never report less |
| `TickCounter.Play` | c-utility/adapters/tickcounter_win32.c:76-102 | A clock read at any counter values reports the milliseconds accumulated; at values that never go back these never go back either |

## Left out

- SHA-384 and SHA-512, and the dispatch of `usha.c`: USHA is taken as the call of the chosen hash.
- NULL handles and arguments: every call returns its invalid-argument result at once.
- Logging, the release of memory, and the internals of BUFFER, STRING and VECTOR, which are sequences here.
- HttpStream.ReadChunk: after an I/O error or a silent peer the source's loop counts up or waits without end; the model answers that it does not return, and the body function that it hangs.
- HttpReader.HttpInstance.ReadBody: the content of memory that BUFFER_enlarge hands out is one arbitrary repeated character.
- The request side of `httpapi_compact.c`, its header and content-length parsing, and the 100 ms sleeps between polls.
- Trailers of chunked bodies and chunks of 2^31 bytes or more: the round trip is proved without them, the body function covers them.
- The text of the CONNECT request, credentials and options of `http_proxy_io.c`; its user callbacks do not call back into the instance.
- ProxyResponse.ParseHttpResponse: the code's check of errno cannot change whether a status counts as success, and is left out; long is 64 bits wide.
- HttpApiEx.Sender.ExecuteRequest: building and freeing the temporary headers and contents of a request is one yes-or-no answer, and the results of HTTPAPI_SetOption on a new connection are ignored as in the source.
- GbAlloc: threads and the lock (taken as always acquired), realloc to size zero, and a second gballoc_init, which keeps the list of blocks.
- DoublyLinkedList: InsertAll, RemoveAll and FirstInFirstOut, like the methods named Play, are callers written for the property, not functions of the source.
- Base64.Decoder: bytes the decoder does not write keep whatever the new buffer held.
- Numbers.SizeTToString: what the buffer holds after a failed conversion, other than beyond the last place written.
- Floating point conversions, printf formatting and unsignedIntToString, whose text is that of size_tToString.
- KeyValueMap: the strings are values, so a stored pointer that dangles after a failed call is not seen; Map_ToJSON and searches by value.
- SasTokenBuilder.ConstructSasToken: allocation failures of the steps after the key is decoded are one yes-or-no answer, and lengths fit an int.
- UrlCodec.UrlDecode: an encoded NUL is decoded like any character; that a C string ends there is not modelled.
- SasToken.Validate: expiry and time are compared as integers, which doubles hold exactly below 2^53; tokens are shorter than 2^31.
- TickCounter: overflow of the 64-bit products, and the fallback on time() when there is no performance counter.
- connection_string_parser, optionhandler, sockets, TLS, DNS, threads, the uws and wsio layers and the platform adapters.
