# Verification of the async-minreq HTTP client

A Dafny model of the byte-level protocol logic of async-minreq, an HTTP/1.1 client, with proofs of what the
client promises. `dafny verify dfyconfig.toml` checks the whole project (Dafny 4.11).

## What is modelled

- **Text and bytes.** Rust's `String` is a Dafny `string` of Unicode scalar values, the wire is a sequence of
  bytes, and `Utf8` defines the encoding and `String::from_utf8` between them (RFC 3629). `Text` holds the number
  parsers, `trim` and the two lowerings; `Scan` the searches.
- **The transport** (`Transport`) is an arbitrary finite sequence of events `Stall` (Pending), `Data(bytes)` and
  `Fault(code)`, followed by end of stream for ever. `Payload` is what it delivers, however it cuts and delays it.
- **The response reader** (`Lines`, `PolledLines`, `PolledLimits`, `Retries`, `Headers`, `Framing`, `Metadata`, `HeaderBudget`,
  `LazyState`, `Trailers`, `Chunks`, `BodyRuns`, `Delivery`, `PrintedResponses`, `ResponseLazy`) has three layers. The
  imperative methods and the class `ResponseLazy` have the source's loops and fields. Each is proved equal to a
  function on events (`AsyncLine`, `PollLine`, `HeaderLoop`, `TrailerLoop`, `PollStep`, `Drain`), which still sees
  every cut and stall. The lemmas then relate those functions to the bytes alone (`LineOf`, `HeadersOf`,
  `TrailersOf`, `MetadataOf`, `ResponseOf`), and say exactly where that relation breaks down.
- **URLs** (`HttpUrl`, `Percent`, `UrlLaws`, `Fragments`): the character machine is proved against a parse by
  components, with the urlencoding feature as a parameter; then come the round trips, the relative locations, and
  where a fragment is found and where it is not.
- **Requests** (`Queries`, `Request`, `RequestFraming`): builders, the query string, the printed head, and the proof
  that the client's own reader reads it back over every cutting of the bytes.
- **Redirects** (`Connection`, `RedirectLaws`, `SameRequests`, `Client`): sending against an arbitrary sequence of transmissions, each
  refused or an event sequence, from which heads and the final response are read as above.
- **Proxy strings** (`Proxy`).

`ArithmeticOverflow` stands for the panic of an unsigned subtraction or addition that leaves `usize` in a build
with overflow checks. The iteration order of a `HashMap` is an arbitrary enumeration of its keys (`IsHashOrder`).

## Where the code and its documentation differ

The model follows the code.

- src/response.rs:37-40 says that `http://example.com?foo=bar` is corrected to a path with a slash. The code keeps
  the question mark as first path character (`UrlLaws.QueryWithoutSlash`): `UrlLaws.SlashPathIff` says exactly when
  the path starts with a slash.
- src/http_url.rs:28 names the fragment as a component of its own, yet the machine looks for it only behind the first
  slash or question mark. In `http://b#x` the hash and all behind it belong to the host requested
  (`Fragments.FragmentWithoutPathIsLost`, `Fragments.HostHoldsHashIff`). A URL has the fragment of its text, and a
  redirect keeps fragments, exactly when no hash comes before the path (`Fragments.ParsedFragmentIff`,
  `Fragments.HopKeepsFragmentIff`).
- src/request.rs:207-219 promises `HeadersOverflow` beyond the cap. For header lines ended by CR LF that is exact
  (`Metadata.BudgetIsExact`). The loop charges every line two bytes for its ending, so a line with a shorter ending
  can make the subtraction underflow, such as `A: b` with a bare line feed under a cap of five
  (`HeaderBudget.FiveByteSectionUnderflows`); `HeaderBudget.CapOutcome` and `HeaderBudget.CapUnderflowIff` say exactly
  when, for every payload and failure.
- The same passage counts trailers towards the cap. They are accepted exactly when the rest of the cap covers them
  (`Trailers.TrailerLoopIff`). Beyond it the documented error appears exactly when a piece arrives while the line that
  does not fit has what is left of the cap in hand and no line feed (`Trailers.HeadersOverflowIff`); otherwise the
  subtraction underflows, also for a CR LF trailer (`Trailers.TrailerInHandUnderflows`).
- src/proxy.rs:44-48 makes the protocol of a proxy string optional. Leaving it out is safe exactly when the rest
  contains no protocol mark (`Proxy.BareProxyRoundTripIff`).
- The cutting of a response that is not chunked is irrelevant exactly when it carries no more body than it declares
  (`Delivery.CutIrrelevantIff`); the crate assumes well-behaved servers (src/lib.rs:7-13).
- A relative Location runs into host or port, as `page` does (`UrlLaws.RelativeNameJoinsHost`), unless
  `UrlLaws.FollowKeepsOriginIff`'s check holds.
- src/error.rs:40 calls a redirection loop infinite. The check compares URLs with their fragments, so the same request
  can go out again under a new fragment (`SameRequests.FragmentHopRepeats`), and two URLs of a run are the same on the
  wire exactly when they differ only there (`SameRequests.SameOnWireIff`); the run stays bounded all the same.
- The polled line reader forgets what it holds at a stall (`Retries.StallLosesBytes`). Polled again it still gives the
  line that the bytes mean exactly when, at every stall before the line feed, it holds nothing, or just the CR of an
  empty line (`Retries.RetryExactIff`).
- The chunked reader takes a chunk of n bytes to be the next n transport events, stalls included, and drops what came
  in the same piece as the size line. A first chunk is delivered as the whole body exactly when those events together
  carry exactly its data and the bytes behind them end the body (`Chunks.OneChunkDeliveredIff`, `Chunks.EndsIff`).
- The line end behind a chunk's data ends the body, so of several chunks all but the first are dropped without an error,
  and content-length names the first alone (`Chunks.SeveralChunksTruncated`, `Chunks.LaterChunksDropped`).
- A chunked payload in one piece is lost without an error (`Chunks.ChunkedBodyLost`), so the result of every payload
  with a nonzero first chunk depends on the cut (`Chunks.ChunkedDependsOnCut`; with nothing behind the size line, and
  the transfer coding under its plain name, `Chunks.LoneSizeLineDependsOnCut`).
- with_param puts key and value into the query as they are unless an encoder is supplied: the pair arrives as one
  exactly when neither holds an ampersand and the key holds no equals sign (`Queries.QueryRoundTripIff`); the key `a&b`
  comes apart (`Queries.AmpersandSplitsKey`).

## Model

| member | source | states |
|---|---|---|
| Lines.ReadLineAsync | src/response.rs:550-613 | The byte loops, for any prefix, limit and event sequence, do exactly what the event-level reader `AsyncLine` does: result and events left |
| Lines.AsyncLineRefinesBytes | src/response.rs:574-607 | Text, error, and carried plus unread bytes of a line depend only on prefix plus payload, not on cuts or stalls |
| Lines.LineIsExactSplit | src/response.rs:562-612 | A line is an exact split: its bytes, one recognised ending and the rest are the input, cut at the first line feed, within the limit |
| Lines.LineOfPrinted | src/response.rs:562-612 | Every text written with LF or CR LF is read back whatever follows, and overflows exactly when text and ending exceed the limit |
| Lines.BrokenLine | src/response.rs:574-607 | A line that the transport breaks off is the transport's error |
| Lines.UndecodableLine | src/response.rs:608-612 | A line that is no UTF-8 is InvalidUtf8InResponse |
| Transport.ByteStream.Next | src/response.rs:580 | Awaiting the next item skips the stalls and takes one event |
| PolledLines.ReadLine | src/response.rs:684-751 | The poll-based reader equals the event-level `PollLine` |
| PolledLines.StrictImpliesPolled | src/response.rs:684-751 | What the strict reader accepts the polled one accepts alike, with the same events left |
| PolledLines.PolledImpliesUnlimited | src/response.rs:684-751 | What the polled reader accepts under a limit it accepts alike without one |
| PolledLines.ReadersSandwich | src/response.rs:684-751 | Without stalls: strict success implies the same polled result, and polled success the unlimited meaning of the bytes |
| PolledLines.UnlimitedRefinesBytes | src/response.rs:715-745 | Without limit and stalls the polled reader depends only on the bytes |
| PolledLines.PolledLineBound | src/response.rs:713-719 | A line the polled reader accepts exceeds its prefix or the limit by less than one piece |
| PolledLimits.OverflowIff | src/response.rs:713-719 | Without stalls the reader reports its overflow if and only if a piece arrives while it holds the limit and no line feed |
| PolledLimits.LimitedLine | src/response.rs:713-719 | Under a limit it reports the overflow there, and else reads what it reads without a limit |
| Retries.StallLosesBytes | src/response.rs:742 | For every line cut in two by a stall the polled reader loses the first part and the asynchronous one does not |
| Retries.RetryReadsSeen | src/response.rs:699-742 | On every run the reader polled again gives the meaning of the bytes not dropped at stalls |
| Retries.RetryExactIff | src/response.rs:699-742 | It gives the line the bytes mean, with nothing lost behind it, if and only if at every stall before the line feed nothing, or only the CR of an empty line, has been collected |
| Retries.LimitedRetryIff | src/response.rs:451-462 | Under a limit, as for size lines, it reports the overflow exactly where the limit is felt since the last stall, and else reads as without one |
| Retries.LimitedRetryExactIff | src/response.rs:451-462 | So for lines within the limit the same condition is exact |
| Headers.ParseStatusLine | src/response.rs:753-778 | The character loop yields the second and third blank-separated field, or 503 |
| Headers.StatusLineParses | src/response.rs:753-778 | A well-formed status line gives its code and its whole reason phrase |
| Headers.OtherStatusLines | src/response.rs:753-778 | No third field gives an empty reason; no number as second field gives 503 with the fixed reason |
| Headers.HeaderLineParses | src/response.rs:780-803 | Printing a header and parsing it gives the lower-cased name and the exact value |
| Headers.HeaderValueIsExact | src/response.rs:780-803 | Behind the colon one blank goes, if there is one; every other character of the value stays |
| Headers.LastLineWins | src/response.rs:640-646 | The map holds for a name, in any letter case, the value of the last line with it |
| Headers.HeaderNeedsColon | src/response.rs:780-803 | A line is no header if and only if it has no colon |
| Framing.ChooseFraming | src/response.rs:647-672 | The loop over the map, for any order: malformed length, else chunked, else the last length, else read until close |
| Framing.FramingPrecedence | src/response.rs:647-672 | Malformed over chunked over an agreed Content-Length over read-until-close, for every order |
| Framing.DeclaredLengthIff | src/response.rs:652-659 | A length is a decimal number up to 18446744073709551615 with white space around it, and nothing else is |
| Framing.FramingHeadersIff | src/response.rs:649-664 | Content-Length and Transfer-Encoding count exactly under those names and, for the latter, the value chunked, in any letter case and white space |
| Text.TrimLower | src/response.rs:651-658 | Lowering and then trimming is trimming and then lowering |
| Text.TrimTakesEnds | src/response.rs:469-471 | Trimming takes the white space at both ends, exactly |
| Text.TrimmedNumberIff | src/response.rs:659 | A trimmed number is read exactly if it is digits of the radix within the range, with an optional plus sign |
| Text.ParseI32Iff | src/response.rs:773 | A status code is read exactly if it is a signed decimal number of 32 bits |
| Framing.LastLengthWins | src/response.rs:649-664 | Of several different lengths the last one that the iteration meets frames the body |
| Framing.OrderIrrelevantIff | src/response.rs:649-664 | The framing is independent of the map's iteration order if and only if the header map is unambiguous |
| Metadata.ReadMetadata | src/response.rs:615-682 | Status line, header loop and framing do what the event-level reading says; the loop terminates on carried plus unread bytes |
| Metadata.HeaderLoopRefinesBytes | src/response.rs:631-646 | Header map, remaining budget, error and bytes behind the blank line depend only on the bytes |
| Metadata.ReadingRefinesBytes | src/response.rs:615-682 | The same for the whole metadata |
| Metadata.BudgetIsExact | src/response.rs:631-645 | For CR LF lines HeadersOverflow if and only if the section with its blank line exceeds the cap, no underflow, trailers get the cap minus the lines |
| HeaderBudget.CapOutcome | src/response.rs:631-645 | For header lines of any endings under a cap, and any failure: if their charges fit, what follows them decides; else underflow or overflow, and underflow exactly if some line fits with its own ending but not with the two bytes charged |
| HeaderBudget.CapUnderflowIff | src/response.rs:640-642 | Every payload, decodable or not, splits into such lines, so that condition decides the underflow for every payload, failure and cap |
| HeaderBudget.BareLfUnderflows | src/response.rs:640-642 | Every line with a bare line feed that fills the cap underflows |
| HeaderBudget.FiveByteSectionUnderflows | src/response.rs:640-642 | One such header section, byte by byte |
| ResponseLazy.ResponseLazy.PollNext | src/response.rs:278-309 | Takes the carried bytes once and steps the framing machine in place |
| ResponseLazy.ResponseLazy.ReadUntilClosed | src/response.rs:343-362 | The close-delimited step, in place |
| ResponseLazy.ResponseLazy.ReadWithContentLength | src/response.rs:364-394 | The counted step, in place, with the underflow made explicit |
| ResponseLazy.ResponseLazy.ReadTrailers | src/response.rs:396-428 | The trailer loop on the header map, in place; terminates on carried plus unread bytes |
| ResponseLazy.ResponseLazy.ReadChunked | src/response.rs:430-518 | The chunked step, in place |
| ResponseLazy.ResponseLazy.ReadChunkData | src/response.rs:501-517 | The data phase: one off the counter, one poll |
| ResponseLazy.ResponseLazy.FinishChunks | src/response.rs:481-498 | Trailers, then the total in place of the transfer coding; Chunks.EndFinishes says what becomes of every header |
| ResponseLazy.FromStream | src/response.rs:240-275 | Builds the lazy response from the metadata, with carried bytes only if there are any |
| ResponseLazy.Create | src/response.rs:47-72 | Drains the response unless HEAD, 204 or 304; Delivery.BodyIsRest and Delivery.NoBodyResponse say what body that is |
| ResponseLazy.Receive | src/request.rs:279-283 | from_stream and create on any transport run give the response that the bytes alone mean, whenever those are well delimited |
| LazyState.PollShrinks | src/response.rs:278-309 | Every poll that is pending or delivers takes an event or the carried bytes: draining ends on every finite stream |
| Delivery.DrainUntilClosed | src/response.rs:343-362 | A close-delimited body is all bytes behind the head, or the transport's error |
| Delivery.DrainContentLength | src/response.rs:364-394 | A counted body for every run: short bodies as they are, exactly n bytes if a piece ends there, else the underflow |
| Delivery.ReceiveRefinesBytes | src/response.rs:47-72 | Status, reason, headers and body of a well-delimited response are those of its bytes; the body is exactly what follows the blank line |
| Delivery.NoBodyResponse | src/response.rs:47-72 | On every run a response to HEAD or with status 204 or 304 has an empty body, whatever follows its head |
| Delivery.BodyIsRest | src/response.rs:47-72 | Every other response has all bytes behind its blank line as body, up to the end of the stream or to its length; a failure before that is its error |
| Delivery.CutIndependence | src/response.rs:240-309 | Two runs over the same bytes and failure give the same response or error |
| Delivery.CutIrrelevantIff | src/response.rs:364-394 | For every payload, failure and request method, unless a chunked body is read: cutting is irrelevant if and only if no more body arrives than declared |
| Delivery.ExcessDependsOnCut | src/response.rs:370-382 | Every payload with excess body fails in one piece and, cut behind the declared length, gives exactly the declared bytes, even if the transport fails behind them |
| Delivery.OrderIndependence | src/response.rs:647-664 | For an unambiguous map the metadata, or their error, do not depend on the iteration order either |
| Delivery.ReceiveOrderIndependence | src/response.rs:47-72 | Nor does the whole response or its error, on any transport run, chunked or not |
| PrintedResponses.PrintedMetadata | src/response.rs:615-682 | A written response under all limits: the status line's or the headers' overflow exactly beyond their caps, else status, reason, header map, rest of the cap and body, framed as the map says |
| PrintedResponses.CountedResponseRead | src/response.rs:47-72 | Over every cutting, a written response of any status with a length, with or without a blank behind its colon, gives exactly its body, and none for HEAD, 204 and 304 |
| PrintedResponses.TrailersReachResponse | src/response.rs:481-498 | Over every cutting without stalls, a written chunked response without chunks gives all its headers and trailers, content-length zero in place of the transfer coding |
| PrintedResponses.ChunkedResponseDependsOnCut | src/response.rs:430-518 | Every written chunked response is lost in one piece and not lost when cut behind its first size line |
| PrintedResponses.OneChunkResponseDelivered | src/response.rs:430-518 | A written one-chunk response is delivered whole when its data comes byte by byte |
| PrintedResponses.SeveralChunksResponse | src/response.rs:430-518 | A written response of several chunks gives, in the same way, its first chunk as the complete body, without an error |
| PrintedResponses.CountedCutIrrelevantIff | src/response.rs:364-394 | For a written response declaring n bytes, cutting is irrelevant if and only if at most n follow |
| PrintedResponses.CountedExceedsIff | src/response.rs:370-382 | It is a payload with excess body if and only if more than n follow |
| PrintedResponses.HashOrderExists | src/response.rs:649 | There is an iteration order of all header maps, as the results above assume |
| BodyRuns.ContentLengthConserved | src/response.rs:364-394 | Over every run: delivered plus counter is the declared length, delivered is a prefix of the body, nothing lost |
| BodyRuns.ContentLengthPoll | src/response.rs:370-393 | One poll: Pending changes nothing, the hint is the piece plus what is left up to 16 KiB, and at zero the stream is not polled |
| Chunks.SizeHints | src/response.rs:339-341 | Hints of all framings: the piece's size, plus at most 16 KiB under a declared length |
| BodyRuns.ChunkedAccounts | src/response.rs:430-518 | Over every run: total is the sum of declared sizes and data polls plus what is left; completion sets the headers to that sum |
| BodyRuns.CompletionIsFinal | src/response.rs:440-442 | After completion every poll answers end of body and changes nothing |
| Chunks.ChunkSizeParses | src/response.rs:466-479 | A size line denotes its hexadecimal number, with or without extension |
| Chunks.ChunkSizeIff | src/response.rs:466-479 | A size is a hexadecimal number up to 18446744073709551615 with white space around it, up to a semicolon; the empty line is zero |
| Chunks.MalformedSizeFails | src/response.rs:476-479 | Any other size line is MalformedChunkLength |
| Chunks.TotalOverflows | src/response.rs:500 | Sizes that add up beyond usize end the response |
| Chunks.ChunkDataPhase | src/response.rs:501-517 | On every run the data phase delivers the bytes of exactly the next left transport events, or all there are, or the failure among them |
| Chunks.SizeAnnounces | src/response.rs:466-479 | Every hexadecimal size within usize, with any extension or none, announces its chunk, as the results on chunked payloads assume |
| Chunks.SizeLineStartsData | src/response.rs:444-501 | A nonzero size starts the data phase; the bytes behind the size line in the same piece never matter |
| Chunks.EndsIff | src/response.rs:444-498 | Without stalls a body ends between chunks if and only if its bytes are a size line of zero and trailers that the budget covers, and the size line does not feel its limit |
| Chunks.EndFinishes | src/response.rs:481-498 | Where a body ends, content-length is the total, the transfer coding is gone, and every other header is exactly that of the map with the trailers merged |
| Chunks.EmptyChunkedResponse | src/response.rs:430-498 | On every run without stalls a chunked response that ends at once has no body and exactly those headers |
| Chunks.OneChunkDeliveredIff | src/response.rs:430-518 | A first chunk is delivered as the whole body, with its length in the headers, if and only if the transport makes as many events as it has bytes, these carry exactly the data, and the bytes behind them, without stalls, end the body; all other headers are those of the map with the trailers merged |
| Chunks.OneChunkDelivered | src/response.rs:430-518 | A one-chunk body in wire form is delivered so when its size line ends its piece, its data comes in as many events as it has bytes, and the tail follows within the trailer budget |
| Chunks.SeveralChunksTruncated | src/response.rs:430-518 | Of several chunks the first is then the complete body, without an error, if and only if the trailer budget covers the second size line |
| Trailers.TrailerLoopIff | src/response.rs:396-428 | On every run without stalls the loop succeeds if and only if the bytes hold trailers whose cost the budget covers; it then merged those and left the stream behind them; without budget it fails with the bytes' own error, and under one as TrailerOutcome says |
| Trailers.TrailerOutcome | src/response.rs:396-428 | Under a cap, on every run without stalls: the bytes alone decide at which line the loop stops and with what verdict, unless that line feels the limit; then, and only then, it is HeadersOverflow |
| Trailers.HeadersOverflowIff | src/response.rs:410-417 | Trailers beyond the cap give the documented HeadersOverflow if and only if the limit is felt in the line where they stop, else the underflow |
| Trailers.TrailersWritten | src/response.rs:410-424 | Trailers are the leading lines with a colon, of any ending, later duplicates winning, up to the first line without one |
| Trailers.TrailersMergedIff | src/response.rs:396-428 | Over written lines the loop succeeds if and only if the budget covers text plus two of each line, the ending one included |
| Trailers.TrailerInHandUnderflows | src/response.rs:415-416 | A CR LF trailer in hand beyond the budget underflows instead of HeadersOverflow |
| Trailers.TrailerErrorDependsOnCut | src/response.rs:404-416 | Both cases for every such trailer: it underflows in one piece and overflows when cut behind its text |
| Chunks.ChunkedBodyLost | src/response.rs:444-517 | Whatever follows a nonzero size line in its piece, carried over or from the transport, is lost: the drained body is empty, without an error |
| Chunks.ChunkedDependsOnCut | src/response.rs:430-518 | Every payload with a nonzero first chunk and anything behind its size line, whatever chunks, extensions and trailers: lost without an error in one piece, not lost when cut behind the size line |
| Chunks.LoneSizeLineDependsOnCut | src/response.rs:444-498 | With nothing behind that line, and the coding under its plain name, the result depends on the cut too: a stall in it completes the response |
| Chunks.FirstChunkAlone | src/response.rs:430-518 | Byte by byte the first chunk of every payload is the whole response where what follows its data ends a body |
| Chunks.LaterChunksDropped | src/response.rs:430-518 | So of two chunks and more all but the first are dropped without an error, and content-length names the first |
| HttpUrl.Parse | src/http_url.rs:45-174 | The character machine, with and without urlencoding, equals the parse by components |
| HttpUrl.ScanUrl | src/http_url.rs:69-135 | The character loop: host, port, path and resource after any text |
| HttpUrl.PushEscaped | src/http_url.rs:118-133 | The escape of one character, byte by byte |
| HttpUrl.PartsOfAppend | src/http_url.rs:74-109 | One character more steps the components as the machine does, in every state |
| HttpUrl.UrlText.WriteBaseUrl | src/http_url.rs:177-188 | Appends scheme, host and explicit port |
| HttpUrl.UrlText.WriteResource | src/http_url.rs:191-199 | Appends path, query and fragment |
| UrlLaws.ParsedIsWellFormed | src/http_url.rs:45-174 | Every parsed URL has a host without slash, question mark and colon, a path starting with slash or question mark without hash, and a fitting port |
| UrlLaws.ProtocolsIff | src/http_url.rs:50-66 | http:// and https:// are told apart, and every other text is an error |
| UrlLaws.WrittenUrlParses | src/http_url.rs:45-174 | All parts of a written URL are those parsed, the implicit port by protocol, a missing fragment inherited |
| UrlLaws.PortTextIff | src/http_url.rs:158-165 | A port is explicit if and only if its text is a number up to 65535 |
| Fragments.HostHoldsHashIff | src/http_url.rs:73-82 | The host holds a hash if and only if one comes before port, path and query |
| Fragments.MachineFindsFragmentIff | src/http_url.rs:69-135 | The fragment the machine looks for is that behind the first hash if and only if no hash comes before the path |
| Fragments.ParsedFragmentIff | src/http_url.rs:45-174 | A parsed URL has the fragment of its text under the same condition, and only then |
| UrlLaws.PrintParse | src/http_url.rs:45-199 | Printing and parsing is the identity on well-formed URLs, ports and fragments kept apart |
| UrlLaws.ParsePrintParse | src/http_url.rs:45-199 | Parse, print, parse is parse |
| UrlLaws.PrintParseEncodingIff | src/http_url.rs:93-133 | With urlencoding on the round trip holds exactly for URLs of safe characters |
| UrlLaws.EncodingCommutes | src/http_url.rs:91-133 | Parsing with urlencoding is parsing without it and encoding path and own fragment separately |
| UrlLaws.SlashPathIff | src/http_url.rs:75-79 | The path starts with a slash if and only if the resource does or is missing |
| UrlLaws.QueryWithoutSlash | src/http_url.rs:75-79 | For every host and query the query right behind the host stays the whole path, as in http://example.com?foo=bar |
| UrlLaws.FollowPath | src/request.rs:449-458 | A relative location starting a path keeps scheme, host and port and gives the path up to its first hash |
| UrlLaws.FollowKeepsOriginIff | src/request.rs:449-458 | For every relative location: the origin is kept if and only if nothing significant precedes the path |
| UrlLaws.RelativeNameJoinsHost | src/request.rs:449-458 | A relative name without a slash, such as page, becomes part of the host |
| Percent.DecodeInvertsEncode | src/http_url.rs:93-133 | Percent-decoding gives back the UTF-8 bytes |
| Percent.EncodingIsInjective | src/http_url.rs:93-133 | No two strings share an encoding |
| Percent.EncodedAlphabet | src/http_url.rs:93-133 | The output uses safe characters and the percent sign only |
| Percent.EncodeIsIdentityIff | src/http_url.rs:93-133 | Encoding leaves exactly the safe strings alone |
| Percent.SafeCharacters | src/http_url.rs:93-117 | Letters, digits and nine more characters, listed, are left alone and no others |
| Percent.EscapedAscii | src/http_url.rs:118-133 | Any other ASCII character becomes a percent sign and its two digits, in capitals |
| Request.Request.WithBody | src/request.rs:137-142 | Sets the body and its Content-Length |
| Request.Request.WithParam | src/request.rs:152-168 | The pairs before stay, and the new one comes behind them as a pair of its own if and only if the texts hold no separator |
| Queries.QueryRoundTripIff | src/request.rs:152-168 | A query built from pairs splits back into exactly those pairs if and only if no ampersand is in them and no equals sign in a key |
| Queries.AmpersandSplitsKey | src/request.rs:152-168 | A key with an ampersand comes apart into two pairs, such as a&b |
| Request.ParamsJoinQuery | src/request.rs:319-326 | For every URL the path stays and the parameters' pairs come behind those the URL already has |
| Request.NewParsedRequest | src/request.rs:316-327 | Parses the URL and joins the parameters to path and query |
| Request.ParsedRequest.GetHttpHead | src/request.rs:370-422 | The buffer is request line, Host, headers in iteration order, and the added length; RequestFraming.RequestLineRead and RequestRoundTrip say what they are |
| Request.ParsedRequest.PushHeaders | src/request.rs:394-397 | The loop over the header map, in any iteration order |
| Request.ParsedRequest.AsBytes | src/request.rs:426-432 | The head's bytes, then the body |
| Request.ParsedRequest.RedirectTo | src/request.rs:437-471 | Swaps the URL, pushes the old one, then checks limit and history |
| Request.TargetBase | src/request.rs:437-458 | A location with :// is absolute; any other is put behind protocol, host and port |
| RequestFraming.RequestRoundTrip | src/request.rs:370-432 | For every cutting of the printed bytes the reader finds request line, host, every header with its exact value, nothing else, and exactly the body |
| RequestFraming.RequestLineRead | src/request.rs:43-58 | For each of the ten methods the first line read is its word, the path and query, and HTTP/1.1 |
| RequestFraming.BodyMethodsCarryLength | src/request.rs:399-417 | POST, PUT and PATCH always carry a content-length or transfer-encoding |
| RequestFraming.OtherMethodsGetNoLength | src/request.rs:399-417 | No other method gets a content-length but by a header of its own |
| RequestFraming.BodyLengthRecovered | src/request.rs:137-142 | The length with_body sets is read back and frames exactly the body |
| Connection.GetRedirect | src/connection.rs:441-468 | The hop of one reply on the request in place; RedirectLaws.RunRound says which answers lead where and how 303 changes the method |
| Connection.Send | src/connection.rs:300-338 | The request's bytes written in one exchange, from_stream with the request's limits, then the redirects; the errors of all three; terminates by max_redirects minus redirects followed |
| Connection.HandleRedirects | src/connection.rs:403-434 | Follows the next hop, or returns the response itself with the final URL written into it |
| RedirectLaws.RequestsAreDistinct | src/request.rs:460-470 | Over every run all URLs requested are pairwise distinct and within the limit |
| RedirectLaws.FreshRequestIsBounded | src/request.rs:460-470 | A new request is sent at most max_redirects + 1 times, to different URLs |
| RedirectLaws.LimitIsExactIff | src/request.rs:460-461 | A run fails with TooManyRedirections if and only if max_redirects + 1 requests went out and the last answer leads on |
| RedirectLaws.RunRound | src/connection.rs:403-468 | One round of every run, whole: which statuses and which header lead on, to which request, and every way it ends |
| RedirectLaws.MethodsChangeOnlyAfter303 | src/connection.rs:441-468 | Over every run the method becomes GET behind every 303 on POST, PUT or DELETE, and stays behind every other answer; so never into or out of HEAD |
| RedirectLaws.FragmentIsPreserved | src/http_url.rs:144-151 | If no Location followed has a hash before its path, the final fragment is that of the last Location carrying one, else the request's; always the reported URL parses to the final URL |
| Fragments.TargetFragment | src/request.rs:438-458 | One hop, for every Location: well-formed result, the fragment the machine finds or the one before |
| Fragments.HopKeepsFragmentIff | src/request.rs:438-458 | A hop keeps fragments, whatever the one before, if and only if its Location has no hash before the path |
| Fragments.FragmentWithoutPathIsLost | src/http_url.rs:73-82 | For http://b#x, and every host without path, the host requested swallows the hash and the old fragment stays |
| RedirectLaws.RelativeHopKeepsOrigin | src/request.rs:449-458 | A relative hop that starts a path stays at the origin |
| SameRequests.SameOnWireIff | src/request.rs:370-432 | Over the same kind of connection two URLs give the same bytes if and only if they differ at most in the fragment |
| SameRequests.FragmentHopRepeats | src/request.rs:463-470 | A redirect to the same path with a new fragment passes the loop check, and the same bytes go out again |
| RedirectLaws.ParamsKeepWellFormedIff | src/request.rs:319-326 | Parameters keep the URL well formed exactly without a hash |
| Client.NetworkLimitIff | src/request.rs:460-461 | Whatever the network does, TooManyRedirections tells exactly that max_redirects + 1 requests went out and the last answer leads on |
| Client.SendRequest | src/request.rs:266-288 | Whatever the network does: distinct bounded requests, written byte by byte as printed with the request's own headers and body, the limit's error exactly beyond the bound, fragment kept, is_head that of the final request, and as result the response read from the last transmission, that of its bytes where those are well delimited, reporting the final URL |
| Proxy.ProxyRoundTrip | src/proxy.rs:25-85 | All four parts of a printed proxy string come back, whatever the password contains |
| Proxy.OptionalPartsRead | src/proxy.rs:25-85 | Without password, credentials or port the parts written come back, with port 8080 by default |
| Proxy.BadProxies | src/proxy.rs:35-66 | Another protocol, or a port that is no 32-bit number, is BadProxy |
| Proxy.BareProxyRoundTripIff | src/proxy.rs:59-85 | Without the protocol they come back exactly when the string has no protocol mark |

## Left out

- Chunks.OneChunkDeliveredIff: runs without stalls behind the data, and bodies of one delivered chunk; bodies assembled from several data phases have the accounts of BodyRuns.ChunkedAccounts and, phase by phase, Chunks.ChunkDataPhase.
- Trailers.TrailerLoopIff: runs without stalls; at a stall the polled reader forgets bytes as Retries.RetryExactIff says.
- Chunks.ChunkedDependsOnCut: payloads that start with a nonzero chunk and that no transport failure cuts short.
- RedirectLaws.FragmentIsPreserved: runs whose Locations have no hash before the path; Fragments.HopKeepsFragmentIff shows that the others do not keep it.
- BodyRuns.ChunkedAccounts: only for runs in which no counter leaves usize, because such a run panics.
- RequestFraming.RequestRoundTrip: names without colon, no line feed, names distinct in lower case, because other lines split elsewhere or are merged by the reader's map; and no header named host, which the map merges with the one added.
- Client.SendRequest: punycode is off, so a host that is not ASCII is an error; HTTPS is a switch without TLS; send_lazy returns what Connection.Send does.
- Delivery.CutIrrelevantIff: chunked bodies; Chunks.ChunkedDependsOnCut has those with a nonzero first chunk, and bodies without any chunk are left out.
- Wrapping arithmetic: a build without overflow checks wraps where the model says ArithmeticOverflow.
- Unicode lower-casing: characters that cannot lower to ASCII letters are left as they are; only comparisons with ASCII names use it.
- The encoder of the urlencoding crate for with_param: a parameter of WithParam; its code is not part of this model.
- TCP, DNS, TLS, native_tls, timeouts, environment variables and the proxy CONNECT exchange: input and output without protocol logic of the crate.
- AsyncRead for ResponseLazy and HttpStream::poll_read: they bypass the framing machine.
- punycode, base64 and serde_json: code of other crates.
- with_header, with_headers, with_max_redirects, with_max_headers_size, with_max_status_line_length, with_json, with_timeout, error display texts: single assignments or formatting.
