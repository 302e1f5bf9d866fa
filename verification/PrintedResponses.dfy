/** Responses written out in bytes, as the reader of src/response.rs finds them (section 3 of RFC 7230). */
module PrintedResponses {
  import opened Wrappers
  import opened Scan
  import opened Text
  import opened Transport
  import opened Utf8
  import opened Lines
  import opened Headers
  import opened Framing
  import opened Metadata
  import opened Delivery
  import opened HeaderBudget
  import opened Trailers
  import opened Chunks
  import opened RequestFraming

  // ---------- An iteration order ----------

  lemma SomeOrderOf(headers: HeaderMap)
    ensures exists order: seq<string> :: Enumerates(order, headers)
  {
    if headers == map[] {
      assert Enumerates([], headers);
    } else {
      var k :| k in headers;
      var order := OrderEndingIn(headers, k);
    }
  }

  ghost function OrderOf(headers: HeaderMap): seq<string> {
    SomeOrderOf(headers);
    var order: seq<string> :| Enumerates(order, headers);
    order
  }

  ghost function AnOrder(): HashOrder {
    (headers: HeaderMap) => OrderOf(headers)
  }

  lemma HashOrderExists()
    ensures IsHashOrder(AnOrder())
  {
  }

  // ---------- A printed response ----------

  function StatusLine(version: string, code: nat, reason: string): string {
    version + " " + Decimal(code) + " " + reason
  }

  function ResponseBytes(status: string, lines: seq<string>, body: seq<Byte>): seq<Byte> {
    Encode(status) + [CR, LF] + Section(lines, body)
  }

  const NO_LIMITS := Limits(None, None)

  lemma StatusLineIsLine(version: string, code: nat, reason: string)
    requires '\n' !in version && '\n' !in reason
    ensures '\n' !in StatusLine(version, code, reason)
  {
    DecimalValue(code);
  }

  /**
   Under all limits: the overflow of the status line or of the headers exactly beyond their caps; else status, reason,
   header map and body come back, framed as the map says, and what the lines leave of the cap is for trailers.
   */
  lemma PrintedMetadata(version: string, code: nat, reason: string, lines: seq<string>, body: seq<Byte>, limits: Limits,
      order: HashOrder)
    requires IsHashOrder(order) && AreHeaderLines(lines)
    requires ' ' !in version && '\n' !in version && '\n' !in reason && code <= I32_MAX
    requires |ResponseBytes(StatusLine(version, code, reason), lines, body)| <= USIZE_MAX
    ensures var status, headers := StatusLine(version, code, reason), InsertAll(map[], lines);
            var framing := FramingOf(headers, order(headers));
            MetadataOf(ResponseBytes(status, lines, body), None, limits, order) ==
            if limits.status.Some? && |Encode(status)| + 2 > limits.status.value then Err(StatusLineOverflow)
            else if limits.headers.Some? && |Block(lines)| + 2 > limits.headers.value then Err(HeadersOverflow)
            else if framing.Err? then Err(framing.error)
            else
              var left := if limits.headers.Some? then Some(limits.headers.value - |Block(lines)|) else None;
              Ok(Metadata(code, reason, framing.value, Head.Head(headers, left, body)))
  {
    hide LineOf, HeadersOf, StatusOf, FramingOf, InsertAll, Encode, Decimal, Block;
    var status := StatusLine(version, code, reason);
    StatusLineIsLine(version, code, reason);
    LineOfPrinted(status, [CR, LF], Section(lines, body), None, Limit(limits.status), StatusLineOverflow);
    StatusLineParses(version, code, reason);
    BudgetIsExact(lines, body, None, limits.headers, map[]);
  }

  // ---------- A declared length ----------

  /** With or without a blank behind the colon. */
  function LengthLine(blank: bool, n: nat): string {
    "Content-Length:" + (if blank then " " else "") + Decimal(n)
  }

  function LengthMap(n: nat): HeaderMap {
    map["content-length" := Decimal(n)]
  }

  lemma OneHeaderLine(line: string, name: string, value: string)
    requires line != "" && '\n' !in line && ParseHeader(line) == Some((name, value))
    ensures AreHeaderLines([line]) && InsertAll(map[], [line]) == map[name := value]
  {
    hide ParseHeader;
    InsertAllPush(map[], [], line);
    assert [] + [line] == [line];
  }

  lemma LengthLineFits(blank: bool, n: nat)
    ensures AreHeaderLines([LengthLine(blank, n)]) && InsertAll(map[], [LengthLine(blank, n)]) == LengthMap(n)
  {
    hide AsciiLower, Decimal, InsertAll, AreHeaderLines, ParseHeader;
    DecimalValue(n);
    LengthNameLowers();
    assert Decimal(n)[0] in Decimal(n);
    HeaderValueIsExact("Content-Length", Decimal(n));
    assert "Content-Length" + ":" == "Content-Length:";
    assert LengthLine(false, n) == "Content-Length" + ":" + Decimal(n);
    OneHeaderLine(LengthLine(blank, n), "content-length", Decimal(n));
  }

  lemma LengthMapFraming(n: nat, order: seq<string>)
    requires n <= USIZE_MAX && Enumerates(order, LengthMap(n))
    ensures FramingOf(LengthMap(n), order) == Ok(ContentLength(n))
  {
    hide FramingOf, Decimal, NamesLength, LengthOf, SaysChunked, Enumerates;
    LengthNames();
    DecimalIsLength(n);
    FramingPrecedence(LengthMap(n), order);
    assert "content-length" in LengthMap(n);
    assert !HasMalformedLength(LengthMap(n)) && !IsChunked(LengthMap(n)) && LengthsAgree(LengthMap(n));
  }

  lemma DecimalIsLength(n: nat)
    requires n <= USIZE_MAX
    ensures LengthOf(Decimal(n)) == Some(n)
  {
    DecimalValue(n);
    TrimIsIdentity(Decimal(n));
    ParseDecimal(n, USIZE_MAX);
    hide Trim, ParseUnsigned, Decimal;
  }

  lemma LengthNames()
    ensures NamesLength("content-length") && forall value :: !SaysChunked("content-length", value)
  {
    hide ToLower, Trim;
    var name := "content-length";
    AsciiLowerIsIdentity(name);
    LoweringsAgree(name, name);
    TrimIsIdentity(name);
  }

  /** A response that declares n bytes. */
  function CountedResponse(code: nat, reason: string, blank: bool, n: nat, body: seq<Byte>): seq<Byte> {
    ResponseBytes(StatusLine("HTTP/1.1", code, reason), [LengthLine(blank, n)], body)
  }

  ghost predicate IsCounted(code: nat, reason: string, blank: bool, n: nat, body: seq<Byte>) {
    && '\n' !in reason && code <= I32_MAX && n <= USIZE_MAX
    && |CountedResponse(code, reason, blank, n, body)| <= USIZE_MAX
  }

  lemma CountedMetadata(code: nat, reason: string, blank: bool, n: nat, body: seq<Byte>, order: HashOrder)
    requires IsHashOrder(order) && IsCounted(code, reason, blank, n, body)
    ensures MetadataOf(CountedResponse(code, reason, blank, n, body), None, NO_LIMITS, order) ==
            Ok(Metadata(code, reason, ContentLength(n), Head.Head(LengthMap(n), None, body)))
  {
    hide MetadataOf, FramingOf, InsertAll, ResponseBytes, StatusLine, LengthLine, LengthMap, Enumerates;
    LengthLineFits(blank, n);
    PrintedMetadata("HTTP/1.1", code, reason, [LengthLine(blank, n)], body, NO_LIMITS, order);
    LengthMapFraming(n, order(LengthMap(n)));
  }

  /**
   Over every cutting of such a response: its body is read whatever the status, an error page as well as any other,
   except that HEAD, 204 and 304 have none.
   */
  lemma CountedResponseRead(code: nat, reason: string, blank: bool, n: nat, body: seq<Byte>, events: seq<Event>,
      order: HashOrder, isHead: bool)
    requires IsHashOrder(order) && IsCounted(code, reason, blank, n, body) && |body| <= n
    requires CarriesExactly(events, CountedResponse(code, reason, blank, n, body))
    ensures var read := if isHead || code == 204 || code == 304 then [] else body;
            ReceiveOf(events, NO_LIMITS, order, isHead) ==
            Ok(Response(code, reason, map["content-length" := Decimal(n)], "", read))
  {
    hide MetadataOf, ReceiveOf, CountedResponse, Decimal;
    CountedMetadata(code, reason, blank, n, body, order);
    NoBodyResponse(events, NO_LIMITS, order, isHead);
    BodyIsRest(events, NO_LIMITS, order);
  }

  /**
   Cutting and delaying a response with a declared length changes nothing exactly if no more bytes follow its head.
   */
  lemma CountedCutIrrelevantIff(code: nat, reason: string, blank: bool, n: nat, body: seq<Byte>, order: HashOrder)
    requires IsHashOrder(order) && IsCounted(code, reason, blank, n, body) && code != 204 && code != 304
    ensures CutIrrelevant(CountedResponse(code, reason, blank, n, body), None, NO_LIMITS, order, false) <==> |body| <= n
  {
    hide MetadataOf, CutIrrelevant, CountedResponse;
    CountedMetadata(code, reason, blank, n, body, order);
    CutIrrelevantIff(CountedResponse(code, reason, blank, n, body), None, NO_LIMITS, order, false);
  }

  /** Every longer body is an example of an excess. */
  lemma CountedExceedsIff(code: nat, reason: string, blank: bool, n: nat, body: seq<Byte>, order: HashOrder)
    requires IsHashOrder(order) && IsCounted(code, reason, blank, n, body) && code != 204 && code != 304
    ensures var m := Metadata(code, reason, ContentLength(n), Head.Head(LengthMap(n), None, body));
            Exceeds(CountedResponse(code, reason, blank, n, body), None, NO_LIMITS, order, false, m) <==> |body| > n
  {
    hide MetadataOf, CountedResponse;
    CountedMetadata(code, reason, blank, n, body, order);
    MetadataLeavesTail(CountedResponse(code, reason, blank, n, body), None, NO_LIMITS, order);
  }

  // ---------- A chunked body ----------

  const CODING_LINE := "Transfer-Encoding: chunked"
  const CODING_MAP: HeaderMap := map["transfer-encoding" := "chunked"]

  lemma CodingNameLowers()
    ensures AsciiLower("Transfer-Encoding") == "transfer-encoding"
  {
    hide AsciiLower;
    AsciiLowerWord('T', "ransfer-");
    AsciiLowerWord('E', "ncoding");
    AsciiLowerAppend(['T'] + "ransfer-", ['E'] + "ncoding");
    assert "Transfer-Encoding" == (['T'] + "ransfer-") + (['E'] + "ncoding");
  }

  lemma CodingLineFits()
    ensures AreHeaderLines([CODING_LINE]) && InsertAll(map[], [CODING_LINE]) == CODING_MAP
  {
    hide AsciiLower, InsertAll, AreHeaderLines, ParseHeader;
    CodingNameLowers();
    assert CODING_LINE == HeaderLine("Transfer-Encoding", "chunked");
    HeaderLineParses("Transfer-Encoding", "chunked");
    OneHeaderLine(CODING_LINE, "transfer-encoding", "chunked");
  }

  lemma CodingNames()
    ensures SaysChunked("transfer-encoding", "chunked") && !NamesLength("transfer-encoding")
  {
    hide ToLower, Trim, AsciiLower;
    var name := "transfer-encoding";
    AsciiLowerIsIdentity(name);
    LoweringsAgree(name, name);
    TrimIsIdentity(name);
    ChunkedLowers();
    TrimIsIdentity("chunked");
  }

  lemma ChunkedLowers()
    ensures ToLower("chunked") == "chunked"
  {
    LoweringsAgree("ed", "ed");
    AsciiLowerIsIdentity("ed");
    assert ToLower("ked") == "k" + ToLower("ed");
  }

  lemma CodingFraming(order: seq<string>)
    requires Enumerates(order, CODING_MAP)
    ensures FramingOf(CODING_MAP, order) == Ok(Chunked(true, 0, 0))
  {
    hide FramingOf, NamesLength, LengthOf, SaysChunked, Enumerates;
    CodingNames();
    FramingPrecedence(CODING_MAP, order);
    assert "transfer-encoding" in CODING_MAP;
    assert IsChunked(CODING_MAP) && !HasMalformedLength(CODING_MAP);
  }

  /** A response with a chunked body, from its first size line on. */
  function ChunkedResponse(reason: string, line: Ended, tail: seq<Byte>): seq<Byte> {
    ResponseBytes(StatusLine("HTTP/1.1", 200, reason), [CODING_LINE], Bytes(line) + tail)
  }

  lemma ChunkedMetadata(reason: string, line: Ended, n: nat, tail: seq<Byte>, order: HashOrder)
    requires IsHashOrder(order) && '\n' !in reason && Announces(line, n)
    requires |ChunkedResponse(reason, line, tail)| <= USIZE_MAX
    ensures var m := Metadata(200, reason, Chunked(true, 0, 0), Head.Head(CODING_MAP, None, Bytes(line) + tail));
            StartsChunk(ChunkedResponse(reason, line, tail), NO_LIMITS, order, m, line, n, tail)
  {
    hide MetadataOf, FramingOf, InsertAll, ResponseBytes, StatusLine, Enumerates, Announces, Bytes;
    CodingLineFits();
    PrintedMetadata("HTTP/1.1", 200, reason, [CODING_LINE], Bytes(line) + tail, NO_LIMITS, order);
    CodingFraming(order(CODING_MAP));
  }

  /** Every written chunked response is lost in one piece and not lost when cut behind its first size line. */
  lemma ChunkedResponseDependsOnCut(reason: string, line: Ended, n: nat, tail: seq<Byte>, order: HashOrder)
    requires IsHashOrder(order) && '\n' !in reason && Announces(line, n) && tail != []
    requires |ChunkedResponse(reason, line, tail)| <= USIZE_MAX
    ensures var input := ChunkedResponse(reason, line, tail);
            && |tail| <= |input|
            && IsLost(ReceiveOf([Data(input)], NO_LIMITS, order, false))
            && !IsLost(ReceiveOf([Data(Before(input, tail)), Data(tail)], NO_LIMITS, order, false))
  {
    hide ChunkedResponse, Announces, StartsChunk, ReceiveOf, IsLost, Before, Bytes;
    ChunkedMetadata(reason, line, n, tail, order);
    var m := Metadata(200, reason, Chunked(true, 0, 0), Head.Head(CODING_MAP, None, Bytes(line) + tail));
    ChunkedDependsOnCut(ChunkedResponse(reason, line, tail), NO_LIMITS, order, m, line, n, tail);
  }

  /** Without trailers only the length is left of the headers. */
  lemma FinishedCoding(final: HeaderMap, total: nat)
    requires Finished(final, CODING_MAP, total)
    ensures final == map["content-length" := Decimal(total)]
  {
    hide Decimal;
    assert forall k :: k in final <==> k == "content-length";
  }

  /** A written one-chunk response is delivered whole when its data comes byte by byte. */
  lemma OneChunkResponseDelivered(reason: string, line: Ended, data: seq<Byte>, order: HashOrder)
    requires IsHashOrder(order) && '\n' !in reason && Announces(line, |data|)
    requires |ChunkedResponse(reason, line, data + ChunkTail())| <= USIZE_MAX
    ensures var input := ChunkedResponse(reason, line, data + ChunkTail());
            && |data + ChunkTail()| <= |input|
            && var run := ByteByByte(Before(input, data + ChunkTail()), data, ChunkTail());
            && CarriesExactly(run, input)
            && ReceiveOf(run, NO_LIMITS, order, false) ==
               Ok(Response(200, reason, map["content-length" := Decimal(|data|)], "", data))
  {
    hide ChunkedResponse, Announces, StartsChunk, ReceiveOf, Before, Bytes, ChunkTail, EndsBody, CarriesExactly;
    hide Finished, Merged, Decimal, ByteByByte;
    var input := ChunkedResponse(reason, line, data + ChunkTail());
    ChunkedMetadata(reason, line, |data|, data + ChunkTail(), order);
    TailEndsBodyIff(None, CODING_MAP);
    var body := Bytes(line) + (data + ChunkTail());
    var m := Metadata(200, reason, Chunked(true, 0, 0), Head.Head(CODING_MAP, None, body));
    FirstChunkAlone(input, NO_LIMITS, order, m, line, data, ChunkTail());
    var run := ByteByByte(Before(input, data + ChunkTail()), data, ChunkTail());
    FinishedCoding(ReceiveOf(run, NO_LIMITS, order, false).value.headers, |data|);
  }

  /** A written response of several chunks gives, byte by byte, its first chunk as the complete body. */
  lemma SeveralChunksResponse(reason: string, line: Ended, data: seq<Byte>, next: Ended, more: seq<Byte>,
      order: HashOrder)
    requires IsHashOrder(order) && '\n' !in reason && Announces(line, |data|)
    requires IsEnded(next) && ':' !in next.text && (next.ending == [] ==> more == [])
    requires |ChunkedResponse(reason, line, data + ([CR, LF] + (Bytes(next) + more)))| <= USIZE_MAX
    ensures var behind := [CR, LF] + (Bytes(next) + more);
            var input := ChunkedResponse(reason, line, data + behind);
            && |data + behind| <= |input|
            && var run := ByteByByte(Before(input, data + behind), data, behind);
            && CarriesExactly(run, input)
            && ReceiveOf(run, NO_LIMITS, order, false) ==
               Ok(Response(200, reason, map["content-length" := Decimal(|data|)], "", data))
  {
    hide ChunkedResponse, Announces, StartsChunk, ReceiveOf, Before, Bytes, EndsBody, CarriesExactly, Decimal, IsEnded;
    hide Finished, Merged, ByteByByte;
    var behind := [CR, LF] + (Bytes(next) + more);
    var input := ChunkedResponse(reason, line, data + behind);
    ChunkedMetadata(reason, line, |data|, data + behind, order);
    var m := Metadata(200, reason, Chunked(true, 0, 0), Head.Head(CODING_MAP, None, Bytes(line) + (data + behind)));
    LaterChunksDropped(input, NO_LIMITS, order, m, line, data, next, more);
    var run := ByteByByte(Before(input, data + behind), data, behind);
    FinishedCoding(ReceiveOf(run, NO_LIMITS, order, false).value.headers, |data|);
  }

  // ---------- Headers and trailers of a chunked response ----------

  /**
   A written chunked response without chunks, over every cutting without stalls: all its headers arrive, except that
   content-length zero takes the place of the transfer coding, and all its trailers are merged with them.
   */
  lemma TrailersReachResponse(code: nat, reason: string, lines: seq<string>, trailers: seq<Ended>, last: Ended,
      rest: seq<Byte>, events: seq<Event>, order: HashOrder)
    requires IsHashOrder(order) && AreHeaderLines(lines) && '\n' !in reason && code <= I32_MAX
    requires code != 204 && code != 304 && IsTrailerSection(trailers, last, rest, None) && NeverStalls(events)
    requires var headers := InsertAll(map[], lines); FramingOf(headers, order(headers)) == Ok(Chunked(true, 0, 0))
    requires var body := Bytes(Ended("0", [CR, LF])) + (Written(trailers) + (Bytes(last) + rest));
             var input := ResponseBytes(StatusLine("HTTP/1.1", code, reason), lines, body);
             |input| <= USIZE_MAX && CarriesExactly(events, input)
    ensures var r := ReceiveOf(events, NO_LIMITS, order, false);
            && r.Ok? && r.value.status == code && r.value.reason == reason && r.value.body == []
            && Finished(r.value.headers, InsertAll(map[], lines + Texts(trailers)), 0)
  {
    hide MetadataOf, FramingOf, InsertAll, ResponseBytes, StatusLine, ReceiveOf, IsTrailerSection, Bytes, Written;
    hide AreHeaderLines, Finished, Texts, EndsBody, Merged, FreeLineOf, Encode, NeverStalls;
    var body := Bytes(Ended("0", [CR, LF])) + (Written(trailers) + (Bytes(last) + rest));
    var headers := InsertAll(map[], lines);
    PrintedMetadata("HTTP/1.1", code, reason, lines, body, NO_LIMITS, order);
    WrittenEnd(trailers, last, rest, None, headers);
    ZeroSize();
    InsertAllAppend(map[], lines, Texts(trailers));
    var m := Metadata(code, reason, Chunked(true, 0, 0), Head.Head(headers, None, body));
    EmptyChunkedResponse(events, NO_LIMITS, order, m);
  }
}
