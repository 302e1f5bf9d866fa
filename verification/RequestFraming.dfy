/** The client's own line and header reader reads back what the client prints (section 3 of RFC 7230). */
module RequestFraming {
  import opened Wrappers
  import opened Scan
  import opened Text
  import opened Utf8
  import opened Transport
  import opened Lines
  import opened Headers
  import opened Framing
  import opened Metadata
  import opened Delivery
  import opened HttpUrl
  import opened Request

  /** No line feed anywhere, no colon in a name, and no two names that differ only in letter case. */
  ghost predicate Printable(verb: Method, u: HttpUrl, headers: HeaderMap) {
    && '\n' !in MethodText(verb) && '\n' !in u.pathAndQuery && '\n' !in u.host
    && (forall k | k in headers :: ':' !in k && '\n' !in k && '\n' !in headers[k] && AsciiLower(k) != "host")
    && (forall k1, k2 | k1 in headers && k2 in headers && AsciiLower(k1) == AsciiLower(k2) :: k1 == k2)
  }

  // ---------- The bytes of a head ----------

  lemma {:induction false} EncodeTerminated(lines: seq<string>)
    ensures Encode(Terminated(lines)) == Block(lines)
  {
    if lines != [] {
      EncodeTerminated(lines[1..]);
      EncodeLineEnd();
      EncodeAppend(lines[0], CRLF);
      EncodeAppend(lines[0] + CRLF, Terminated(lines[1..]));
    }
  }

  lemma EncodeLineEnd()
    ensures Encode(CRLF) == [CR, LF]
  {
    assert CRLF == ['\r', '\n'] && CRLF[1..] == ['\n'] && CRLF[1..][1..] == "";
    assert EncodeChar('\r') == [CR] && EncodeChar('\n') == [LF];
  }

  lemma HeadBytes(first: string, lines: seq<string>)
    ensures Encode(first + CRLF + Terminated(lines) + CRLF) == Encode(first) + [CR, LF] + (Block(lines) + [CR, LF])
  {
    hide Encode, Block, Terminated;
    EncodeLineEnd();
    EncodeTerminated(lines);
    EncodeAppend(first, CRLF);
    EncodeAppend(first + CRLF, Terminated(lines));
    EncodeAppend(first + CRLF + Terminated(lines), CRLF);
  }

  lemma SectionWithBody(first: seq<Byte>, block: seq<Byte>, body: seq<Byte>)
    ensures first + [CR, LF] + (block + [CR, LF]) + body == first + [CR, LF] + (block + [CR, LF] + body)
  {
  }

  /** A printed request is its request line, a header section and the body. */
  lemma RequestBytesSplit(verb: Method, u: HttpUrl, headers: HeaderMap, body: seq<Byte>, order: seq<string>)
    requires forall k | k in order :: k in headers
    ensures RequestBytes(verb, u, headers, Some(body), order) ==
            Encode(RequestLine(verb, u)) + [CR, LF] + Section(HeaderLines(verb, u, headers, order), body)
  {
    hide RequestLine, HeaderLines, Encode, Block, Terminated;
    var first, lines := RequestLine(verb, u), HeaderLines(verb, u, headers, order);
    HeadBytes(first, lines);
    SectionWithBody(Encode(first), Block(lines), body);
  }

  // ---------- The header map recovered ----------

  ghost predicate Names(order: seq<string>, name: string) {
    exists k | k in order :: AsciiLower(k) == name
  }

  /** r is acc with every header of the order under its lower-cased name, and nothing else. */
  ghost predicate Recovers(r: HeaderMap, acc: HeaderMap, headers: HeaderMap, order: seq<string>) {
    && (forall k | k in order :: k in headers && AsciiLower(k) in r && r[AsciiLower(k)] == headers[k])
    && (forall x | x in acc && !Names(order, x) :: x in r && r[x] == acc[x])
    && (forall x | x in r :: x in acc || Names(order, x))
  }

  ghost predicate Distinct(headers: HeaderMap, order: seq<string>) {
    && (forall k | k in order :: k in headers && ':' !in k)
    && (forall i, j | 0 <= i < j < |order| :: AsciiLower(order[i]) != AsciiLower(order[j]))
  }

  lemma {:induction false} HeadersRecovered(acc: HeaderMap, headers: HeaderMap, order: seq<string>)
    requires Distinct(headers, order)
    ensures Recovers(InsertAll(acc, PrintedHeaders(headers, order)), acc, headers, order)
  {
    if order != [] {
      var init, k := order[..|order| - 1], order[|order| - 1];
      assert order == init + [k] && k in order;
      assert forall x | x in init :: x in order;
      HeadersRecovered(acc, headers, init);
      var line := HeaderLine(k, headers[k]);
      InsertAllPush(acc, PrintedHeaders(headers, init), line);
      HeaderLineParses(k, headers[k]);
      var before := InsertAll(acc, PrintedHeaders(headers, init));
      assert InsertAll(acc, PrintedHeaders(headers, order)) == before[AsciiLower(k) := headers[k]];
      RecoversOneMore(before, acc, headers, init, k);
    }
  }

  lemma RecoversOneMore(r: HeaderMap, acc: HeaderMap, headers: HeaderMap, init: seq<string>, k: string)
    requires Recovers(r, acc, headers, init) && k in headers
    requires Distinct(headers, init + [k])
    ensures Recovers(r[AsciiLower(k) := headers[k]], acc, headers, init + [k])
  {
    hide AsciiLower;
    var order, next := init + [k], r[AsciiLower(k) := headers[k]];
    forall x | x in order ensures x in headers && AsciiLower(x) in next && next[AsciiLower(x)] == headers[x] {
      if x in init {
        var i :| 0 <= i < |init| && init[i] == x;
        assert AsciiLower(order[i]) != AsciiLower(order[|init|]);
      }
    }
    assert k in order;
    assert forall x :: Names(init, x) ==> Names(order, x) by {
      forall x | Names(init, x) ensures Names(order, x) {
        var k0 :| k0 in init && AsciiLower(k0) == x;
        assert k0 in order;
      }
    }
  }

  /** A POST, PUT or PATCH without any header that tells a length. */
  ghost predicate LacksLength(verb: Method, headers: HeaderMap) {
    && (verb.Post? || verb.Put? || verb.Patch?)
    && forall k | k in headers :: AsciiLower(k) != "content-length" && AsciiLower(k) != "transfer-encoding"
  }

  lemma AddsLengthIff(verb: Method, headers: HeaderMap)
    ensures AddsLength(verb, headers) <==> LacksLength(verb, headers)
  {
    hide AsciiLower, NotLength;
    forall k | k in headers
      ensures NotLength(k) <==> AsciiLower(k) != "content-length" && AsciiLower(k) != "transfer-encoding"
    {
      NotLengthInAscii(k);
    }
  }

  /** What the reader has to find: the host, every header under its lower-cased name, and the added length. */
  ghost predicate AllRecovered(r: HeaderMap, verb: Method, u: HttpUrl, headers: HeaderMap) {
    && "host" in r && r["host"] == (if u.port.Explicit? then u.host + ":" + Decimal(u.port.port) else u.host)
    && (forall k | k in headers :: AsciiLower(k) in r && r[AsciiLower(k)] == headers[k])
    && (LacksLength(verb, headers) ==> "content-length" in r && r["content-length"] == "0")
    && (forall x | x in r :: x == "host" || (exists k | k in headers :: AsciiLower(k) == x) ||
                             (x == "content-length" && LacksLength(verb, headers)))
  }

  lemma HostText(u: HttpUrl)
    ensures HostValue(u) == if u.port.Explicit? then u.host + ":" + Decimal(u.port.port) else u.host
  {
  }

  lemma HostLineParses(u: HttpUrl)
    ensures InsertHeader(map[], HeaderLine("Host", HostValue(u))) == map["host" := HostValue(u)]
  {
    HeaderLineParses("Host", HostValue(u));
    assert AsciiLower("Host") == "host";
  }

  lemma LengthNameLowers()
    ensures AsciiLower(CONTENT_LENGTH) == "content-length"
  {
    hide AsciiLower;
    AsciiLowerWord('C', "ontent-");
    AsciiLowerWord('L', "ength");
    AsciiLowerAppend("Content-", "Length");
    assert CONTENT_LENGTH == (['C'] + "ontent-") + (['L'] + "ength");
  }

  lemma ZeroLengthParses(r: HeaderMap)
    ensures InsertHeader(r, ZERO_LENGTH) == r["content-length" := "0"]
  {
    hide AsciiLower;
    assert ZERO_LENGTH == HeaderLine(CONTENT_LENGTH, "0");
    HeaderLineParses(CONTENT_LENGTH, "0");
    LengthNameLowers();
    hide HeaderLine, ParseHeader;
  }

  lemma NotLengthInAscii(k: string)
    ensures NotLength(k) <==> AsciiLower(k) != "content-length" && AsciiLower(k) != "transfer-encoding"
  {
    LoweringsAgree(k, "content-length");
    LoweringsAgree(k, "transfer-encoding");
  }

  lemma OrderIsDistinct(verb: Method, u: HttpUrl, headers: HeaderMap, order: seq<string>)
    requires Enumerates(order, headers) && Printable(verb, u, headers)
    ensures Distinct(headers, order)
  {
    hide AsciiLower;
    forall i, j | 0 <= i < j < |order| ensures AsciiLower(order[i]) != AsciiLower(order[j]) {
      assert order[i] in headers && order[j] in headers;
    }
  }

  lemma LinesRecovered(verb: Method, u: HttpUrl, headers: HeaderMap, order: seq<string>)
    requires Enumerates(order, headers) && Printable(verb, u, headers)
    ensures AllRecovered(InsertAll(map[], HeaderLines(verb, u, headers, order)), verb, u, headers)
  {
    hide AsciiLower, NotLength, HeaderLine, PrintedHeaders, Recovers, InsertHeader, HostValue, LacksLength, Decimal;
    HostText(u);
    AddsLengthIff(verb, headers);
    var host, acc := HeaderLine("Host", HostValue(u)), map["host" := HostValue(u)];
    var printed := PrintedHeaders(headers, order);
    var lines := [host] + printed;
    HostLineParses(u);
    assert lines[0] == host && lines[1..] == printed;
    assert InsertAll(map[], lines) == InsertAll(acc, printed);
    OrderIsDistinct(verb, u, headers, order);
    HeadersRecovered(acc, headers, order);
    var r := InsertAll(acc, printed);
    RecoveredWithHost(r, u, headers, order);
    if AddsLength(verb, headers) {
      InsertAllPush(map[], lines, ZERO_LENGTH);
      ZeroLengthParses(r);
      AddedLengthRecovered(r, verb, u, headers);
    } else {
      assert HeaderLines(verb, u, headers, order) == lines;
    }
  }

  lemma AddedLengthRecovered(r: HeaderMap, verb: Method, u: HttpUrl, headers: HeaderMap)
    requires LacksLength(verb, headers)
    requires "host" in r && r["host"] == HostValue(u)
    requires forall k | k in headers :: AsciiLower(k) in r && r[AsciiLower(k)] == headers[k]
    requires forall x | x in r :: x == "host" || exists k | k in headers :: AsciiLower(k) == x
    ensures AllRecovered(r["content-length" := "0"], verb, u, headers)
  {
    hide AsciiLower, HostValue, Decimal;
    HostText(u);
  }

  lemma RecoveredWithHost(r: HeaderMap, u: HttpUrl, headers: HeaderMap, order: seq<string>)
    requires Enumerates(order, headers)
    requires forall k | k in headers :: AsciiLower(k) != "host"
    requires Recovers(r, map["host" := HostValue(u)], headers, order)
    ensures "host" in r && r["host"] == HostValue(u)
    ensures forall k | k in headers :: AsciiLower(k) in r && r[AsciiLower(k)] == headers[k]
    ensures forall x | x in r :: x == "host" || exists k | k in headers :: AsciiLower(k) == x
  {
    hide AsciiLower;
    assert !Names(order, "host");
  }

  // ---------- The round trip ----------

  lemma {:induction false} PrintedLinesFit(headers: HeaderMap, order: seq<string>)
    requires forall k | k in order :: k in headers && '\n' !in k && '\n' !in headers[k]
    ensures AreHeaderLines(PrintedHeaders(headers, order))
  {
    if order != [] {
      var init := order[..|order| - 1];
      assert order == init + [order[|order| - 1]] && forall x | x in init :: x in order;
      PrintedLinesFit(headers, init);
    }
  }

  lemma LinesFit(verb: Method, u: HttpUrl, headers: HeaderMap, order: seq<string>)
    requires Enumerates(order, headers) && Printable(verb, u, headers)
    ensures AreHeaderLines(HeaderLines(verb, u, headers, order))
    ensures '\n' !in RequestLine(verb, u)
  {
    PrintedLinesFit(headers, order);
    HostFits(u);
    hide PrintedHeaders, HostValue, AsciiLower, NotLength;
    assert '\n' !in ZERO_LENGTH;
  }

  lemma HostFits(u: HttpUrl)
    requires '\n' !in u.host
    ensures '\n' !in HeaderLine("Host", HostValue(u))
  {
    if u.port.Explicit? {
      DecimalValue(u.port.port);
    }
    hide Decimal;
    assert '\n' !in HostValue(u);
  }

  ghost function BodyBytes(body: Option<seq<Byte>>): seq<Byte> {
    if body.Some? then body.value else []
  }

  /**
   For every transport cutting of a printed request: the first line read is the request line, the header loop
   recovers the host and every header with its exact value, and what is left is exactly the body.
   */
  lemma RequestRoundTrip(verb: Method, u: HttpUrl, headers: HeaderMap, body: Option<seq<Byte>>, order: seq<string>,
      events: seq<Event>)
    requires Enumerates(order, headers) && Printable(verb, u, headers)
    requires CarriesExactly(events, RequestBytes(verb, u, headers, body, order))
    requires |RequestBytes(verb, u, headers, body, order)| <= USIZE_MAX
    ensures var first := AsyncLine([], events, USIZE_MAX, StatusLineOverflow);
            && first.line.Ok? && first.line.value.text == RequestLine(verb, u)
            && var r := HeaderLoop(first.line.value.rest, first.events, None, map[]);
               && r.head.Ok? && AllRecovered(r.head.value.headers, verb, u, headers)
               && r.head.value.rest + Payload(r.events) == BodyBytes(body)
  {
    hide RequestBytes, RequestLine, HeaderLines, AsyncLine, HeaderLoop, Encode, Block, AllRecovered, InsertAll;
    var text, lines := RequestLine(verb, u), HeaderLines(verb, u, headers, order);
    RequestBytesSplit(verb, u, headers, BodyBytes(body), order);
    NoBodyIsEmpty(verb, u, headers, order);
    LinesFit(verb, u, headers, order);
    LinesRecovered(verb, u, headers, order);
    FirstLineRead(text, Section(lines, BodyBytes(body)), events);
    var first := AsyncLine([], events, USIZE_MAX, StatusLineOverflow);
    SectionRead(lines, BodyBytes(body), first.line.value.rest, first.events);
  }

  lemma NoBodyIsEmpty(verb: Method, u: HttpUrl, headers: HeaderMap, order: seq<string>)
    requires forall k | k in order :: k in headers
    ensures RequestBytes(verb, u, headers, None, order) == RequestBytes(verb, u, headers, Some([]), order)
  {
    hide HeadText, Encode;
  }

  lemma FirstLineRead(text: string, rest: seq<Byte>, events: seq<Event>)
    requires '\n' !in text && CarriesExactly(events, Encode(text) + [CR, LF] + rest)
    requires |Encode(text) + [CR, LF] + rest| <= USIZE_MAX
    ensures var first := AsyncLine([], events, USIZE_MAX, StatusLineOverflow);
            && first.line.Ok? && first.line.value.text == text
            && first.line.value.rest + Payload(first.events) == rest && FaultOf(first.events) == None
  {
    hide AsyncLine, LineOf, Encode;
    LineOfPrinted(text, [CR, LF], rest, None, USIZE_MAX, StatusLineOverflow);
    AsyncLineRefinesBytes([], events, USIZE_MAX, StatusLineOverflow);
    assert [] + Payload(events) == Payload(events);
  }

  lemma SectionRead(lines: seq<string>, body: seq<Byte>, prefix: seq<Byte>, events: seq<Event>)
    requires AreHeaderLines(lines) && prefix + Payload(events) == Section(lines, body) && FaultOf(events) == None
    requires |Section(lines, body)| <= USIZE_MAX
    ensures var r := HeaderLoop(prefix, events, None, map[]);
            && r.head.Ok? && r.head.value.headers == InsertAll(map[], lines)
            && r.head.value.rest + Payload(r.events) == body
  {
    hide HeaderLoop, HeadersOf, InsertAll, Block;
    HeaderLoopRefinesBytes(prefix, events, None, map[]);
    BudgetIsExact(lines, body, None, None, map[]);
  }

  /** POST, PUT and PATCH always carry a length: the reader finds a content-length or a transfer-encoding. */
  lemma BodyMethodsCarryLength(r: HeaderMap, verb: Method, u: HttpUrl, headers: HeaderMap)
    requires (verb.Post? || verb.Put? || verb.Patch?) && AllRecovered(r, verb, u, headers)
    ensures "content-length" in r || "transfer-encoding" in r
  {
    hide AsciiLower, Decimal;
  }

  /** The other methods get no length: only a header of their own can tell one. */
  lemma OtherMethodsGetNoLength(r: HeaderMap, verb: Method, u: HttpUrl, headers: HeaderMap)
    requires !verb.Post? && !verb.Put? && !verb.Patch? && AllRecovered(r, verb, u, headers)
    ensures "content-length" in r ==> exists k | k in headers :: AsciiLower(k) == "content-length"
  {
    hide AsciiLower, Decimal;
  }

  // ---------- The first line ----------

  /** What stands in front of the path, word by word. */
  lemma MethodWords(verb: Method)
    ensures match verb
            case Get => MethodText(verb) == "GET"
            case Head => MethodText(verb) == "HEAD"
            case Post => MethodText(verb) == "POST"
            case Put => MethodText(verb) == "PUT"
            case Delete => MethodText(verb) == "DELETE"
            case Connect => MethodText(verb) == "CONNECT"
            case Options => MethodText(verb) == "OPTIONS"
            case Trace => MethodText(verb) == "TRACE"
            case Patch => MethodText(verb) == "PATCH"
            case Custom(name) => MethodText(verb) == name
  {
  }

  /**
   The first line that goes out (section 3.1.1 of RFC 7230), as the reader finds it over every cutting: the word of
   the method, the path and query, and the version.
   */
  lemma RequestLineRead(verb: Method, u: HttpUrl, headers: HeaderMap, body: Option<seq<Byte>>, order: seq<string>,
      events: seq<Event>)
    requires Enumerates(order, headers) && Printable(verb, u, headers)
    requires CarriesExactly(events, RequestBytes(verb, u, headers, body, order))
    requires |RequestBytes(verb, u, headers, body, order)| <= USIZE_MAX
    ensures var first := AsyncLine([], events, USIZE_MAX, StatusLineOverflow);
            && first.line.Ok?
            && var text, target := first.line.value.text, u.pathAndQuery + " HTTP/1.1";
               match verb
               case Get => text == "GET " + target
               case Head => text == "HEAD " + target
               case Post => text == "POST " + target
               case Put => text == "PUT " + target
               case Delete => text == "DELETE " + target
               case Connect => text == "CONNECT " + target
               case Options => text == "OPTIONS " + target
               case Trace => text == "TRACE " + target
               case Patch => text == "PATCH " + target
               case Custom(name) => text == name + " " + target
  {
    hide AsyncLine, RequestBytes, HeaderLoop, AllRecovered, Printable, MethodText;
    RequestRoundTrip(verb, u, headers, body, order, events);
    MethodWords(verb);
    assert RequestLine(verb, u) == MethodText(verb) + " " + (u.pathAndQuery + " HTTP/1.1");
  }

  /** The length that with_body sets is read back as the length of the body, and frames exactly the body. */
  lemma BodyLengthRecovered(r: HeaderMap, verb: Method, u: HttpUrl, headers: HeaderMap, body: seq<Byte>)
    requires AllRecovered(r, verb, u, headers) && |body| <= USIZE_MAX
    requires CONTENT_LENGTH in headers && headers[CONTENT_LENGTH] == Decimal(|body|)
    ensures "content-length" in r && LengthOf(r["content-length"]) == Some(|body|)
    ensures BodyOf(ContentLength(LengthOf(r["content-length"]).value), body, None) == Ok(body)
  {
    hide AsciiLower;
    LengthNameLowers();
    DecimalValue(|body|);
    TrimIsIdentity(Decimal(|body|));
    ParseDecimal(|body|, USIZE_MAX);
  }
}
