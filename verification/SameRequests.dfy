/**
 When two requests of a redirect run are the same on the wire. The loop check of src/request.rs compares URLs with
 their fragments, which are never sent (section 5.1 of RFC 7230).
 */
module SameRequests {
  import opened Wrappers
  import opened Scan
  import opened Text
  import opened Utf8
  import opened Headers
  import opened HttpUrl
  import opened UrlLaws
  import opened Request

  // ---------- Texts that determine their parts ----------

  lemma SameSuffix(a: string, b: string, x: string)
    ensures a + x == b + x <==> a == b
  {
    if a + x == b + x {
      assert a == (a + x)[..|a|] && b == (b + x)[..|b|];
    }
  }

  lemma SamePrefix(x: string, a: string, b: string)
    ensures x + a == x + b <==> a == b
  {
    assert a == (x + a)[|x|..] && b == (x + b)[|x|..];
  }

  /** A first line without line feed is determined by the text, and so is what follows it. */
  lemma SameFirstLine(a: string, b: string, restA: string, restB: string)
    requires '\n' !in a && '\n' !in b
    ensures a + CRLF + restA == b + CRLF + restB <==> a == b && restA == restB
  {
    var textA, textB := (a + "\r") + ("\n" + restA), (b + "\r") + ("\n" + restB);
    assert a + CRLF + restA == textA && b + CRLF + restB == textB;
    CutIs(a + "\r", "\n" + restA, {'\n'});
    CutIs(b + "\r", "\n" + restB, {'\n'});
    if textA == textB {
      assert a == textA[..|a|] && b == textB[..|b|];
      assert restA == textA[|a| + 2..] && restB == textB[|b| + 2..];
    }
  }

  lemma SameDecimal(a: nat, b: nat)
    ensures Decimal(a) == Decimal(b) <==> a == b
  {
    DecimalValue(a);
    DecimalValue(b);
  }

  lemma SamePortSuffix(a: Port, b: Port)
    ensures PortSuffix(a) == PortSuffix(b) <==> (a == b || (!a.Explicit? && !b.Explicit?))
  {
    if a.Explicit? && b.Explicit? {
      SameDecimal(a.port, b.port);
      SamePrefix(":", Decimal(a.port), Decimal(b.port));
    }
  }

  /** The Host value determines host and port text. */
  lemma SameHostValue(u: HttpUrl, v: HttpUrl)
    requires WellFormed(u) && WellFormed(v)
    ensures HostValue(u) == HostValue(v) <==> u.host == v.host && PortSuffix(u.port) == PortSuffix(v.port)
  {
    hide Decimal;
    if HostValue(u) == HostValue(v) {
      CutIs(u.host, PortSuffix(u.port), {':'});
      CutIs(v.host, PortSuffix(v.port), {':'});
      assert u.host == HostValue(u)[..|u.host|] && v.host == HostValue(v)[..|v.host|];
      SamePrefix(u.host, PortSuffix(u.port), PortSuffix(v.port));
    }
  }

  // ---------- The bytes of a request ----------

  /** The header lines behind the Host line; the URL has no part in them. */
  function LinesBehindHost(verb: Method, headers: HeaderMap, order: seq<string>): string
    requires forall k | k in order :: k in headers
  {
    Terminated(PrintedHeaders(headers, order) + if AddsLength(verb, headers) then [ZERO_LENGTH] else []) + CRLF
  }

  lemma HeadTextSplit(verb: Method, u: HttpUrl, headers: HeaderMap, order: seq<string>)
    requires forall k | k in order :: k in headers
    ensures HeadText(verb, u, headers, order) ==
            RequestLine(verb, u) + CRLF +
            (HeaderLine("Host", HostValue(u)) + CRLF + LinesBehindHost(verb, headers, order))
  {
    hide RequestLine, HeaderLine, AddsLength;
    var host := HeaderLine("Host", HostValue(u));
    var others := PrintedHeaders(headers, order) + if AddsLength(verb, headers) then [ZERO_LENGTH] else [];
    assert HeaderLines(verb, u, headers, order) == [host] + others;
    assert ([host] + others)[1..] == others;
    assert Terminated([host] + others) == host + CRLF + Terminated(others);
  }

  lemma SameRequestLine(verb: Method, u: HttpUrl, v: HttpUrl)
    ensures RequestLine(verb, u) == RequestLine(verb, v) <==> u.pathAndQuery == v.pathAndQuery
  {
    var first, last := MethodText(verb) + " ", " HTTP/1.1";
    SameSuffix(first + u.pathAndQuery, first + v.pathAndQuery, last);
    SamePrefix(first, u.pathAndQuery, v.pathAndQuery);
  }

  lemma SameHead(verb: Method, u: HttpUrl, v: HttpUrl, headers: HeaderMap, order: seq<string>)
    requires forall k | k in order :: k in headers
    requires '\n' !in RequestLine(verb, u) && '\n' !in RequestLine(verb, v)
    requires '\n' !in HostValue(u) && '\n' !in HostValue(v)
    ensures HeadText(verb, u, headers, order) == HeadText(verb, v, headers, order) <==>
            u.pathAndQuery == v.pathAndQuery && HostValue(u) == HostValue(v)
  {
    hide RequestLine, HeadText, LinesBehindHost, HostValue;
    var hostU, hostV := HeaderLine("Host", HostValue(u)), HeaderLine("Host", HostValue(v));
    var rest := LinesBehindHost(verb, headers, order);
    HeadTextSplit(verb, u, headers, order);
    HeadTextSplit(verb, v, headers, order);
    SameFirstLine(RequestLine(verb, u), RequestLine(verb, v), hostU + CRLF + rest, hostV + CRLF + rest);
    SameFirstLine(hostU, hostV, rest, rest);
    SameRequestLine(verb, u, v);
    SamePrefix("Host" + ": ", HostValue(u), HostValue(v));
  }

  lemma SameBytes(a: string, b: string, body: seq<Byte>)
    ensures Encode(a) + body == Encode(b) + body <==> a == b
  {
    hide Encode, Decode;
    if Encode(a) + body == Encode(b) + body {
      assert Encode(a) == (Encode(a) + body)[..|Encode(a)|] && Encode(b) == (Encode(b) + body)[..|Encode(b)|];
      DecodeEncode(a);
      DecodeEncode(b);
    }
  }

  /** What cannot split a printed head: no line feed in method, path and host. */
  predicate StaysOneLine(verb: Method, u: HttpUrl) {
    '\n' !in MethodText(verb) && '\n' !in u.pathAndQuery && '\n' !in u.host
  }

  lemma LinesStayOneLine(verb: Method, u: HttpUrl)
    requires StaysOneLine(verb, u)
    ensures '\n' !in RequestLine(verb, u) && '\n' !in HostValue(u)
  {
    if u.port.Explicit? {
      DecimalValue(u.port.port);
    }
  }

  /** To the same kind of connection two URLs give the same bytes if and only if they differ at most in the fragment. */
  lemma SameOnWireIff(verb: Method, u: HttpUrl, v: HttpUrl, headers: HeaderMap, body: Option<seq<Byte>>,
      order: seq<string>)
    requires WellFormed(u) && WellFormed(v) && StaysOneLine(verb, u) && StaysOneLine(verb, v) && u.https == v.https
    requires forall k | k in order :: k in headers
    ensures RequestBytes(verb, u, headers, body, order) == RequestBytes(verb, v, headers, body, order) <==>
            u.(fragment := None) == v.(fragment := None)
  {
    hide HeadText, RequestLine, HostValue, PortSuffix, Encode;
    LinesStayOneLine(verb, u);
    LinesStayOneLine(verb, v);
    SameBytes(HeadText(verb, u, headers, order), HeadText(verb, v, headers, order),
              if body.Some? then body.value else []);
    SameHead(verb, u, v, headers, order);
    SameHostValue(u, v);
    SamePortSuffix(u.port, v.port);
  }

  // ---------- A redirect to the same request ----------

  /** The location that asks for the same path with another fragment. */
  function OtherFragment(u: HttpUrl, fragment: string): string {
    u.pathAndQuery + "#" + fragment
  }

  /** The loop check lets it through, as long as that fragment is new, and the same bytes go out again. */
  lemma FragmentHopRepeats(c: Chase, fragment: string, headers: HeaderMap, body: Option<seq<Byte>>,
      order: seq<string>)
    requires WellFormed(c.url) && Find(OtherFragment(c.url, fragment), PROTOCOL_MARK).None?
    requires |c.redirects| < c.maxRedirects && c.url.(fragment := Some(fragment)) !in c.redirects + [c.url]
    requires forall k | k in order :: k in headers
    ensures var next := c.(url := c.url.(fragment := Some(fragment)), redirects := c.redirects + [c.url]);
            && Redirected(c, OtherFragment(c.url, fragment), false) == (Ok(()), next)
            && RequestBytes(c.verb, next.url, headers, body, order) == RequestBytes(c.verb, c.url, headers, body, order)
  {
    hide ParseUrl, Find, Cut, BaseUrl, Encode;
    var path, location := c.url.pathAndQuery, OtherFragment(c.url, fragment);
    assert location == path + ("#" + fragment);
    CutIs(path, "#" + fragment, {'#'});
    assert location[..|path|] == path && location[|path| + 1..] == fragment && location[0] == path[0];
    FollowPath(c.url, location, false);
    assert HeadText(c.verb, c.url.(fragment := Some(fragment)), headers, order) ==
           HeadText(c.verb, c.url, headers, order);
  }
}
