/** Requests, their builders and their printed form (src/request.rs). */
module Request {
  import opened Wrappers
  import opened Scan
  import opened Text
  import opened Utf8
  import opened Headers
  import opened Metadata
  import opened HttpUrl
  import opened Queries

  datatype Method = Get | Head | Post | Put | Delete | Connect | Options | Trace | Patch | Custom(name: string)

  /** The Display form. */
  function MethodText(m: Method): string {
    match m
    case Get => "GET"
    case Head => "HEAD"
    case Post => "POST"
    case Put => "PUT"
    case Delete => "DELETE"
    case Connect => "CONNECT"
    case Options => "OPTIONS"
    case Trace => "TRACE"
    case Patch => "PATCH"
    case Custom(name) => name
  }

  const CONTENT_LENGTH := "Content-Length"
  const CRLF := "\r\n"

  class Request {
    var verb: Method
    var url: string
    var params: string
    var headers: HeaderMap
    var body: Option<seq<Byte>>
    var maxRedirects: nat
    var maxHeadersSize: Option<nat>
    var maxStatusLineLen: Option<nat>

    constructor (verb: Method, url: string)
      ensures this.verb == verb && this.url == url && params == "" && headers == map[] && body == None
      ensures maxRedirects == 100 && maxHeadersSize == None && maxStatusLineLen == None
    {
      this.verb, this.url, params, headers, body := verb, url, "", map[], None;
      maxRedirects, maxHeadersSize, maxStatusLineLen := 100, None, None;
    }

    /** The limits handed to from_stream. */
    function ReadLimits(): (limits: Limits)
      reads this
      ensures limits.headers == maxHeadersSize && limits.status == maxStatusLineLen
    {
      Limits(maxHeadersSize, maxStatusLineLen)
    }

    method WithHeader(key: string, value: string)
      modifies `headers
      ensures headers == old(headers)[key := value]
    {
      headers := headers[key := value];
    }

    method WithBody(body: seq<Byte>)
      modifies `headers, `body
      ensures this.body == Some(body)
      ensures headers == old(headers)[CONTENT_LENGTH := Decimal(|body|)]
    {
      this.body := Some(body);
      WithHeader(CONTENT_LENGTH, Decimal(|body|));
    }

    /**
     with_param; encode is the identity unless the urlencoding feature supplies an encoder. The pairs before stay, and
     one pair comes behind them exactly when the texts put in cannot be mistaken for separators.
     */
    method WithParam(key: string, value: string, encode: string -> string)
      modifies `params
      ensures params == AddParam(old(params), encode(key), encode(value))
      ensures SplitQuery(old(params)) <= SplitQuery(params)
      ensures SplitQuery(params) == SplitQuery(old(params)) + [(encode(key), encode(value))] <==>
              Separable(encode(key), encode(value))
    {
      hide SplitQuery, PairsIn, Separable;
      AddParamSplitsIff(params, encode(key), encode(value));
      if params != "" {
        params := params + ['&'];
      }
      params := params + encode(key);
      params := params + ['='];
      params := params + encode(value);
    }
  }

  // ---------- The URL of a parsed request ----------

  /** ParsedRequest::new: the query parameters joined to the path. */
  function WithParams(u: HttpUrl, params: string): HttpUrl {
    if params == "" then u
    else u.(pathAndQuery := u.pathAndQuery + (if '?' in u.pathAndQuery then "&" else "?") + params)
  }

  /** The query pairs of a URL: what follows the first question mark. */
  function QueryPairs(u: HttpUrl): seq<Pair> {
    var i := Cut(u.pathAndQuery, {'?'});
    if i < |u.pathAndQuery| then PairsIn(u.pathAndQuery[i + 1..]) else []
  }

  function PathOf(u: HttpUrl): string {
    u.pathAndQuery[..Cut(u.pathAndQuery, {'?'})]
  }

  /** Whatever the URL and the parameters: the path stays, and the parameters' pairs come behind those of the URL. */
  lemma ParamsJoinQuery(u: HttpUrl, params: string)
    ensures PathOf(WithParams(u, params)) == PathOf(u)
    ensures QueryPairs(WithParams(u, params)) == QueryPairs(u) + SplitQuery(params)
  {
    hide Cut, PairsIn;
    var path := u.pathAndQuery;
    CutIsFirst(path, {'?'});
    if params != "" {
      if Cut(path, {'?'}) < |path| {
        QueryExtended(path, params);
      } else {
        assert path[..|path|] == path;
        QueryStarted(path, params);
      }
    }
  }

  lemma QueryExtended(path: string, params: string)
    requires Cut(path, {'?'}) < |path|
    ensures var i, longer := Cut(path, {'?'}), path + "&" + params;
            Cut(longer, {'?'}) == i && longer[..i] == path[..i] &&
            PairsIn(longer[i + 1..]) == PairsIn(path[i + 1..]) + PairsIn(params)
  {
    hide Cut, PairsIn;
    var i, longer := Cut(path, {'?'}), path + ("&" + params);
    assert longer == path + "&" + params;
    CutAppend(path, "&" + params, {'?'});
    PairsJoin(path[i + 1..], params);
    assert longer[i + 1..] == path[i + 1..] + "&" + params;
  }

  lemma QueryStarted(path: string, params: string)
    requires '?' !in path
    ensures var longer := path + "?" + params;
            Cut(path, {'?'}) == |path| && Cut(longer, {'?'}) == |path| && longer[..|path|] == path
            && longer[|path| + 1..] == params
  {
    assert path + "?" + params == path + ("?" + params);
    CutIs(path, "?" + params, {'?'});
    CutIs(path, [], {'?'});
    assert path + [] == path;
  }

  // ---------- Redirection ----------

  /** What redirection reads and writes of a ParsedRequest. */
  datatype Chase = Chase(url: HttpUrl, redirects: seq<HttpUrl>, verb: Method, maxRedirects: nat)

  const PROTOCOL_MARK := "://"

  /** The URL a Location header leads to: absolute, or put behind the base of the current URL. */
  function Target(u: HttpUrl, location: string, urlencoding: bool): Result<HttpUrl, Error> {
    if Find(location, PROTOCOL_MARK).Some? then ParseUrl(location, Some(u), urlencoding)
    else ParseUrl(BaseUrl(u) + location, Some(u), urlencoding)
  }

  /** A location with a protocol mark is absolute; any other is put behind protocol, host and port as they are. */
  lemma TargetBase(u: HttpUrl, location: string, urlencoding: bool)
    ensures (exists i: nat :: OccursAt(location, "://", i)) ==>
              Target(u, location, urlencoding) == ParseUrl(location, Some(u), urlencoding)
    ensures (forall i: nat :: !OccursAt(location, "://", i)) ==>
              var base := (if u.https then "https://" else "http://") + u.host;
              var port := if u.port.Explicit? then ":" + Decimal(u.port.port) else "";
              Target(u, location, urlencoding) == ParseUrl(base + port + location, Some(u), urlencoding)
  {
    hide ParseUrl, Decimal;
    var base := (if u.https then "https://" else "http://") + u.host;
    var port := if u.port.Explicit? then ":" + Decimal(u.port.port) else "";
    assert BaseUrl(u) == base + port;
  }

  /** redirect_to: the URL changes before the limit and the history are checked. */
  function Redirected(c: Chase, location: string, urlencoding: bool): (Result<(), Error>, Chase) {
    var target := Target(c.url, location, urlencoding);
    if target.Err? then (Err(target.error), c)
    else
      var next := c.(url := target.value, redirects := c.redirects + [c.url]);
      if |next.redirects| > c.maxRedirects then (Err(TooManyRedirections), next)
      else if next.url in next.redirects then (Err(InfiniteRedirectionLoop), next)
      else (Ok(()), next)
  }

  // ---------- The printed head ----------

  function RequestLine(verb: Method, u: HttpUrl): string {
    MethodText(verb) + " " + u.pathAndQuery + " HTTP/1.1"
  }

  function HostValue(u: HttpUrl): string {
    u.host + PortSuffix(u.port)
  }

  /** The header lines in iteration order. */
  function PrintedHeaders(headers: HeaderMap, order: seq<string>): seq<string>
    requires forall k | k in order :: k in headers
  {
    if order == [] then []
    else PrintedHeaders(headers, order[..|order| - 1]) + [HeaderLine(order[|order| - 1], headers[order[|order| - 1]])]
  }

  predicate NotLength(key: string) {
    ToLower(key) != "content-length" && ToLower(key) != "transfer-encoding"
  }

  predicate DefinesBody(verb: Method) {
    verb.Post? || verb.Put? || verb.Patch?
  }

  /** A request whose method defines a body says that it has none, unless a header tells its length. */
  predicate AddsLength(verb: Method, headers: HeaderMap) {
    DefinesBody(verb) && forall k | k in headers :: NotLength(k)
  }

  const ZERO_LENGTH := "Content-Length: 0"

  /** All header lines of a request, in the order they are printed. */
  function HeaderLines(verb: Method, u: HttpUrl, headers: HeaderMap, order: seq<string>): seq<string>
    requires forall k | k in order :: k in headers
  {
    [HeaderLine("Host", HostValue(u))] + PrintedHeaders(headers, order) +
    if AddsLength(verb, headers) then [ZERO_LENGTH] else []
  }

  function Terminated(lines: seq<string>): string {
    if lines == [] then "" else lines[0] + CRLF + Terminated(lines[1..])
  }

  function HeadText(verb: Method, u: HttpUrl, headers: HeaderMap, order: seq<string>): string
    requires forall k | k in order :: k in headers
  {
    RequestLine(verb, u) + CRLF + Terminated(HeaderLines(verb, u, headers, order)) + CRLF
  }

  lemma {:induction false} TerminatedPush(lines: seq<string>, line: string)
    ensures Terminated(lines + [line]) == Terminated(lines) + (line + CRLF)
  {
    if lines == [] {
      assert lines + [line] == [line] && [line][1..] == [];
    } else {
      assert (lines + [line])[1..] == lines[1..] + [line];
      TerminatedPush(lines[1..], line);
    }
  }

  lemma OneLine(line: string)
    ensures Terminated([line]) == line + CRLF
  {
    TerminatedPush([], line);
    assert [] + [line] == [line];
  }

  class ParsedRequest {
    var url: HttpUrl
    var redirects: seq<HttpUrl>
    const config: Request

    /** The value that ParsedRequest::new builds once the URL has been parsed. */
    constructor (url: HttpUrl, config: Request)
      ensures this.url == url && redirects == [] && this.config == config
    {
      this.url, redirects, this.config := url, [], config;
    }

    /** The request line and the Host header of get_http_head. */
    method RequestLineAndHost() returns (http: string)
      ensures http == RequestLine(config.verb, url) + CRLF + (HeaderLine("Host", HostValue(url)) + CRLF)
    {
      http := MethodText(config.verb) + " " + url.pathAndQuery + " HTTP/1.1\r\nHost: " + url.host;
      if url.port.Explicit? {
        http := http + ":" + Decimal(url.port.port);
      }
      http := http + CRLF;
    }

    /** The loop of get_http_head over the header map. */
    method PushHeaders(http0: string, keys: seq<string>, ghost start: string, ghost first: seq<string>)
      returns (http: string)
      requires forall k | k in keys :: k in config.headers
      requires http0 == start + Terminated(first)
      ensures http == start + Terminated(first + PrintedHeaders(config.headers, keys))
    {
      http := http0;
      ghost var lines := first;
      assert first == first + PrintedHeaders(config.headers, keys[..0]);
      hide Terminated;
      for i := 0 to |keys|
        invariant lines == first + PrintedHeaders(config.headers, keys[..i])
        invariant http == start + Terminated(lines)
      {
        var k, v := keys[i], config.headers[keys[i]];
        assert keys[..i + 1][..i] == keys[..i];
        TerminatedPush(lines, HeaderLine(k, v));
        lines := lines + [HeaderLine(k, v)];
        http := http + (k + ": " + v + CRLF);
      }
      assert keys[..|keys|] == keys;
    }

    /** get_http_head. */
    method GetHttpHead(order: HashOrder) returns (http: string)
      requires IsHashOrder(order)
      ensures http == HeadText(config.verb, url, config.headers, order(config.headers))
    {
      hide Terminated, NotLength, HeaderLine, RequestLine, PrintedHeaders;
      var keys := order(config.headers);
      http := RequestLineAndHost();
      ghost var start, host := RequestLine(config.verb, url) + CRLF, HeaderLine("Host", HostValue(url));
      OneLine(host);
      http := PushHeaders(http, keys, start, [host]);
      ghost var lines := [host] + PrintedHeaders(config.headers, keys);
      if DefinesBody(config.verb) {
        if forall k | k in config.headers :: NotLength(k) {
          TerminatedPush(lines, ZERO_LENGTH);
          lines := lines + [ZERO_LENGTH];
          http := http + (ZERO_LENGTH + CRLF);
        }
      }
      assert lines == HeaderLines(config.verb, url, config.headers, keys);
      http := http + CRLF;
    }

    function Snapshot(): Chase
      reads this, config
    {
      Chase(url, redirects, config.verb, config.maxRedirects)
    }

    /** redirect_to. */
    method RedirectTo(location: string, urlencoding: bool) returns (r: Result<(), Error>)
      modifies `url, `redirects
      ensures (r, Snapshot()) == Redirected(old(Snapshot()), location, urlencoding)
    {
      hide ParseUrl, Find, BaseUrl;
      var parsed;
      if Find(location, PROTOCOL_MARK).Some? {
        parsed := Parse(location, Some(url), urlencoding);
      } else {
        var absolute := new UrlText();
        absolute.WriteBaseUrl(url);
        assert absolute.text == BaseUrl(url);
        parsed := Parse(absolute.text + location, Some(url), urlencoding);
      }
      if parsed.Err? {
        return Err(parsed.error);
      }
      var previous := url;
      url := parsed.value;
      redirects := redirects + [previous];

      if |redirects| > config.maxRedirects {
        return Err(TooManyRedirections);
      }
      for i := 0 to |redirects|
        invariant url !in redirects[..i]
      {
        if redirects[i] == url {
          return Err(InfiniteRedirectionLoop);
        }
      }
      assert redirects[..|redirects|] == redirects;
      r := Ok(());
    }

    /** as_bytes. */
    method AsBytes(order: HashOrder) returns (bytes: seq<Byte>)
      requires IsHashOrder(order)
      ensures bytes == RequestBytes(config.verb, url, config.headers, config.body, order(config.headers))
    {
      var head := GetHttpHead(order);
      bytes := Encode(head);
      if config.body.Some? {
        bytes := bytes + config.body.value;
      }
    }
  }

  /** What is printed of a request: its head, then its body. */
  function RequestBytes(verb: Method, u: HttpUrl, headers: HeaderMap, body: Option<seq<Byte>>,
      order: seq<string>): seq<Byte>
    requires forall k | k in order :: k in headers
  {
    Encode(HeadText(verb, u, headers, order)) + if body.Some? then body.value else []
  }

  /** ParsedRequest::new; proxies from the environment are not part of this model. */
  method NewParsedRequest(config: Request, urlencoding: bool) returns (r: Result<ParsedRequest, Error>)
    ensures match ParseUrl(config.url, None, urlencoding)
            case Err(e) => r == Err(e)
            case Ok(u) => r.Ok? && fresh(r.value) && r.value.config == config && r.value.redirects == []
                          && r.value.url == WithParams(u, config.params)
  {
    var parsed := Parse(config.url, None, urlencoding);
    if parsed.Err? {
      return Err(parsed.error);
    }
    var url := parsed.value;
    if config.params != "" {
      if '?' in url.pathAndQuery {
        url := url.(pathAndQuery := url.pathAndQuery + ['&']);
      } else {
        url := url.(pathAndQuery := url.pathAndQuery + ['?']);
      }
      url := url.(pathAndQuery := url.pathAndQuery + config.params);
    }
    var request := new ParsedRequest(url, config);
    r := Ok(request);
  }
}
