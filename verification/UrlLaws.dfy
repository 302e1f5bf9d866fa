/** What parsing and printing of URLs have to do with each other. */
module UrlLaws {
  import opened Wrappers
  import opened Scan
  import opened Text
  import opened Percent
  import opened HttpUrl

  ghost predicate Free(s: string, stops: set<char>) {
    forall c | c in s :: c !in stops
  }

  predicate StartsPath(s: string) {
    s != "" && (s[0] == '/' || s[0] == '?')
  }

  /** The URLs that parsing yields and printing is faithful for. */
  ghost predicate WellFormed(u: HttpUrl) {
    && Free(u.host, {'/', '?', ':'})
    && StartsPath(u.pathAndQuery) && '#' !in u.pathAndQuery
    && (if u.port.Explicit? then u.port.port <= U16_MAX else u.port == ImplicitPort(u.https))
  }

  // ---------- Parsing yields well-formed URLs ----------

  ghost predicate PartsFit(p: Parts) {
    && Free(p.host, {'/', '?', ':'}) && '#' !in p.path
    && (p.path == "" || StartsPath(p.path))
    && (p.status == InFragment ==> p.path != "")
  }

  lemma ResourceFits(host: string, port: string, resource: string)
    requires Free(host, {'/', '?', ':'}) && StartsPath(resource)
    ensures PartsFit(WithResource(host, port, resource))
  {
    CutIsFirst(resource, {'#'});
    var h := Cut(resource, {'#'});
    assert h > 0;
    assert resource[..|resource|] == resource;
  }

  lemma PartsAlwaysFit(rest: string)
    ensures PartsFit(PartsOf(rest))
  {
    hide Cut, WithResource;
    var i := Cut(rest, {'/', '?', ':'});
    CutIsFirst(rest, {'/', '?', ':'});
    if i == |rest| {
      assert rest[..i] == rest;
    } else if rest[i] == ':' {
      var after := rest[i + 1..];
      var j := Cut(after, {'/', '?'});
      if j < |after| {
        ResourceFits(rest[..i], after[..j], after[j..]);
      }
    } else {
      ResourceFits(rest[..i], "", rest[i..]);
    }
  }

  lemma EncodedStartsPath(s: string, urlencoding: bool)
    requires StartsPath(s) && '#' !in s
    ensures StartsPath(Encoded(urlencoding, s)) && '#' !in Encoded(urlencoding, s)
  {
    EncodedAlphabet(s);
    assert PercentEncode(s) == EncodeOne(s[0]) + PercentEncode(s[1..]);
  }

  /** Every URL that parse yields is well formed, with and without percent-encoding. */
  lemma ParsedIsWellFormed(url: string, from: Option<HttpUrl>, urlencoding: bool)
    requires ParseUrl(url, from, urlencoding).Ok?
    ensures WellFormed(ParseUrl(url, from, urlencoding).value)
  {
    var rest := if HTTP <= url then url[|HTTP|..] else url[|HTTPS|..];
    PartsAlwaysFit(rest);
    if PartsOf(rest).path != "" {
      EncodedStartsPath(PartsOf(rest).path, urlencoding);
    }
    hide PartsOf, Encoded;
  }

  // ---------- What is written and what is parsed ----------

  /** Two protocols, told apart by the text, and an error for every other. */
  lemma ProtocolsIff(url: string, from: Option<HttpUrl>, urlencoding: bool)
    ensures ParseUrl(url, from, urlencoding).Ok? <==> "http://" <= url || "https://" <= url
    ensures "http://" <= url ==> !ParseUrl(url, from, urlencoding).value.https
    ensures "https://" <= url ==> ParseUrl(url, from, urlencoding).value.https
    ensures ParseUrl(url, from, urlencoding).Err? ==>
              ParseUrl(url, from, urlencoding) == Err(IoError(InvalidProtocol))
  {
    hide PartsOf, Encoded, PortOf;
    if "https://" <= url {
      assert url[4] == 's' && "http://"[4] == ':';
    }
  }

  // ---------- Printing, then parsing ----------

  lemma ResourceParts(host: string, port: string, path: string, fragment: Option<string>)
    requires '#' !in path
    ensures WithResource(host, port, path + if fragment.Some? then "#" + fragment.value else "") ==
            Parts(if fragment.Some? then InFragment else InPathAndQuery, host, port, path,
                  if fragment.Some? then fragment.value else "")
  {
    var tail := if fragment.Some? then "#" + fragment.value else "";
    CutIs(path, tail, {'#'});
    if fragment.Some? {
      assert (path + tail)[|path|..][1..] == fragment.value;
      assert (path + tail)[..|path|] == path && (path + tail)[|path| + 1..] == fragment.value;
    } else {
      assert path + tail == path;
    }
  }

  /** The cuts of host, port and a resource put together. */
  lemma ComposedParts(host: string, port: Option<string>, resource: string)
    requires Free(host, {'/', '?', ':'}) && (port.Some? ==> Free(port.value, {'/', '?'})) && StartsPath(resource)
    ensures PartsOf(host + (if port.Some? then ":" + port.value else "") + resource) ==
            WithResource(host, if port.Some? then port.value else "", resource)
  {
    hide Cut, WithResource;
    if port.Some? {
      var after := port.value + resource;
      var rest := host + (":" + port.value) + resource;
      assert rest == host + (":" + after);
      CutIs(host, ":" + after, {'/', '?', ':'});
      assert rest[..|host|] == host && rest[|host| + 1..] == after;
      CutIs(port.value, resource, {'/', '?'});
      assert after[..|port.value|] == port.value && after[|port.value|..] == resource;
    } else {
      var rest := host + resource;
      assert host + "" + resource == rest;
      CutIs(host, resource, {'/', '?', ':'});
      assert rest[..|host|] == host && rest[|host|..] == resource;
    }
  }

  function PortText(port: Port): Option<string> {
    if port.Explicit? then Some(Decimal(port.port)) else None
  }

  lemma PortTextIsFree(port: Port)
    ensures PortText(port).Some? ==> Free(PortText(port).value, {'/', '?'})
    ensures PortSuffix(port) == if PortText(port).Some? then ":" + PortText(port).value else ""
  {
    if port.Explicit? {
      DecimalValue(port.port);
    }
  }

  lemma PortTextParses(https: bool, port: Port)
    requires if port.Explicit? then port.port <= U16_MAX else port == ImplicitPort(https)
    ensures PortOf(https, if PortText(port).Some? then PortText(port).value else "") == port
  {
    if port.Explicit? {
      ParseDecimal(port.port, U16_MAX);
    }
  }

  lemma StripProtocol(https: bool, rest: string)
    ensures var url := (if https then HTTPS else HTTP) + rest;
            if https then !(HTTP <= url) && HTTPS <= url && url[|HTTPS|..] == rest
            else HTTP <= url && url[|HTTP|..] == rest
  {
    if https {
      assert (HTTPS + rest)[4] == 's' && HTTP[4] == ':';
    }
  }

  /** Base and resource of a well-formed origin, read back by the machine. */
  lemma ParseComposed(u: HttpUrl, path: string, fragment: Option<string>, from: Option<HttpUrl>, urlencoding: bool)
    requires WellFormed(u) && StartsPath(path) && '#' !in path
    ensures ParseUrl(BaseUrl(u) + (path + if fragment.Some? then "#" + fragment.value else ""), from, urlencoding) ==
            Ok(HttpUrl(u.https, u.host, u.port, Encoded(urlencoding, path),
                       if fragment.Some? then Some(Encoded(urlencoding, fragment.value)) else InheritedFragment(from)))
  {
    var resource := path + if fragment.Some? then "#" + fragment.value else "";
    var rest := u.host + PortSuffix(u.port) + resource;
    assert BaseUrl(u) + resource == (if u.https then HTTPS else HTTP) + rest;
    StripProtocol(u.https, rest);
    PortTextIsFree(u.port);
    ComposedParts(u.host, PortText(u.port), resource);
    ResourceParts(u.host, if PortText(u.port).Some? then PortText(u.port).value else "", path, fragment);
    PortTextParses(u.https, u.port);
    hide PartsOf, WithResource, Encoded, PortOf, PortText;
  }

  /**
   The round trip: with urlencoding off, parsing the printed form of any well-formed URL gives that URL,
   explicit and implicit ports and empty and missing fragments kept apart.
   */
  lemma PrintParse(u: HttpUrl, from: Option<HttpUrl>)
    requires WellFormed(u)
    ensures ParseUrl(PrintUrl(u), from, false) ==
            Ok(u.(fragment := if u.fragment.Some? then u.fragment else InheritedFragment(from)))
  {
    ParseComposed(u, u.pathAndQuery, u.fragment, from, false);
  }

  /** Parse, print and parse again is parse. */
  lemma ParsePrintParse(url: string, from: Option<HttpUrl>, urlencoding: bool)
    requires ParseUrl(url, from, urlencoding).Ok?
    ensures ParseUrl(PrintUrl(ParseUrl(url, from, urlencoding).value), None, false) == ParseUrl(url, from, urlencoding)
  {
    ParsedIsWellFormed(url, from, urlencoding);
    PrintParse(ParseUrl(url, from, urlencoding).value, None);
    hide ParseUrl, PrintUrl;
  }

  /** With urlencoding on the round trip holds exactly for URLs that need no escape: a percent sign is escaped again. */
  lemma PrintParseEncodingIff(u: HttpUrl)
    requires WellFormed(u)
    ensures ParseUrl(PrintUrl(u), None, true) == Ok(u) <==>
            AllSafe(u.pathAndQuery) && (u.fragment.Some? ==> AllSafe(u.fragment.value))
  {
    ParseComposed(u, u.pathAndQuery, u.fragment, None, true);
    EncodeIsIdentityIff(u.pathAndQuery);
    if u.fragment.Some? {
      EncodeIsIdentityIff(u.fragment.value);
    }
    hide ParseUrl, PercentEncode, AllSafe;
  }

  /** Percent-encoding commutes with the machine: parse, then encode path and own fragment separately. */
  lemma EncodingCommutes(url: string, from: Option<HttpUrl>)
    ensures var plain := ParseUrl(url, None, false);
            if plain.Err? then ParseUrl(url, from, true) == plain
            else
              var own := plain.value.fragment;
              var fragment := if own.Some? then Some(PercentEncode(own.value)) else InheritedFragment(from);
              ParseUrl(url, from, true) ==
              Ok(plain.value.(pathAndQuery := PercentEncode(plain.value.pathAndQuery), fragment := fragment))
  {
    OneSafe('/', true);
    hide PartsOf, PercentEncode, PortOf;
  }

  // ---------- Where the path starts ----------

  /** A text from its first slash or question mark on. */
  ghost function ResourceText(text: string): string {
    text[Cut(text, {'/', '?'})..]
  }

  /** A part of the authority in front does not change it. */
  lemma ResourceBehind(clear: string, rest: string)
    requires Free(clear, {'/', '?'})
    ensures ResourceText(clear + rest) == ResourceText(rest)
  {
    hide Cut;
    CutIs(clear, [], {'/', '?'});
    assert clear + [] == clear;
    CutAppend(clear, rest, {'/', '?'});
    assert (clear + rest)[|clear| + Cut(rest, {'/', '?'})..] == rest[Cut(rest, {'/', '?'})..];
  }

  lemma ResourceTextOfPath(s: string)
    requires StartsPath(s)
    ensures ResourceText(s) == s
  {
    assert s[0..] == s;
  }

  lemma ResourceTextEmpty()
    ensures ResourceText("") == ""
  {
  }

  /** Port and resource behind a colon, told by the resource text. */
  lemma PortParts(host: string, rest: string)
    ensures var p, r := WithPort(host, rest), ResourceText(rest);
            if r == "" then p == Parts(InPort, host, rest, "", "")
            else StartsPath(r) && p == WithResource(p.host, p.port, r)
  {
    hide Cut, WithResource;
    var j := Cut(rest, {'/', '?'});
    ResourceKeepsHost(host, rest[..j], rest[j..]);
  }

  /** The parts of a text are those of its authority, with the resource text as resource. */
  lemma PartsOfResourceText(rest: string)
    ensures var p, r := PartsOf(rest), ResourceText(rest);
            if r == "" then (p.status == InHost || p.status == InPort) && p.path == ""
            else StartsPath(r) && p == WithResource(p.host, p.port, r)
  {
    var i := Cut(rest, {'/', '?', ':'});
    CutIsFirst(rest, {'/', '?', ':'});
    hide Cut, WithResource, WithPort, ResourceText;
    var host, tail := rest[..i], rest[i..];
    assert rest == host + tail && Free(host, {'/', '?'});
    ResourceBehind(host, tail);
    if i == |rest| {
      ResourceTextEmpty();
    } else if rest[i] == ':' {
      var after := rest[i + 1..];
      assert rest == (host + [':']) + after && Free(host + [':'], {'/', '?'});
      ResourceBehind(host + [':'], after);
      PortParts(host, after);
    } else {
      ResourceTextOfPath(tail);
      ResourceKeepsHost(host, "", tail);
    }
  }

  lemma ResourcePath(host: string, port: string, resource: string)
    requires StartsPath(resource)
    ensures WithResource(host, port, resource).path != "" && WithResource(host, port, resource).path[0] == resource[0]
  {
  }

  lemma EncodedStartsWith(s: string, urlencoding: bool)
    requires StartsPath(s)
    ensures Encoded(urlencoding, s) != "" && Encoded(urlencoding, s)[..1] == [s[0]]
  {
    assert PercentEncode(s) == EncodeOne(s[0]) + PercentEncode(s[1..]);
  }

  /**
   The documented correction of http://example.com?foo=bar to a path with a slash is not made: the path starts
   with a slash if and only if the first slash or question mark of the URL is a slash, or there is none.
   */
  lemma SlashPathIff(url: string, from: Option<HttpUrl>, urlencoding: bool)
    requires ParseUrl(url, from, urlencoding).Ok?
    ensures var resource := ResourceText(if HTTP <= url then url[|HTTP|..] else url[|HTTPS|..]);
            ParseUrl(url, from, urlencoding).value.pathAndQuery[..1] == "/" <==> resource == "" || resource[0] == '/'
  {
    hide WithResource, PartsOf, Encoded, PortOf, ResourceText;
    var rest := if HTTP <= url then url[|HTTP|..] else url[|HTTPS|..];
    PartsOfResourceText(rest);
    var p, resource := PartsOf(rest), ResourceText(rest);
    if resource != "" {
      ResourcePath(p.host, p.port, resource);
      EncodedStartsWith(p.path, urlencoding);
    }
  }

  /** So a query right behind the host stays the whole path. */
  lemma QueryWithoutSlash(host: string, query: string)
    requires Free(host, {'/', '?', ':'}) && '#' !in query
    ensures ParseUrl(HTTP + host + ("?" + query), None, false) ==
            Ok(HttpUrl(false, host, ImplicitHttp, "?" + query, None))
    ensures ParseUrl("http://example.com?foo=bar", None, false) ==
            Ok(HttpUrl(false, "example.com", ImplicitHttp, "?foo=bar", None))
  {
    hide ParseUrl;
    QueryBehindHost(host, query);
    QueryBehindHost("example.com", "foo=bar");
    assert HTTP + "example.com" + ("?" + "foo=bar") == "http://example.com?foo=bar";
    assert "?" + "foo=bar" == "?foo=bar";
  }

  lemma QueryBehindHost(host: string, query: string)
    requires Free(host, {'/', '?', ':'}) && '#' !in query
    ensures ParseUrl(HTTP + host + ("?" + query), None, false) ==
            Ok(HttpUrl(false, host, ImplicitHttp, "?" + query, None))
  {
    hide ParseUrl;
    var u := HttpUrl(false, host, ImplicitHttp, "/", None);
    ParseComposed(u, "?" + query, None, None, false);
    assert BaseUrl(u) == HTTP + host;
    assert "?" + query + "" == "?" + query;
  }

  // ---------- Relative locations ----------

  ghost predicate SameOrigin(u: HttpUrl, v: HttpUrl) {
    u.https == v.https && u.host == v.host && u.port == v.port
  }

  /** Where a relative location leads from u. */
  function Follow(u: HttpUrl, location: string, urlencoding: bool): Result<HttpUrl, Error> {
    ParseUrl(BaseUrl(u) + location, Some(u), urlencoding)
  }

  /** What the location has in front of its first slash or question mark: it runs into host or port. */
  function Intrusion(location: string): string {
    location[..Cut(location, {'/', '?'})]
  }

  /**
   What a caller can check beforehand: nothing in front of the path; or zeros behind port zero; or, without an
   explicit port, a colon and a text that is no port.
   */
  predicate StaysAtOrigin(u: HttpUrl, location: string) {
    var x := Intrusion(location);
    x == "" ||
    (if u.port.Explicit? then u.port.port == 0 && forall c | c in x :: c == '0'
     else x[0] == ':' && ParseUnsigned(x[1..], 10, U16_MAX).None?)
  }

  /** The usual case: scheme, host and port variant stay, the path is the location up to its first hash. */
  lemma FollowPath(u: HttpUrl, location: string, urlencoding: bool)
    requires WellFormed(u) && StartsPath(location)
    ensures var h := Cut(location, {'#'});
            Follow(u, location, urlencoding) ==
            Ok(HttpUrl(u.https, u.host, u.port, Encoded(urlencoding, location[..h]),
                       if h < |location| then Some(Encoded(urlencoding, location[h + 1..])) else u.fragment))
  {
    hide Cut, ParseUrl, BaseUrl, Encoded;
    var h := Cut(location, {'#'});
    CutIsFirst(location, {'#'});
    var fragment := if h < |location| then Some(location[h + 1..]) else None;
    assert location == location[..h] + if fragment.Some? then "#" + fragment.value else "";
    assert location[0] !in {'#'};
    assert location[..h][0] == location[0];
    ParseComposed(u, location[..h], fragment, Some(u), urlencoding);
  }

  /** Host and port text of the parts, whatever the resource. */
  lemma ResourceKeepsHost(host: string, port: string, resource: string)
    ensures WithResource(host, port, resource).host == host && WithResource(host, port, resource).port == port
  {
  }

  lemma WithPortText(host: string, rest: string)
    ensures WithPort(host, rest).host == host && WithPort(host, rest).port == rest[..Cut(rest, {'/', '?'})]
  {
    hide Cut;
    if Cut(rest, {'/', '?'}) == |rest| {
      assert rest[..|rest|] == rest;
    }
  }

  lemma IntrudedPort(host: string, digits: string, location: string)
    requires Free(host, {'/', '?', ':'}) && Free(digits, {'/', '?'})
    ensures var p := PartsOf(host + (":" + digits) + location);
            p.host == host && p.port == digits + Intrusion(location)
  {
    hide Cut, WithPort;
    var after := digits + location;
    var rest := host + (":" + digits) + location;
    assert rest == host + (":" + after);
    CutIs(host, ":" + after, {'/', '?', ':'});
    assert rest[..|host|] == host && rest[|host| + 1..] == after;
    CutIs(digits, "", {'/', '?'});
    assert digits + "" == digits;
    CutAppend(digits, location, {'/', '?'});
    WithPortText(host, after);
    assert after[..|digits| + Cut(location, {'/', '?'})] == digits + Intrusion(location);
  }

  lemma PortKeptIff(https: bool, p: nat, x: string)
    requires p <= U16_MAX
    ensures PortOf(https, Decimal(p) + x) == Explicit(p) <==> x == "" || (p == 0 && forall c | c in x :: c == '0')
  {
    var digits := Decimal(p);
    DecimalValue(p);
    ParseDecimal(p, U16_MAX);
    if x == "" {
      assert digits + x == digits;
    } else {
      assert digits[0] in digits && WithoutPlus(digits + x) == digits + x;
      if AllDigits(digits + x, 10) {
        DigitsKeepValue(digits, x);
      } else {
        var c :| c in digits + x && Digit(c, 10).None?;
        assert c in x && c != '0';
      }
    }
  }

  lemma IntrudedHost(host: string, location: string)
    requires Free(host, {'/', '?', ':'})
    ensures var p, x := PartsOf(host + location), Intrusion(location);
            && (x == "" ==> p.host == host && p.port == "")
            && (x != "" && x[0] == ':' ==> p.host == host && p.port == x[1..])
            && (x != "" && x[0] != ':' ==> p.host != host)
  {
    hide WithPort, WithResource;
    var rest, stops := host + location, {'/', '?', ':'};
    CutIs(host, "", stops);
    assert host + "" == host;
    CutAppend(host, location, stops);
    var k := Cut(location, stops);
    assert rest[..|host| + k] == host + location[..k];
    if location == "" {
      assert rest == host;
    } else if location[0] == ':' {
      assert rest[|host| + 1..] == location[1..];
      WithPortText(host, location[1..]);
      assert Intrusion(location) == [':'] + location[1..][..Cut(location[1..], {'/', '?'})];
    } else if location[0] in stops {
      assert rest[|host|..] == location;
      ResourceKeepsHost(host, "", location);
    } else {
      assert k > 0;
      HostOf(rest);
      assert |host + location[..k]| > |host|;
    }
  }

  lemma HostOf(rest: string)
    ensures PartsOf(rest).host == rest[..Cut(rest, {'/', '?', ':'})]
  {
    var i := Cut(rest, {'/', '?', ':'});
    if i == |rest| {
      assert rest[..i] == rest;
    } else if rest[i] == ':' {
      WithPortText(rest[..i], rest[i + 1..]);
    } else {
      ResourceKeepsHost(rest[..i], "", rest[i..]);
    }
  }

  /** A relative location keeps scheme, host and port exactly when it stays at the origin by that check. */
  lemma FollowKeepsOriginIff(u: HttpUrl, location: string, urlencoding: bool)
    requires WellFormed(u)
    ensures Follow(u, location, urlencoding).Ok?
    ensures SameOrigin(u, Follow(u, location, urlencoding).value) <==> StaysAtOrigin(u, location)
  {
    var rest := u.host + PortSuffix(u.port) + location;
    assert BaseUrl(u) + location == (if u.https then HTTPS else HTTP) + rest;
    StripProtocol(u.https, rest);
    var x := Intrusion(location);
    if u.port.Explicit? {
      PortTextIsFree(u.port);
      IntrudedPort(u.host, Decimal(u.port.port), location);
      PortKeptIff(u.https, u.port.port, x);
    } else {
      assert u.host + "" + location == u.host + location;
      IntrudedHost(u.host, location);
    }
    hide PartsOf, ParseUnsigned, Intrusion;
  }

  /** A relative name without a slash becomes part of the host, where the port is implicit. */
  lemma RelativeNameJoinsHost(u: HttpUrl, name: string, urlencoding: bool)
    requires WellFormed(u) && !u.port.Explicit? && Free(name, {'/', '?', ':'})
    ensures Follow(u, name, urlencoding) == Ok(HttpUrl(u.https, u.host + name, u.port, "/", u.fragment))
    ensures Follow(u, "page", urlencoding) == Ok(HttpUrl(u.https, u.host + "page", u.port, "/", u.fragment))
  {
    hide Follow, WellFormed;
    NameBehindHost(u, name, urlencoding);
    NameBehindHost(u, "page", urlencoding);
  }

  lemma NameBehindHost(u: HttpUrl, name: string, urlencoding: bool)
    requires WellFormed(u) && !u.port.Explicit? && Free(name, {'/', '?', ':'})
    ensures Follow(u, name, urlencoding) == Ok(HttpUrl(u.https, u.host + name, u.port, "/", u.fragment))
  {
    var host := u.host + name;
    assert BaseUrl(u) + name == (if u.https then HTTPS else HTTP) + host;
    StripProtocol(u.https, host);
    CutIs(host, [], {'/', '?', ':'});
    assert host + [] == host;
  }

  /** All parts of a written URL, letter by letter, are those that are parsed; the fragment is inherited if missing. */
  lemma WrittenUrlParses(https: bool, host: string, port: Option<nat>, path: string, fragment: Option<string>,
      from: Option<HttpUrl>)
    requires Free(host, {'/', '?', ':'}) && (port.Some? ==> port.value <= 65535)
    requires path != "" && path[0] in {'/', '?'} && '#' !in path
    ensures var base := (if https then "https://" else "http://") + host;
            var portText := if port.Some? then ":" + Decimal(port.value) else "";
            var hash := if fragment.Some? then "#" + fragment.value else "";
            ParseUrl(base + portText + (path + hash), from, false) ==
            Ok(HttpUrl(https, host,
                       if port.Some? then Explicit(port.value) else if https then ImplicitHttps else ImplicitHttp,
                       path,
                       if fragment.Some? then fragment else if from.Some? then from.value.fragment else None))
  {
    hide ParseUrl, Decimal;
    var implicit := if https then ImplicitHttps else ImplicitHttp;
    var u := HttpUrl(https, host, if port.Some? then Explicit(port.value) else implicit, path, None);
    ParseComposed(u, path, fragment, from, false);
    var base := (if https then "https://" else "http://") + host;
    assert BaseUrl(u) == base + if port.Some? then ":" + Decimal(port.value) else "";
  }

  /** A port text is a number up to 65535, or it does not count. */
  lemma PortTextIff(https: bool, host: string, text: string, path: string, n: nat)
    requires Free(host, {'/', '?', ':'}) && Free(text, {'/', '?'}) && path != "" && path[0] in {'/', '?'}
    ensures var url := (if https then "https://" else "http://") + (host + ":" + text + path);
            var port := ParseUrl(url, None, false).value.port;
            && ParseUrl(url, None, false).Ok?
            && (port == Explicit(n) <==> n <= 65535 && IsNumber(text, 10, n))
            && (port.Explicit? || port == if https then ImplicitHttps else ImplicitHttp)
  {
    hide PartsOf, Encoded, ParseUnsigned, IsNumber;
    var rest := host + ":" + text + path;
    StripProtocol(https, rest);
    assert host + (":" + text) + path == rest;
    ComposedParts(host, Some(text), path);
    ResourceKeepsHost(host, text, path);
    hide WithResource;
    ParseUnsignedIff(text, 10, 65535, n);
  }
}
