/** The URL machine and printers of src/http_url.rs. */
module HttpUrl {
  import opened Wrappers
  import opened Scan
  import opened Text
  import opened Utf8
  import opened Percent

  datatype Port = ImplicitHttp | ImplicitHttps | Explicit(port: nat)

  datatype HttpUrl = HttpUrl(https: bool, host: string, port: Port, pathAndQuery: string, fragment: Option<string>)

  const HTTP := "http://"
  const HTTPS := "https://"

  // ---------- Where a URL is cut ----------

  /** UrlParseStatus. */
  datatype Status = InHost | InPort | InPathAndQuery | InFragment

  /** The text of a URL behind its protocol, cut into components; status tells the last one reached. */
  datatype Parts = Parts(status: Status, host: string, port: string, path: string, fragment: string)

  /** host, up to the first slash, question mark or colon; behind a colon the port. */
  function PartsOf(rest: string): Parts {
    var i := Cut(rest, {'/', '?', ':'});
    if i == |rest| then Parts(InHost, rest, "", "", "")
    else if rest[i] == ':' then WithPort(rest[..i], rest[i + 1..])
    else WithResource(rest[..i], "", rest[i..])
  }

  /** port, up to the first slash or question mark. */
  function WithPort(host: string, rest: string): Parts {
    var j := Cut(rest, {'/', '?'});
    if j == |rest| then Parts(InPort, host, rest, "", "") else WithResource(host, rest[..j], rest[j..])
  }

  /** path and query, up to the first hash; everything behind it is the fragment. */
  function WithResource(host: string, port: string, resource: string): Parts {
    var h := Cut(resource, {'#'});
    if h == |resource| then Parts(InPathAndQuery, host, port, resource, "")
    else Parts(InFragment, host, port, resource[..h], resource[h + 1..])
  }

  /** The cargo feature urlencoding. */
  function Encoded(urlencoding: bool, s: string): string {
    if urlencoding then PercentEncode(s) else s
  }

  function ImplicitPort(https: bool): Port {
    if https then ImplicitHttps else ImplicitHttp
  }

  function PortOf(https: bool, text: string): Port {
    var port := ParseUnsigned(text, 10, U16_MAX);
    if port.Some? then Explicit(port.value) else ImplicitPort(https)
  }

  function InheritedFragment(from: Option<HttpUrl>): Option<string> {
    if from.Some? then from.value.fragment else None
  }

  /** The URL its parts denote; a missing fragment is that of the URL redirected from. */
  function UrlOf(https: bool, parts: Parts, from: Option<HttpUrl>, urlencoding: bool): HttpUrl {
    HttpUrl(https, parts.host, PortOf(https, parts.port),
            if parts.path == "" then "/" else Encoded(urlencoding, parts.path),
            if parts.status == InFragment then Some(Encoded(urlencoding, parts.fragment)) else InheritedFragment(from))
  }

  /** HttpUrl::parse, by components instead of by characters. */
  function ParseUrl(url: string, from: Option<HttpUrl>, urlencoding: bool): Result<HttpUrl, Error> {
    if HTTP <= url then Ok(UrlOf(false, PartsOf(url[|HTTP|..]), from, urlencoding))
    else if HTTPS <= url then Ok(UrlOf(true, PartsOf(url[|HTTPS|..]), from, urlencoding))
    else Err(IoError(InvalidProtocol))
  }

  // ---------- The character machine ----------

  /** One step of the machine, without encoding. */
  function Step(p: Parts, c: char): Parts {
    match p.status
    case InHost =>
      if c == '/' || c == '?' then p.(status := InPathAndQuery, path := [c])
      else if c == ':' then p.(status := InPort)
      else p.(host := p.host + [c])
    case InPort =>
      if c == '/' || c == '?' then p.(status := InPathAndQuery, path := [c]) else p.(port := p.port + [c])
    case InPathAndQuery =>
      if c == '#' then p.(status := InFragment) else p.(path := p.path + [c])
    case InFragment => p.(fragment := p.fragment + [c])
  }

  lemma WithResourceAppend(host: string, port: string, resource: string, c: char)
    ensures WithResource(host, port, resource + [c]) == Step(WithResource(host, port, resource), c)
  {
    hide Cut;
    CutAppend(resource, [c], {'#'});
    CutOne(c, {'#'});
    var h := Cut(resource, {'#'});
    if h < |resource| {
      assert (resource + [c])[..h] == resource[..h] && (resource + [c])[h + 1..] == resource[h + 1..] + [c];
    } else if c == '#' {
      assert (resource + [c])[..h] == resource && (resource + [c])[h + 1..] == "";
    }
  }

  lemma OneCharResource(host: string, port: string, c: char)
    requires c == '/' || c == '?'
    ensures WithResource(host, port, [c]) == Parts(InPathAndQuery, host, port, [c], "")
  {
    CutOne(c, {'#'});
  }

  lemma WithPortAppend(host: string, rest: string, c: char)
    ensures WithPort(host, rest + [c]) == Step(WithPort(host, rest), c)
  {
    hide Cut, WithResource;
    CutAppend(rest, [c], {'/', '?'});
    CutOne(c, {'/', '?'});
    var j := Cut(rest, {'/', '?'});
    if j < |rest| {
      assert (rest + [c])[..j] == rest[..j] && (rest + [c])[j..] == rest[j..] + [c];
      WithResourceAppend(host, rest[..j], rest[j..], c);
    } else if c == '/' || c == '?' {
      assert (rest + [c])[..j] == rest && (rest + [c])[j..] == [c];
      OneCharResource(host, rest, c);
    }
  }

  lemma EmptyPort(host: string)
    ensures WithPort(host, "") == Parts(InPort, host, "", "", "")
  {
  }

  /** Cutting follows the machine character by character. */
  lemma PartsOfAppend(rest: string, c: char)
    ensures PartsOf(rest + [c]) == Step(PartsOf(rest), c)
  {
    hide Cut, WithPort, WithResource;
    var stops := {'/', '?', ':'};
    CutAppend(rest, [c], stops);
    CutOne(c, stops);
    var i := Cut(rest, stops);
    if i < |rest| {
      assert (rest + [c])[..i] == rest[..i] && (rest + [c])[i..] == rest[i..] + [c];
      if rest[i] == ':' {
        assert (rest + [c])[i + 1..] == rest[i + 1..] + [c];
        WithPortAppend(rest[..i], rest[i + 1..], c);
      } else {
        WithResourceAppend(rest[..i], "", rest[i..], c);
      }
    } else if c in stops {
      assert (rest + [c])[..i] == rest && (rest + [c])[i..] == [c] && (rest + [c])[i + 1..] == "";
      if c == ':' {
        EmptyPort(rest);
      } else {
        OneCharResource(rest, "", c);
      }
    }
  }

  /** The escape of a character that is not safe, byte by byte. */
  method PushEscaped(resource: string, c: char) returns (r: string)
    ensures r == resource + EscapeAll(EncodeChar(c))
  {
    hide EncodeChar, ToHexDigit;
    var bytes := EncodeChar(c);
    r := resource;
    for k := 0 to |bytes|
      invariant r + EscapeAll(bytes[k..]) == resource + EscapeAll(bytes)
    {
      var byte := bytes[k];
      var rem := byte % 16;
      assert bytes[k..][0] == byte && bytes[k..][1..] == bytes[k + 1..];
      ghost var before := r;
      r := r + ['%'];
      r := r + [ToHexDigit((byte - rem) / 16)];
      r := r + [ToHexDigit(rem)];
      assert r == before + Escape(byte);
    }
    assert bytes[|bytes|..] == [];
  }

  /** The arm for path, query and fragment characters. */
  method PushResource(resource: string, c: char, urlencoding: bool, ghost raw: string) returns (r: string)
    requires resource == Encoded(urlencoding, raw)
    ensures r == Encoded(urlencoding, raw + [c])
  {
    if !urlencoding || IsSafe(c) {
      r := resource + [c];
    } else {
      r := PushEscaped(resource, c);
    }
    PercentEncodePush(raw, c);
  }

  /** The local variables of HttpUrl::parse while it has read the parts p. */
  ghost predicate Tracks(status: Status, host: string, port: string, path: Option<string>, resource: string, p: Parts,
      urlencoding: bool)
  {
    && status == p.status && host == p.host && port == p.port
    && (if status == InFragment
        then path == Some(Encoded(urlencoding, p.path)) && resource == Encoded(urlencoding, p.fragment)
        else path == None && resource == Encoded(urlencoding, p.path) && p.fragment == "")
    && (status == InHost || status == InPort ==> p.path == "" && resource == "")
  }

  /** The character loop of HttpUrl::parse. */
  method ScanUrl(rest: string, urlencoding: bool)
    returns (host: string, port: string, path: Option<string>, resource: string)
    ensures Tracks(PartsOf(rest).status, host, port, path, resource, PartsOf(rest), urlencoding)
  {
    host, port, resource, path := "", "", "", None;
    var status := InHost;
    NoParts();
    EncodeNothing(urlencoding);
    hide PartsOf, Encoded;
    for k := 0 to |rest|
      invariant Tracks(status, host, port, path, resource, PartsOf(rest[..k]), urlencoding)
    {
      var c := rest[k];
      ghost var p := PartsOf(rest[..k]);
      PartsOfAppend(rest[..k], c);
      assert rest[..k + 1] == rest[..k] + [c];
      match status {
        case InHost =>
          if c == '/' || c == '?' {
            status := InPathAndQuery;
            OneSafe(c, urlencoding);
            resource := resource + [c];
          } else if c == ':' {
            status := InPort;
          } else {
            host := host + [c];
          }
        case InPort =>
          if c == '/' || c == '?' {
            status := InPathAndQuery;
            OneSafe(c, urlencoding);
            resource := resource + [c];
          } else {
            port := port + [c];
          }
        case InPathAndQuery =>
          if c == '#' {
            status := InFragment;
            path := Some(resource);
            resource := "";
          } else {
            resource := PushResource(resource, c, urlencoding, p.path);
          }
        case InFragment =>
          resource := PushResource(resource, c, urlencoding, p.fragment);
      }
    }
    assert rest[..|rest|] == rest;
  }

  /** HttpUrl::parse. */
  method Parse(url: string, redirectedFrom: Option<HttpUrl>, urlencoding: bool) returns (r: Result<HttpUrl, Error>)
    ensures r == ParseUrl(url, redirectedFrom, urlencoding)
  {
    hide PartsOf, Encoded, PortOf;
    var rest, https;
    if HTTP <= url {
      rest, https := url[|HTTP|..], false;
    } else if HTTPS <= url {
      rest, https := url[|HTTPS|..], true;
    } else {
      return Err(IoError(InvalidProtocol));
    }
    var host, port, path, resource := ScanUrl(rest, urlencoding);
    var pathAndQuery, fragment := resource, None;
    if path.Some? {
      pathAndQuery, fragment := path.value, Some(resource);
    }
    if fragment.None? && redirectedFrom.Some? && redirectedFrom.value.fragment.Some? {
      fragment := redirectedFrom.value.fragment;
    }
    EncodedEmptyIff(urlencoding, PartsOf(rest).path);
    if pathAndQuery == "" {
      pathAndQuery := "/";
    }
    r := Ok(HttpUrl(https, host, PortOf(https, port), pathAndQuery, fragment));
  }

  lemma NoParts()
    ensures PartsOf("") == Parts(InHost, "", "", "", "")
  {
  }

  lemma EncodeNothing(urlencoding: bool)
    ensures Encoded(urlencoding, "") == ""
  {
  }

  lemma OneSafe(c: char, urlencoding: bool)
    requires c == '/' || c == '?'
    ensures Encoded(urlencoding, [c]) == [c]
  {
    assert PercentEncode([c]) == EncodeOne(c) + PercentEncode("");
  }

  lemma EncodedEmptyIff(urlencoding: bool, s: string)
    ensures Encoded(urlencoding, s) == "" <==> s == ""
  {
    EncodedLength(s);
  }

  // ---------- Printers ----------

  function PortSuffix(port: Port): string {
    if port.Explicit? then ":" + Decimal(port.port) else ""
  }

  function BaseUrl(u: HttpUrl): string {
    (if u.https then HTTPS else HTTP) + (u.host + PortSuffix(u.port))
  }

  function Resource(u: HttpUrl): string {
    u.pathAndQuery + if u.fragment.Some? then "#" + u.fragment.value else ""
  }

  function PrintUrl(u: HttpUrl): string {
    BaseUrl(u) + Resource(u)
  }

  /** A fmt::Write destination. */
  class UrlText {
    var text: string

    constructor ()
      ensures text == ""
    {
      text := "";
    }

    /** write_base_url_to. */
    method WriteBaseUrl(u: HttpUrl)
      modifies this
      ensures text == old(text) + BaseUrl(u)
    {
      text := text + "http" + (if u.https then "s" else "") + "://" + u.host;
      assert text == old(text) + ((if u.https then HTTPS else HTTP) + u.host);
      if u.port.Explicit? {
        text := text + ":" + Decimal(u.port.port);
      }
    }

    /** write_resource_to. */
    method WriteResource(u: HttpUrl)
      modifies this
      ensures text == old(text) + Resource(u)
    {
      text := text + u.pathAndQuery + (if u.fragment.Some? then "#" else "")
                   + (if u.fragment.Some? then u.fragment.value else "");
    }
  }
}
