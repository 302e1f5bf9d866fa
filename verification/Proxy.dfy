/** Proxy strings (src/proxy.rs). */
module Proxy {
  import opened Wrappers
  import opened Scan
  import opened Text

  datatype Proxy = Proxy(server: string, port: nat, user: Option<string>, password: Option<string>)

  const DEFAULT_PORT: nat := 8080

  /** split_once: at the first occurrence of the pattern. */
  function SplitOnce(s: string, pattern: string): Option<(string, string)> {
    match Find(s, pattern)
    case Some(i) => Some((s[..i], s[i + |pattern|..]))
    case None => None
  }

  /** The last occurrence at or before an index. */
  function FindLast(s: string, pattern: string, from: nat): (r: Option<nat>)
    ensures r.Some? ==> r.value <= from && OccursAt(s, pattern, r.value)
    ensures r.Some? ==> forall j: nat | r.value < j <= from :: !OccursAt(s, pattern, j)
    ensures r.None? ==> forall j: nat | j <= from :: !OccursAt(s, pattern, j)
  {
    if OccursAt(s, pattern, from) then Some(from)
    else if from == 0 then None
    else FindLast(s, pattern, from - 1)
  }

  /** rsplit_once: at the last occurrence of the pattern. */
  function RSplitOnce(s: string, pattern: string): Option<(string, string)> {
    match FindLast(s, pattern, |s|)
    case Some(i) => Some((s[..i], s[i + |pattern|..]))
    case None => None
  }

  function ParseCreds(creds: string): (Option<string>, Option<string>) {
    match SplitOnce(creds, ":")
    case Some((user, pass)) => (Some(user), Some(pass))
    case None => (Some(creds), None)
  }

  function ParseAddress(host: string): Result<(string, Option<nat>), Error> {
    match SplitOnce(host, ":")
    case None => Ok((host, None))
    case Some((name, text)) =>
      var port := ParseUnsigned(text, 10, U32_MAX);
      if port.None? then Err(BadProxy) else Ok((name, port))
  }

  /** Proxy::new behind the protocol. */
  function ParseAuthority(authority: string): Result<Proxy, Error> {
    var split := RSplitOnce(authority, "@");
    var creds := if split.Some? then ParseCreds(split.value.0) else (None, None);
    var address := ParseAddress(if split.Some? then split.value.1 else authority);
    if address.Err? then Err(address.error)
    else
      var (server, port) := address.value;
      Ok(Proxy(server, if port.Some? then port.value else DEFAULT_PORT, creds.0, creds.1))
  }

  /** Proxy::new. */
  function NewProxy(proxy: string): Result<Proxy, Error> {
    match SplitOnce(proxy, "://")
    case Some((proto, auth)) => if proto != "http" then Err(BadProxy) else ParseAuthority(auth)
    case None => ParseAuthority(proxy)
  }

  // ---------- Splitting what was put together ----------

  lemma SplitOnceAt(a: string, c: char, b: string)
    requires c !in a
    ensures SplitOnce(a + [c] + b, [c]) == Some((a, b))
  {
    var s := a + [c] + b;
    assert OccursAt(s, [c], |a|);
    forall j: nat | j < |a| ensures !OccursAt(s, [c], j) {
      assert s[j] == a[j] && a[j] in a;
    }
    var i := Find(s, [c]).value;
    assert s[..|a|] == a && s[|a| + 1..] == b;
  }

  lemma RSplitOnceAt(a: string, c: char, b: string)
    requires c !in b
    ensures RSplitOnce(a + [c] + b, [c]) == Some((a, b))
  {
    var s := a + [c] + b;
    assert OccursAt(s, [c], |a|);
    forall j: nat | |a| < j <= |s| ensures !OccursAt(s, [c], j) {
      if j < |s| {
        assert s[j] == b[j - |a| - 1];
      }
    }
    assert s[..|a|] == a && s[|a| + 1..] == b;
  }

  /** The address part prints and parses back, for any port of the type. */
  lemma AddressParses(host: string, port: nat)
    requires ':' !in host && port <= U32_MAX
    ensures ParseAddress(host + ":" + Decimal(port)) == Ok((host, Some(port)))
  {
    hide ParseUnsigned;
    SplitOnceAt(host, ':', Decimal(port));
    ParseDecimal(port, U32_MAX);
  }

  function Authority(user: string, password: string, host: string, port: nat): string {
    user + ":" + password + "@" + (host + ":" + Decimal(port))
  }

  /** user is free of colons, host of colons and at signs; the password is arbitrary. */
  predicate Fits(user: string, host: string, port: nat) {
    ':' !in user && ':' !in host && '@' !in host && port <= U32_MAX
  }

  lemma AuthorityParses(user: string, password: string, host: string, port: nat)
    requires Fits(user, host, port)
    ensures ParseAuthority(Authority(user, password, host, port)) == Ok(Proxy(host, port, Some(user), Some(password)))
  {
    hide ParseAddress, SplitOnce, RSplitOnce;
    var address := host + ":" + Decimal(port);
    DecimalValue(port);
    assert '@' !in address;
    RSplitOnceAt(user + ":" + password, '@', address);
    SplitOnceAt(user, ':', password);
    AddressParses(host, port);
  }

  lemma ProtocolFirst(rest: string)
    ensures SplitOnce("http://" + rest, "://") == Some(("http", rest))
  {
    var s, mark := "http://" + rest, "://";
    assert s[4..7] == mark && OccursAt(s, mark, 4);
    forall j: nat | j < 4 ensures !OccursAt(s, mark, j) {
      assert s[j] != ':';
    }
    assert s[..4] == "http" && s[7..] == rest;
  }

  /** The round trip: all four parts come back, whatever the password contains. */
  lemma ProxyRoundTrip(user: string, password: string, host: string, port: nat)
    requires Fits(user, host, port)
    ensures NewProxy("http://" + Authority(user, password, host, port)) ==
            Ok(Proxy(host, port, Some(user), Some(password)))
  {
    hide ParseAuthority, SplitOnce, Authority;
    ProtocolFirst(Authority(user, password, host, port));
    AuthorityParses(user, password, host, port);
  }

  /** A parsed password is shorter than the credentials it was split from. */
  lemma ShorterPassword(creds: string)
    ensures ParseCreds(creds).1.Some? ==> |ParseCreds(creds).1.value| < |creds|
  {
  }

  /**
   The protocol may be left out, as documented, exactly when nothing in the string looks like a protocol mark:
   a password with one would otherwise be taken for the end of the protocol.
   */
  lemma BareProxyRoundTripIff(user: string, password: string, host: string, port: nat)
    requires Fits(user, host, port)
    ensures var bare := Authority(user, password, host, port);
            NewProxy(bare) == Ok(Proxy(host, port, Some(user), Some(password))) <==> Find(bare, "://").None?
  {
    var bare := Authority(user, password, host, port);
    AuthorityParses(user, password, host, port);
    if Find(bare, "://").Some? && bare[..Find(bare, "://").value] == "http" {
      MarkInPassword(user, password, host, port);
    }
    hide Authority, ParseAuthority, Find;
  }

  lemma MarkInPassword(user: string, password: string, host: string, port: nat)
    requires Fits(user, host, port)
    requires Find(Authority(user, password, host, port), "://") == Some(4)
    requires Authority(user, password, host, port)[..4] == "http"
    ensures ParseAuthority(Authority(user, password, host, port)[7..]) !=
            Ok(Proxy(host, port, Some(user), Some(password)))
  {
    var bare, address := Authority(user, password, host, port), host + ":" + Decimal(port);
    DecimalValue(port);
    assert '@' !in address;
    var mark := "://";
    assert bare[4..7] == mark && mark[0] == ':' && mark[1] == '/' && mark[2] == '/';
    assert bare[4] == ':' && bare[5] == '/' && bare[6] == '/';
    var proto := bare[..4];
    assert bare[0] == proto[0] != ':' && bare[1] == proto[1] != ':' && bare[2] == proto[2] != ':' &&
           bare[3] == proto[3] != ':';
    assert bare[|user|] == ':' && forall j | 0 <= j < |user| :: bare[j] == user[j] != ':';
    assert |user| == 4;
    assert bare[5..] == password + "@" + address;
    assert bare[5 + |password|] == '@';
    assert |password| >= 2;
    var inner := password[2..];
    assert bare[7..] == inner + "@" + address;
    RSplitOnceAt(inner, '@', address);
    ShorterPassword(inner);
    hide ParseCreds, ParseAddress, Authority, RSplitOnce;
  }

  // ---------- Parts left out ----------

  /** The optional parts as they are written (src/proxy.rs:44-48). */
  function Written(user: Option<string>, password: Option<string>, host: string, port: Option<nat>): string {
    (if user.Some? then user.value + (if password.Some? then ":" + password.value else "") + "@" else "") +
    (host + if port.Some? then ":" + Decimal(port.value) else "")
  }

  lemma AddressRead(host: string, port: Option<nat>)
    requires ':' !in host && (port.Some? ==> port.value <= 4294967295)
    ensures ParseAddress(host + if port.Some? then ":" + Decimal(port.value) else "") == Ok((host, port))
  {
    hide ParseUnsigned, Decimal, SplitOnce;
    if port.Some? {
      AddressParses(host, port.value);
      assert host + (":" + Decimal(port.value)) == host + ":" + Decimal(port.value);
    } else {
      NothingToSplit(host, ':');
      assert host + "" == host;
    }
  }

  lemma NothingToSplit(s: string, c: char)
    requires c !in s
    ensures SplitOnce(s, [c]) == None && RSplitOnce(s, [c]) == None
  {
    forall j: nat ensures !OccursAt(s, [c], j) {
      if j < |s| {
        assert s[j] in s;
      }
    }
  }

  lemma CredsRead(user: string, password: Option<string>)
    requires ':' !in user
    ensures ParseCreds(user + if password.Some? then ":" + password.value else "") == (Some(user), password)
  {
    hide SplitOnce;
    if password.Some? {
      SplitOnceAt(user, ':', password.value);
      assert user + (":" + password.value) == user + ":" + password.value;
    } else {
      NothingToSplit(user, ':');
      assert user + "" == user;
    }
  }

  lemma AuthorityRead(user: Option<string>, password: Option<string>, host: string, port: Option<nat>)
    requires ':' !in host && '@' !in host && (port.Some? ==> port.value <= 4294967295)
    requires (user.Some? ==> ':' !in user.value) && (user.None? ==> password.None?)
    ensures ParseAuthority(Written(user, password, host, port)) ==
            Ok(Proxy(host, if port.Some? then port.value else 8080, user, password))
  {
    hide ParseAddress, ParseCreds, SplitOnce, RSplitOnce, Decimal;
    var address := host + if port.Some? then ":" + Decimal(port.value) else "";
    AddressRead(host, port);
    if port.Some? {
      DecimalValue(port.value);
    }
    assert '@' !in address;
    if user.Some? {
      var creds := user.value + if password.Some? then ":" + password.value else "";
      CredsRead(user.value, password);
      RSplitOnceAt(creds, '@', address);
      assert Written(user, password, host, port) == creds + "@" + address;
    } else {
      NothingToSplit(address, '@');
      assert Written(user, password, host, port) == address;
    }
  }

  /**
   Every part but the host may be left out: behind the protocol the parts written come back, the port is 8080 by
   default, and there are no credentials without an at sign.
   */
  lemma OptionalPartsRead(user: Option<string>, password: Option<string>, host: string, port: Option<nat>)
    requires ':' !in host && '@' !in host && (port.Some? ==> port.value <= 4294967295)
    requires (user.Some? ==> ':' !in user.value) && (user.None? ==> password.None?)
    ensures var proxy := Ok(Proxy(host, if port.Some? then port.value else 8080, user, password));
            && NewProxy("http://" + Written(user, password, host, port)) == proxy
            && (Find(Written(user, password, host, port), "://").None? ==>
                  NewProxy(Written(user, password, host, port)) == proxy)
  {
    hide ParseAuthority, Written, Find;
    ProtocolFirst(Written(user, password, host, port));
    AuthorityRead(user, password, host, port);
  }

  /** Another protocol, or a port that is no number of 32 bits, is an error. */
  lemma BadProxies(protocol: string, rest: string, host: string, text: string)
    requires ':' !in protocol && protocol != "http" && ':' !in host && '@' !in host && '@' !in text
    requires forall n: nat :: !(n <= 4294967295 && IsNumber(text, 10, n))
    ensures NewProxy(protocol + "://" + rest) == Err(BadProxy)
    ensures NewProxy("http://" + (host + ":" + text)) == Err(BadProxy)
  {
    hide ParseUnsigned, IsNumber, Find, FindLast;
    OtherProtocol(protocol, rest);
    ProtocolFirst(host + ":" + text);
    NothingToSplit(host + ":" + text, '@');
    SplitOnceAt(host, ':', text);
    forall n: nat ensures ParseUnsigned(text, 10, 4294967295) != Some(n) {
      ParseUnsignedIff(text, 10, 4294967295, n);
    }
    hide SplitOnce, RSplitOnce;
  }

  lemma OtherProtocol(protocol: string, rest: string)
    requires ':' !in protocol
    ensures SplitOnce(protocol + "://" + rest, "://") == Some((protocol, rest))
  {
    var s, mark := protocol + "://" + rest, "://";
    assert s[|protocol|..|protocol| + 3] == mark && OccursAt(s, mark, |protocol|);
    forall j: nat | j < |protocol| ensures !OccursAt(s, mark, j) {
      assert s[j] == protocol[j] && protocol[j] in protocol && mark[0] == ':';
    }
    assert s[..|protocol|] == protocol && s[|protocol| + 3..] == rest;
  }
}
