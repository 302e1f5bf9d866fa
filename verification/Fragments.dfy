/**
 Fragments over a hop (section 7.1.2 of RFC 7231). A fragment is what follows the first hash; the URL machine of
 src/http_url.rs looks for that hash only behind the first slash or question mark.
 */
module Fragments {
  import opened Wrappers
  import opened Scan
  import opened Percent
  import opened HttpUrl
  import opened UrlLaws
  import opened Request

  /** The fragment of a URL or of a Location: the text behind the first hash. */
  ghost function HashFragment(text: string): Option<string> {
    var g := Cut(text, {'#'});
    if g < |text| then Some(text[g + 1..]) else None
  }

  /** Where the machine looks: behind the first hash that follows the first slash or question mark. */
  ghost function MachineFragment(text: string): Option<string> {
    HashFragment(ResourceText(text))
  }

  /** No hash, or a slash or question mark in front of it. */
  predicate HashBehindPath(text: string) {
    '#' !in text || Cut(text, {'/', '?'}) < Cut(text, {'#'})
  }

  lemma CutPresent(text: string, c: char)
    ensures c in text <==> Cut(text, {c}) < |text|
  {
    CutIsFirst(text, {c});
    assert text[..|text|] == text;
  }

  /** Behind i characters without a hash the cut moves by i. */
  lemma CutFrom(text: string, i: nat)
    requires i <= Cut(text, {'#'})
    ensures Cut(text[i..], {'#'}) == Cut(text, {'#'}) - i
  {
    hide Cut;
    CutIsFirst(text, {'#'});
    var g := Cut(text, {'#'});
    assert text[i..] == text[i..g] + text[g..];
    assert forall x | x in text[i..g] :: x in text[..g];
    CutIs(text[i..g], text[g..], {'#'});
  }

  /** The machine finds the fragment exactly when no hash comes before the path. */
  lemma MachineFindsFragmentIff(text: string)
    ensures MachineFragment(text) == HashFragment(text) <==> HashBehindPath(text)
  {
    hide Cut;
    var i, g := Cut(text, {'/', '?'}), Cut(text, {'#'});
    CutPresent(text, '#');
    if i <= g {
      CutFrom(text, i);
      if g < |text| {
        assert text[i..][g - i + 1..] == text[g + 1..];
        assert i != g;
      }
    } else {
      assert |text[g + 1..]| > |text[i..]| - 1;
    }
  }

  /** A shorter text has a different encoding. */
  lemma EncodedApart(a: string, b: string, urlencoding: bool)
    requires a != b
    ensures Encoded(urlencoding, a) != Encoded(urlencoding, b)
  {
    if urlencoding && PercentEncode(a) == PercentEncode(b) {
      EncodingIsInjective(a, b);
    }
  }

  function EncodedFragment(fragment: Option<string>, urlencoding: bool): Option<string> {
    if fragment.Some? then Some(Encoded(urlencoding, fragment.value)) else None
  }

  /** The fragment a URL gets from a text: its own, or else the one inherited. */
  function OwnOr(own: Option<string>, inherited: Option<string>): Option<string> {
    if own.Some? then own else inherited
  }

  // ---------- What parsing makes of it ----------

  lemma ResourceFragment(host: string, port: string, resource: string)
    ensures var p := WithResource(host, port, resource);
            HashFragment(resource) == if p.status == InFragment then Some(p.fragment) else None
  {
  }

  lemma PartsFragment(rest: string)
    ensures MachineFragment(rest) == if PartsOf(rest).status == InFragment then Some(PartsOf(rest).fragment) else None
  {
    hide Cut, WithResource, ResourceText, PartsOf;
    PartsOfResourceText(rest);
    var p, resource := PartsOf(rest), ResourceText(rest);
    if resource == "" {
      CutPresent(resource, '#');
    } else {
      ResourceFragment(p.host, p.port, resource);
    }
  }

  /** The fragment that parsing a text behind a protocol yields. */
  lemma UrlFragment(https: bool, rest: string, from: Option<HttpUrl>, urlencoding: bool)
    ensures UrlOf(https, PartsOf(rest), from, urlencoding).fragment ==
            OwnOr(EncodedFragment(MachineFragment(rest), urlencoding), InheritedFragment(from))
  {
    hide PartsOf, MachineFragment, Encoded;
    PartsFragment(rest);
  }

  /** A URL or Location without its protocol, if it has one. */
  function WithoutProtocol(location: string): string {
    if HTTP <= location then location[|HTTP|..]
    else if HTTPS <= location then location[|HTTPS|..]
    else location
  }

  lemma ParsedFragment(url: string, from: Option<HttpUrl>, urlencoding: bool)
    requires HTTP <= url || HTTPS <= url
    ensures ParseUrl(url, from, urlencoding).Ok?
    ensures ParseUrl(url, from, urlencoding).value.fragment ==
            OwnOr(EncodedFragment(MachineFragment(WithoutProtocol(url)), urlencoding), InheritedFragment(from))
  {
    hide PartsOf, MachineFragment, Encoded, PortOf;
    UrlFragment(!(HTTP <= url), WithoutProtocol(url), from, urlencoding);
  }

  /** The protocol holds no hash: the fragment of the whole is that of the rest. */
  lemma ProtocolKeepsFragment(location: string)
    ensures HashFragment(WithoutProtocol(location)) == HashFragment(location)
  {
    hide Cut;
    var rest := WithoutProtocol(location);
    if rest != location {
      var protocol := location[..|location| - |rest|];
      assert location == protocol + rest;
      assert protocol == HTTP || protocol == HTTPS;
      CutIs(protocol, [], {'#'});
      assert protocol + [] == protocol;
      CutAppend(protocol, rest, {'#'});
      var g := Cut(rest, {'#'});
      assert g < |rest| ==> location[|protocol| + g + 1..] == rest[g + 1..];
    }
  }

  /** A parsed URL has the fragment of its text exactly when no hash comes before the path. */
  lemma ParsedFragmentIff(url: string, urlencoding: bool)
    requires HTTP <= url || HTTPS <= url
    ensures ParseUrl(url, None, urlencoding).Ok?
    ensures ParseUrl(url, None, urlencoding).value.fragment == EncodedFragment(HashFragment(url), urlencoding) <==>
            HashBehindPath(WithoutProtocol(url))
  {
    hide ParseUrl, MachineFragment, HashFragment, HashBehindPath, Encoded;
    ParsedFragment(url, None, urlencoding);
    ProtocolKeepsFragment(url);
    MachineFindsFragmentIff(WithoutProtocol(url));
    FragmentsApart(MachineFragment(WithoutProtocol(url)), HashFragment(url), urlencoding);
  }

  lemma FragmentsApart(a: Option<string>, b: Option<string>, urlencoding: bool)
    ensures EncodedFragment(a, urlencoding) == EncodedFragment(b, urlencoding) <==> a == b
  {
    hide Encoded;
    if a.Some? && b.Some? && a != b {
      EncodedApart(a.value, b.value, urlencoding);
    }
  }

  /** Where a hash comes before port and path, the host swallows it and what follows. */
  lemma HostHoldsHashIff(url: string, from: Option<HttpUrl>, urlencoding: bool)
    requires HTTP <= url || HTTPS <= url
    ensures var rest := WithoutProtocol(url);
            ParseUrl(url, from, urlencoding).Ok? &&
            ('#' in ParseUrl(url, from, urlencoding).value.host <==>
               '#' in rest && Cut(rest, {'#'}) < Cut(rest, {'/', '?', ':'}))
  {
    hide Cut, PartsOf, Encoded, PortOf;
    var rest := WithoutProtocol(url);
    HostOf(rest);
    CutPresent(rest, '#');
    CutIsFirst(rest, {'#'});
    var i, g := Cut(rest, {'/', '?', ':'}), Cut(rest, {'#'});
    if g < i {
      assert rest[..i][g] == '#';
    } else {
      assert forall x | x in rest[..i] :: x in rest[..g];
    }
  }

  // ---------- One hop ----------

  /** The fragment a Location carries. */
  ghost function LocationFragment(location: string, urlencoding: bool): Option<string> {
    EncodedFragment(HashFragment(location), urlencoding)
  }

  lemma ProtocolHasMark(location: string)
    requires HTTP <= location || HTTPS <= location
    ensures Find(location, PROTOCOL_MARK).Some?
  {
    var i := if HTTP <= location then 4 else 5;
    assert HTTP[4..7] == PROTOCOL_MARK && HTTPS[5..8] == PROTOCOL_MARK;
    assert location[i..i + 3] == PROTOCOL_MARK;
    assert OccursAt(location, PROTOCOL_MARK, i);
  }

  lemma BaseIsFree(u: HttpUrl)
    requires WellFormed(u)
    ensures Free(u.host + PortSuffix(u.port), {'/', '?'})
  {
    PortTextIsFree(u.port);
  }

  /** The base of a URL holds no slash or question mark: the machine looks in the location. */
  lemma RelativeFragment(u: HttpUrl, location: string, urlencoding: bool)
    requires WellFormed(u)
    ensures Follow(u, location, urlencoding).Ok?
    ensures Follow(u, location, urlencoding).value.fragment ==
            OwnOr(EncodedFragment(MachineFragment(location), urlencoding), u.fragment)
  {
    var base := u.host + PortSuffix(u.port);
    assert BaseUrl(u) + location == (if u.https then HTTPS else HTTP) + (base + location);
    BaseIsFree(u);
    hide PartsOf, Encoded, PortOf, PortSuffix, WellFormed, ResourceText, HashFragment;
    StripProtocol(u.https, base + location);
    UrlFragment(u.https, base + location, Some(u), urlencoding);
    ResourceBehind(base, location);
  }

  /** After one hop: well-formed again, with the fragment the machine finds in the Location, or the one before. */
  lemma TargetFragment(u: HttpUrl, location: string, urlencoding: bool)
    requires WellFormed(u) && Target(u, location, urlencoding).Ok?
    ensures var v := Target(u, location, urlencoding).value;
            && WellFormed(v)
            && v.fragment == OwnOr(EncodedFragment(MachineFragment(WithoutProtocol(location)), urlencoding), u.fragment)
  {
    hide Find, WellFormed, BaseUrl, MachineFragment, PartsOf, UrlOf;
    if Find(location, PROTOCOL_MARK).Some? {
      ParsedIsWellFormed(location, Some(u), urlencoding);
      ParsedFragment(location, Some(u), urlencoding);
    } else {
      hide ParseUrl;
      ParsedIsWellFormed(BaseUrl(u) + location, Some(u), urlencoding);
      RelativeFragment(u, location, urlencoding);
      if HTTP <= location || HTTPS <= location {
        ProtocolHasMark(location);
      }
    }
  }

  /** The target does not depend on the fragment before, but for inheriting it. */
  lemma TargetOfFragment(u: HttpUrl, fragment: Option<string>, location: string, urlencoding: bool)
    ensures WellFormed(u.(fragment := fragment)) == WellFormed(u)
    ensures Target(u.(fragment := fragment), location, urlencoding).Ok? == Target(u, location, urlencoding).Ok?
  {
    hide PartsOf, Find, UrlOf;
    assert BaseUrl(u.(fragment := fragment)) == BaseUrl(u);
  }

  /** From a URL with this fragment the hop ends with the Location's fragment, or else with this one. */
  ghost predicate KeepsFragment(u: HttpUrl, fragment: Option<string>, location: string, urlencoding: bool) {
    var v := Target(u.(fragment := fragment), location, urlencoding);
    v.Ok? && v.value.fragment == OwnOr(LocationFragment(location, urlencoding), fragment)
  }

  /**
   A hop keeps fragments as section 7.1.2 of RFC 7231 has it, whatever the fragment before, if and only if the
   Location has no hash in front of its path.
   */
  lemma HopKeepsFragmentIff(u: HttpUrl, location: string, urlencoding: bool)
    requires WellFormed(u) && Target(u, location, urlencoding).Ok?
    ensures (forall fragment :: KeepsFragment(u, fragment, location, urlencoding)) <==>
            HashBehindPath(WithoutProtocol(location))
  {
    hide Target, WellFormed, MachineFragment, HashFragment, HashBehindPath, Encoded;
    var machine := MachineFragment(WithoutProtocol(location));
    forall fragment
      ensures KeepsFragment(u, fragment, location, urlencoding) <==>
              OwnOr(EncodedFragment(machine, urlencoding), fragment) ==
              OwnOr(LocationFragment(location, urlencoding), fragment)
    {
      TargetOfFragment(u, fragment, location, urlencoding);
      TargetFragment(u.(fragment := fragment), location, urlencoding);
    }
    ProtocolKeepsFragment(location);
    MachineFindsFragmentIff(WithoutProtocol(location));
    FragmentsApart(machine, HashFragment(location), urlencoding);
    hide KeepsFragment, EncodedFragment;
    if HashBehindPath(WithoutProtocol(location)) {
      assert machine == HashFragment(location);
    } else {
      OwnOrApart(EncodedFragment(machine, urlencoding), LocationFragment(location, urlencoding));
    }
  }

  /** Two different fragments can be told apart by what they leave of an inherited one. */
  lemma OwnOrApart(a: Option<string>, b: Option<string>)
    requires a != b
    ensures exists fragment :: OwnOr(a, fragment) != OwnOr(b, fragment)
  {
    assert OwnOr(a, None) != OwnOr(b, None);
  }

  /**
   The input that fails: behind a host without a path the hash and its fragment become part of the host requested,
   and the old fragment stays.
   */
  lemma FragmentWithoutPathIsLost(u: HttpUrl, host: string, fragment: string, urlencoding: bool)
    requires Free(host, {'/', '?', ':'}) && Free(fragment, {'/', '?', ':'})
    ensures Target(u, HTTP + (host + "#" + fragment), urlencoding) ==
            Ok(HttpUrl(false, host + "#" + fragment, ImplicitHttp, "/", u.fragment))
    ensures Target(u, "http://b#x", urlencoding) == Ok(HttpUrl(false, "b#x", ImplicitHttp, "/", u.fragment))
  {
    HashInHost(u, host + "#" + fragment, urlencoding);
    HashInHost(u, "b#x", urlencoding);
    assert "http://b#x" == HTTP + "b#x";
    hide Target;
  }

  lemma HashInHost(u: HttpUrl, host: string, urlencoding: bool)
    requires Free(host, {'/', '?', ':'})
    ensures Target(u, HTTP + host, urlencoding) == Ok(HttpUrl(false, host, ImplicitHttp, "/", u.fragment))
  {
    ProtocolHasMark(HTTP + host);
    StripProtocol(false, host);
    CutIs(host, [], {'/', '?', ':'});
    assert host + [] == host;
    hide Find;
  }
}
