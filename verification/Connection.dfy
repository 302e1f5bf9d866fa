/**
 Sending and following redirects (src/connection.rs). The network is an arbitrary sequence of transmissions, one
 per request sent.
 */
module Connection {
  import opened Wrappers
  import opened Utf8
  import opened Transport
  import opened Headers
  import opened Metadata
  import opened Delivery
  import opened ResponseLazy
  import opened HttpUrl
  import opened Request

  /** What a connection makes of a request: it fails, or the response stream behaves like this. */
  datatype Transmission = Refused(code: int) | Stream(events: seq<Event>)

  /** The answer read from it: a response head, or the error that connecting or read_metadata ends with. */
  datatype Answer = Reply(status: int, headers: HeaderMap) | Broken(error: Error)

  ghost function AnswerOf(t: Transmission, limits: Limits, order: HashOrder): Answer
    requires IsHashOrder(order)
  {
    match t
    case Refused(code) => Broken(IoError(IoKind.Transport(code)))
    case Stream(events) =>
      match ReadingOf(events, limits, order).metadata
      case Err(e) => Broken(e)
      case Ok(m) => Reply(m.status, m.head.headers)
  }

  /** The cargo features that matter here; punycode is off. */
  datatype Features = Features(urlencoding: bool, tls: bool)

  /** A request that went out. */
  datatype Sent = Sent(url: HttpUrl, verb: Method)

  /** The response reached, with the URL reported in it, and the request that led there. */
  datatype Arrival = Arrival(status: int, reportedUrl: string, at: Chase)

  datatype NextHop = Redirect(outcome: Result<(), Error>) | Destination

  predicate IsAscii(s: string) {
    forall c | c in s :: c as int < 128
  }

  predicate IsRedirect(status: int) {
    status == 301 || status == 302 || status == 303 || status == 307
  }

  function LocationOf(headers: HeaderMap): Option<string> {
    if "location" in headers then Some(headers["location"]) else None
  }

  /** See-other turns the methods with a body, and DELETE, into GET. */
  function VerbAfter(status: int, verb: Method): Method {
    if status == 303 && (verb.Post? || verb.Put? || verb.Delete?) then Get else verb
  }

  /** get_redirect. */
  function HopOf(c: Chase, status: int, location: Option<string>, urlencoding: bool): (NextHop, Chase) {
    if !IsRedirect(status) then (Destination, c)
    else if location.None? then (Redirect(Err(RedirectLocationMissing)), c)
    else
      var (r, next) := Redirected(c, location.value, urlencoding);
      if r.Err? then (Redirect(r), next) else (Redirect(Ok(())), next.(verb := VerbAfter(status, next.verb)))
  }

  /** A run: the requests sent, in order, and how it ends. */
  datatype Run = Run(log: seq<Sent>, outcome: Result<Arrival, Error>)

  /** send, with the answers from the i-th on. */
  function RunFrom(c: Chase, features: Features, answers: nat -> Answer, i: nat): Run
    requires |c.redirects| <= c.maxRedirects
    decreases c.maxRedirects - |c.redirects|, 1
  {
    if !IsAscii(c.url.host) then Run([], Err(PunycodeFeatureNotEnabled))
    else
      var sent := Sent(c.url, c.verb);
      match answers(i)
      case Broken(error) => Run([sent], Err(error))
      case Reply(status, headers) =>
        var rest := AfterReply(c, status, headers, features, answers, i + 1);
        Run([sent] + rest.log, rest.outcome)
  }

  /** handle_redirects, behind a response head that has just been read. */
  function AfterReply(c: Chase, status: int, headers: HeaderMap, features: Features, answers: nat -> Answer,
      i: nat): Run
    requires |c.redirects| <= c.maxRedirects
    decreases c.maxRedirects - |c.redirects|, 0
  {
    var (hop, next) := HopOf(c, status, LocationOf(headers), features.urlencoding);
    match hop
    case Destination => Run([], Ok(Arrival(status, PrintUrl(c.url), c)))
    case Redirect(Err(e)) => Run([], Err(e))
    case Redirect(Ok(_)) =>
      if next.url.https && !features.tls then Run([], Err(HttpsFeatureNotEnabled))
      else RunFrom(next, features, answers, i)
  }

  /** The first exchange of a run, and what comes behind it. */
  lemma FirstExchange(c: Chase, features: Features, answers: nat -> Answer, i: nat) returns (rest: Run)
    requires |c.redirects| <= c.maxRedirects
    ensures var run, sent := RunFrom(c, features, answers, i), Sent(c.url, c.verb);
            && (!IsAscii(c.url.host) ==> run == Run([], Err(PunycodeFeatureNotEnabled)))
            && (IsAscii(c.url.host) ==> run == Run([sent] + rest.log, rest.outcome))
            && (IsAscii(c.url.host) && answers(i).Broken? ==> rest == Run([], Err(answers(i).error)))
            && (IsAscii(c.url.host) && answers(i).Reply? ==>
                  rest == AfterReply(c, answers(i).status, answers(i).headers, features, answers, i + 1))
  {
    hide AfterReply, IsAscii;
    rest := match answers(i)
      case Broken(e) => Run([], Err(e))
      case Reply(status, headers) => AfterReply(c, status, headers, features, answers, i + 1);
  }

  /** What follows a reply, hop by hop. */
  lemma ReplyCases(c: Chase, status: int, headers: HeaderMap, features: Features, answers: nat -> Answer, i: nat)
    requires |c.redirects| <= c.maxRedirects
    ensures var (hop, next) := HopOf(c, status, LocationOf(headers), features.urlencoding);
            var run := AfterReply(c, status, headers, features, answers, i);
            match hop
            case Destination => next == c && run == Run([], Ok(Arrival(status, PrintUrl(c.url), c)))
            case Redirect(Err(e)) => run == Run([], Err(e))
            case Redirect(Ok(_)) =>
              && |c.redirects| < |next.redirects| <= next.maxRedirects == c.maxRedirects
              && run == if next.url.https && !features.tls then Run([], Err(HttpsFeatureNotEnabled))
                        else RunFrom(next, features, answers, i)
  {
    hide RunFrom, Target, PrintUrl;
  }

  class Network {
    const transmissions: nat -> Transmission
    const printing: nat -> HashOrder
    const orders: nat -> HashOrder
    var sent: seq<Sent>
    var written: seq<seq<Byte>>

    /** The iteration orders are those of the header maps printed and of the header maps read. */
    constructor (transmissions: nat -> Transmission, printing: nat -> HashOrder, orders: nat -> HashOrder)
      requires forall i: nat :: IsHashOrder(printing(i)) && IsHashOrder(orders(i))
      ensures this.transmissions == transmissions && this.printing == printing && this.orders == orders
      ensures sent == [] && written == [] && Valid()
    {
      this.transmissions, this.printing, this.orders := transmissions, printing, orders;
      sent, written := [], [];
    }

    ghost predicate Valid() {
      forall i: nat :: IsHashOrder(printing(i)) && IsHashOrder(orders(i))
    }

    /** The bytes of these requests, sent from the i-th on. */
    ghost function Printed(log: seq<Sent>, i: nat, headers: HeaderMap, body: Option<seq<Byte>>): seq<seq<Byte>>
      requires Valid()
    {
      seq(|log|, j requires 0 <= j < |log| =>
        RequestBytes(log[j].verb, log[j].url, headers, body, printing(i + j)(headers)))
    }

    lemma PrintedCons(first: Sent, log: seq<Sent>, i: nat, headers: HeaderMap, body: Option<seq<Byte>>)
      requires Valid()
      ensures Printed([first] + log, i, headers, body) ==
              [RequestBytes(first.verb, first.url, headers, body, printing(i)(headers))] +
              Printed(log, i + 1, headers, body)
      ensures Printed([], i, headers, body) == [] && Printed([], i + 1, headers, body) == []
    {
      hide RequestBytes;
    }

    ghost function Answers(limits: Limits): nat -> Answer
      requires Valid()
    {
      (i: nat) => AnswerOf(transmissions(i), limits, orders(i))
    }

    /** Connects and writes the bytes of a request. */
    method Exchange(request: Sent, bytes: seq<Byte>) returns (r: Result<ByteStream, Error>)
      modifies `sent, `written
      ensures sent == old(sent) + [request] && written == old(written) + [bytes]
      ensures match transmissions(|old(sent)|)
              case Refused(code) => r == Err(IoError(IoKind.Transport(code)))
              case Stream(events) => r.Ok? && fresh(r.value) && r.value.events == events
    {
      var t := transmissions(|sent|);
      sent, written := sent + [request], written + [bytes];
      match t {
        case Refused(code) =>
          r := Err(IoError(IoKind.Transport(code)));
        case Stream(events) =>
          var stream := new ByteStream(events);
          r := Ok(stream);
      }
    }
  }

  /** A lazy response as from_stream leaves it behind the head of a transmission. */
  ghost predicate HeadRead(response: ResponseLazy, t: Transmission, limits: Limits, order: HashOrder)
    requires IsHashOrder(order)
    reads response, response.stream
  {
    t.Stream? &&
    var reading := ReadingOf(t.events, limits, order);
    && reading.metadata.Ok?
    && response.Snapshot() == LazyFrom(reading.metadata.value, reading.events)
    && response.statusCode == reading.metadata.value.status && response.reasonPhrase == reading.metadata.value.reason
  }

  /** get_redirect. */
  method GetRedirect(request: ParsedRequest, status: int, location: Option<string>, urlencoding: bool)
    returns (hop: NextHop)
    modifies request, request.config`verb
    ensures (hop, request.Snapshot()) == HopOf(old(request.Snapshot()), status, location, urlencoding)
  {
    if status == 301 || status == 302 || status == 303 || status == 307 {
      if location.None? {
        return Redirect(Err(RedirectLocationMissing));
      }
      var r := request.RedirectTo(location.value, urlencoding);
      if r.Err? {
        return Redirect(r);
      }
      if status == 303 {
        match request.config.verb {
          case Post => request.config.verb := Get;
          case Put => request.config.verb := Get;
          case Delete => request.config.verb := Get;
          case _ =>
        }
      }
      hop := Redirect(Ok(()));
    } else {
      hop := Destination;
    }
  }

  ghost predicate Arrives(r: Result<ResponseLazy, Error>, run: Run, network: Network, limits: Limits)
    requires network.Valid()
    reads network, if r.Ok? then {r.value, r.value.stream} else {}
  {
    match r
    case Err(e) => run.outcome == Err(e)
    case Ok(response) =>
      && run.outcome.Ok? && response.url == run.outcome.value.reportedUrl && network.sent != []
      && network.transmissions(|network.sent| - 1).Stream?
      && HeadRead(response, network.transmissions(|network.sent| - 1), limits, network.orders(|network.sent| - 1))
  }

  /** The exchange of Connection::send: as_bytes, written, and from_stream on what comes back. */
  method Ask(request: ParsedRequest, network: Network) returns (r: Result<ResponseLazy, Error>)
    requires network.Valid()
    modifies network`sent, network`written
    ensures var i, limits := |old(network.sent)|, request.config.ReadLimits();
            && network.sent == old(network.sent) + [Sent(request.url, request.config.verb)]
            && network.written ==
               old(network.written) +
               [RequestBytes(request.config.verb, request.url, request.config.headers, request.config.body,
                             network.printing(i)(request.config.headers))]
            && match r
               case Err(e) => network.Answers(limits)(i) == Broken(e)
               case Ok(response) =>
                 && fresh(response) && fresh(response.stream) && response.url == ""
                 && network.Answers(limits)(i) == Reply(response.statusCode, response.headers)
                 && HeadRead(response, network.transmissions(i), limits, network.orders(i))
  {
    hide ReadingOf, RequestBytes;
    var order := network.orders(|network.sent|);
    var bytes := request.AsBytes(network.printing(|network.sent|));
    var stream := network.Exchange(Sent(request.url, request.config.verb), bytes);
    if stream.Err? {
      return Err(stream.error);
    }
    r := FromStream(stream.value, request.config.ReadLimits(), order);
  }

  /** Connection::send: ensure_ascii_host, one exchange, and the redirects. */
  method Send(request: ParsedRequest, network: Network, features: Features) returns (r: Result<ResponseLazy, Error>)
    requires network.Valid() && |request.redirects| <= request.config.maxRedirects
    modifies request, request.config`verb, network`sent, network`written
    ensures r.Ok? ==> fresh(r.value) && fresh(r.value.stream)
    ensures var limits, i := request.config.ReadLimits(), |old(network.sent)|;
            var run := RunFrom(old(request.Snapshot()), features, network.Answers(limits), i);
            && network.sent == old(network.sent) + run.log && Arrives(r, run, network, limits)
            && network.written ==
               old(network.written) + network.Printed(run.log, i, request.config.headers, request.config.body)
    decreases request.config.maxRedirects - |request.redirects|, 1
  {
    hide RunFrom, AfterReply, IsAscii, RequestBytes, HeadRead, AnswerOf, Network.Printed;
    ghost var i, first := |network.sent|, Sent(request.url, request.config.verb);
    ghost var answers := network.Answers(request.config.ReadLimits());
    ghost var others := FirstExchange(request.Snapshot(), features, answers, i);
    network.PrintedCons(first, others.log, i, request.config.headers, request.config.body);
    if !IsAscii(request.url.host) {
      return Err(PunycodeFeatureNotEnabled);
    }
    var response := Ask(request, network);
    if response.Err? {
      return Err(response.error);
    }
    r := HandleRedirects(request, response.value, network, features);
  }

  /** handle_redirects. */
  method HandleRedirects(request: ParsedRequest, response: ResponseLazy, network: Network, features: Features)
    returns (r: Result<ResponseLazy, Error>)
    requires network.Valid() && |request.redirects| <= request.config.maxRedirects
    requires network.sent != [] && response.url == ""
    requires HeadRead(response, network.transmissions(|network.sent| - 1), request.config.ReadLimits(),
                      network.orders(|network.sent| - 1))
    modifies request, request.config`verb, network`sent, network`written, response`url
    ensures r.Ok? ==> r.value == response || (fresh(r.value) && fresh(r.value.stream))
    ensures var limits := request.config.ReadLimits();
            var run := AfterReply(old(request.Snapshot()), old(response.statusCode), old(response.headers), features,
                                  network.Answers(limits), |old(network.sent)|);
            && network.sent == old(network.sent) + run.log && Arrives(r, run, network, limits)
            && network.written ==
               old(network.written) +
               network.Printed(run.log, |old(network.sent)|, request.config.headers, request.config.body)
    decreases request.config.maxRedirects - |request.redirects|, 0
  {
    hide ReadingOf, RunFrom, AfterReply, HopOf, RequestBytes, AnswerOf, LazyFrom, Target;
    ReplyCases(request.Snapshot(), response.statusCode, response.headers, features,
               network.Answers(request.config.ReadLimits()), |network.sent|);
    var hop := GetRedirect(request, response.statusCode, LocationOf(response.headers), features.urlencoding);
    match hop {
      case Redirect(outcome) =>
        if outcome.Err? {
          return Err(outcome.error);
        }
        if request.url.https && !features.tls {
          return Err(HttpsFeatureNotEnabled);
        }
        r := Send(request, network, features);
      case Destination =>
        var responseUrl := new UrlText();
        responseUrl.WriteBaseUrl(request.url);
        responseUrl.WriteResource(request.url);
        assert responseUrl.text == PrintUrl(request.url);
        response.url := responseUrl.text;
        r := Ok(response);
    }
  }
}
