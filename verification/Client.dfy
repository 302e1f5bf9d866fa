/** Request::send of src/request.rs: parse, send, follow redirects, and read the response. */
module Client {
  import opened Wrappers
  import opened Transport
  import opened Headers
  import opened Metadata
  import opened Delivery
  import opened ResponseLazy
  import opened HttpUrl
  import opened UrlLaws
  import opened Request
  import opened Connection
  import opened RedirectLaws

  /** The URL a request is first sent to. */
  function FirstUrl(url: string, params: string, urlencoding: bool): Result<HttpUrl, Error> {
    var u := ParseUrl(url, None, urlencoding);
    if u.Err? then u else Ok(WithParams(u.value, params))
  }

  /** A request with its URL, before anything is sent. */
  function StartOf(u: HttpUrl, config: Request): Chase
    reads config
  {
    Chase(u, [], config.verb, config.maxRedirects)
  }

  /** The same response, reporting a URL. */
  function Reporting(r: Result<Response, Error>, url: string): Result<Response, Error> {
    if r.Err? then r else Ok(r.value.(url := url))
  }

  /** The response read from a stream; where it is well delimited, the response that its bytes mean. */
  ghost predicate ReadFrom(r: Result<Response, Error>, events: seq<Event>, url: string, limits: Limits,
      order: HashOrder, isHead: bool)
    requires IsHashOrder(order)
  {
    var input, fault := Payload(events), FaultOf(events);
    && r == Reporting(ReceiveOf(events, limits, order, isHead), url)
    && (WellDelimited(input, fault, limits, order, isHead) ==>
          r == Reporting(ResponseOf(input, fault, limits, order, isHead), url))
  }

  /** A run that does not arrive fails with its error; else the last transmission is read, reporting the final URL. */
  ghost predicate Concludes(r: Result<Response, Error>, run: Run, network: Network, i: nat, limits: Limits,
      isHead: bool)
    requires network.Valid()
  {
    match run.outcome
    case Err(e) => r == Err(e)
    case Ok(arrival) =>
      && run.log != []
      && var last := i + |run.log| - 1;
      && network.transmissions(last).Stream?
      && ReadFrom(r, network.transmissions(last).events, arrival.reportedUrl, limits, network.orders(last), isHead)
  }

  /**
   Different URLs, at most max + 1 of them; the request reached is the last one sent, and is HEAD if the first was.
   */
  ghost predicate Bounded(run: Run, max: nat, isHead: bool) {
    && NoDuplicates(Urls(run.log)) && |run.log| <= max + 1
    && (run.outcome.Ok? ==>
          && run.log != [] && run.outcome.value.at.url == run.log[|run.log| - 1].url
          && run.log[|run.log| - 1].verb.Head? == isHead)
  }

  lemma StartIsBounded(start: Chase, features: Features, answers: nat -> Answer, i: nat)
    requires start.redirects == []
    ensures Bounded(RunFrom(start, features, answers, i), start.maxRedirects, start.verb.Head?)
  {
    hide RunFrom;
    var log := RunFrom(start, features, answers, i).log;
    RequestsAreDistinct(start, features, answers, i);
    assert start.redirects + Urls(log) == Urls(log);
    MethodsChangeOnlyAfter303(start, features, answers, i);
  }

  lemma StartKeepsFragment(url: string, params: string, start: Chase, features: Features, answers: nat -> Answer,
      i: nat)
    requires FirstUrl(url, params, features.urlencoding) == Ok(start.url) && '#' !in params && start.redirects == []
    ensures FragmentKept(RunFrom(start, features, answers, i), start.url.fragment, answers, i, features.urlencoding)
  {
    hide ParseUrl, RunFrom, FragmentKept, WellFormed;
    ParsedIsWellFormed(url, None, features.urlencoding);
    ParamsKeepWellFormedIff(ParseUrl(url, None, features.urlencoding).value, params);
    FragmentIsPreserved(start, features, answers, i);
  }

  /** No transmission fails with TooManyRedirections, so that error tells exactly that the limit was exceeded. */
  lemma NetworkLimitIff(start: Chase, features: Features, network: Network, limits: Limits, i: nat)
    requires network.Valid() && start.redirects == []
    ensures var answers := network.Answers(limits);
            var run := RunFrom(start, features, answers, i);
            run.outcome == Err(TooManyRedirections) <==>
            LimitExceeded(start, run.log, answers, i, features.urlencoding)
  {
    hide RunFrom, LimitExceeded, AnswerOf;
    forall j: nat ensures network.Answers(limits)(j) != Broken(TooManyRedirections) {
      ReadingErrors(network.transmissions(j), limits, network.orders(j));
    }
    LimitIsExactIff(start, features, network.Answers(limits), i);
  }

  /** Response::create behind from_stream. */
  method Conclude(response: ResponseLazy, ghost t: Transmission, ghost limits: Limits, ghost order: HashOrder,
      isHead: bool)
    returns (r: Result<Response, Error>)
    requires IsHashOrder(order) && HeadRead(response, t, limits, order)
    modifies response, response.stream
    ensures ReadFrom(r, t.events, old(response.url), limits, order, isHead)
  {
    hide ReadingOf, Drain, LazyFrom, ResponseOf, WellDelimited;
    r := Create(response, isHead);
    if WellDelimited(Payload(t.events), FaultOf(t.events), limits, order, isHead) {
      ReceiveRefinesBytes(t.events, limits, order, isHead);
    }
  }

  /** Connection::send, then Response::create; is_head is asked before sending. */
  method SendParsed(request: ParsedRequest, network: Network, features: Features) returns (r: Result<Response, Error>)
    requires network.Valid() && |request.redirects| <= request.config.maxRedirects
    modifies request, request.config`verb, network`sent, network`written
    ensures var limits, i := request.config.ReadLimits(), |old(network.sent)|;
            var run := RunFrom(old(request.Snapshot()), features, network.Answers(limits), i);
            && network.sent == old(network.sent) + run.log
            && network.written ==
               old(network.written) + network.Printed(run.log, i, request.config.headers, request.config.body)
            && Concludes(r, run, network, i, limits, old(request.config.verb).Head?)
  {
    hide RunFrom, ReadFrom, HeadRead, NoDuplicates;
    var isHead := request.config.verb == Method.Head;
    ghost var start, limits, i := request.Snapshot(), request.config.ReadLimits(), |network.sent|;
    OkHasLog(start, features, network.Answers(limits), i);
    var response := Send(request, network, features);
    if response.Err? {
      return Err(response.error);
    }
    ghost var last := |network.sent| - 1;
    r := Conclude(response.value, network.transmissions(last), limits, network.orders(last), isHead);
  }

  /**
   The result of a request, whatever the network does: what is sent comes behind what was sent before; the run is
   bounded, fails with TooManyRedirections exactly when it exceeds that bound, and keeps the fragment unless a
   parameter carries a hash; and the result is the response that the last transmission's bytes mean, reporting the
   final URL, with is_head as it was before sending. The bytes written are the printed requests, one by one, each with
   the request's own headers and body.
   */
  method SendRequest(config: Request, network: Network, features: Features) returns (r: Result<Response, Error>)
    requires network.Valid()
    modifies config`verb, network`sent, network`written
    ensures match FirstUrl(config.url, config.params, features.urlencoding)
            case Err(e) => r == Err(e) && network.sent == old(network.sent) && network.written == old(network.written)
            case Ok(u) =>
              if u.https && !features.tls then
                && r == Err(HttpsFeatureNotEnabled)
                && network.sent == old(network.sent) && network.written == old(network.written)
              else
                var limits, i := config.ReadLimits(), |old(network.sent)|;
                var run := RunFrom(old(StartOf(u, config)), features, network.Answers(limits), i);
                && network.sent == old(network.sent) + run.log
                && network.written == old(network.written) + network.Printed(run.log, i, config.headers, config.body)
                && Bounded(run, config.maxRedirects, old(config.verb).Head?)
                && (run.outcome == Err(TooManyRedirections) <==>
                      LimitExceeded(old(StartOf(u, config)), run.log, network.Answers(limits), i, features.urlencoding))
                && ('#' !in config.params ==>
                      FragmentKept(run, u.fragment, network.Answers(limits), i, features.urlencoding))
                && Concludes(r, run, network, i, limits, old(config.verb).Head?)
  {
    hide RunFrom, FragmentKept, WithParams, ParseUrl, Bounded, Concludes, LimitExceeded;
    var parsed := NewParsedRequest(config, features.urlencoding);
    if parsed.Err? {
      return Err(parsed.error);
    }
    var request := parsed.value;
    if request.url.https && !features.tls {
      return Err(HttpsFeatureNotEnabled);
    }
    ghost var start, i := request.Snapshot(), |network.sent|;
    assert start == StartOf(request.url, config);
    StartIsBounded(start, features, network.Answers(config.ReadLimits()), i);
    NetworkLimitIff(start, features, network, config.ReadLimits(), i);
    if '#' !in config.params {
      StartKeepsFragment(config.url, config.params, start, features, network.Answers(config.ReadLimits()), i);
    }
    r := SendParsed(request, network, features);
  }
}
