/** What holds over every redirect run, whatever the servers answer (sections 6.4 and 7.1.2 of RFC 7231). */
module RedirectLaws {
  import opened Wrappers
  import opened Scan
  import opened Utf8
  import opened Transport
  import opened Lines
  import opened Headers
  import opened Metadata
  import opened HttpUrl
  import opened UrlLaws
  import opened Fragments
  import opened Request
  import opened Connection

  ghost predicate NoDuplicates<T>(s: seq<T>) {
    forall i, j | 0 <= i < j < |s| :: s[i] != s[j]
  }

  /** The history and the current URL are pairwise distinct, and the history is within the limit. */
  ghost predicate Fresh(c: Chase) {
    |c.redirects| <= c.maxRedirects && NoDuplicates(c.redirects + [c.url])
  }

  ghost function Urls(log: seq<Sent>): seq<HttpUrl> {
    seq(|log|, i requires 0 <= i < |log| => log[i].url)
  }

  lemma UrlsCons(sent: Sent, log: seq<Sent>)
    ensures Urls([sent] + log) == [sent.url] + Urls(log)
  {
  }

  /** The hop taken from a reply, if it is followed. */
  ghost predicate Follows(c: Chase, status: int, headers: HeaderMap, features: Features) {
    var (hop, next) := HopOf(c, status, LocationOf(headers), features.urlencoding);
    hop == Redirect(Ok(())) && (next.url.https ==> features.tls)
  }

  ghost function NextChase(c: Chase, status: int, headers: HeaderMap, features: Features): Chase {
    HopOf(c, status, LocationOf(headers), features.urlencoding).1
  }

  /** One round of a run, spelled out. */
  lemma RunStep(c: Chase, features: Features, answers: nat -> Answer, i: nat)
    requires |c.redirects| <= c.maxRedirects
    ensures var run := RunFrom(c, features, answers, i);
            && (run.log != [] ==> run.log[0] == Sent(c.url, c.verb) && IsAscii(c.url.host))
            && (IsAscii(c.url.host) && answers(i).Reply? &&
                Follows(c, answers(i).status, answers(i).headers, features) ==>
                  var next := NextChase(c, answers(i).status, answers(i).headers, features);
                  |next.redirects| <= next.maxRedirects &&
                  var rest := RunFrom(next, features, answers, i + 1);
                  run == Run([Sent(c.url, c.verb)] + rest.log, rest.outcome))
            && (!(IsAscii(c.url.host) && answers(i).Reply? &&
                  Follows(c, answers(i).status, answers(i).headers, features)) ==>
                  |run.log| <= 1)
            && (run.outcome.Ok? && |run.log| == 1 ==>
                  run.outcome.value.at == c && run.outcome.value.reportedUrl == PrintUrl(c.url))
  {
    hide Target, PrintUrl;
  }

  /** What a reply makes of a run: it ends here, or a hop leads on. */
  ghost predicate ReplyEnds(c: Chase, status: int, headers: HeaderMap, features: Features,
      outcome: Result<Arrival, Error>)
  {
    if status !in {301, 302, 303, 307} then outcome == Ok(Arrival(status, PrintUrl(c.url), c))
    else if "location" !in headers then outcome == Err(RedirectLocationMissing)
    else
      var target := Target(c.url, headers["location"], features.urlencoding);
      if target.Err? then outcome == Err(target.error)
      else if |c.redirects| >= c.maxRedirects then outcome == Err(TooManyRedirections)
      else if target.value == c.url || target.value in c.redirects then outcome == Err(InfiniteRedirectionLoop)
      else target.value.https && !features.tls && outcome == Err(HttpsFeatureNotEnabled)
  }

  /** The chase behind a hop (section 6.4 of RFC 7231). */
  ghost function Hopped(c: Chase, status: int, target: HttpUrl): Chase {
    var becomesGet := status == 303 && (c.verb.Post? || c.verb.Put? || c.verb.Delete?);
    Chase(target, c.redirects + [c.url], if becomesGet then Get else c.verb, c.maxRedirects)
  }

  /**
   One round of every run, whole: a host that is not ASCII is not asked; an answer that cannot be read ends the run; a
   reply ends it with its own result, or is followed to the URL its Location leads to.
   */
  lemma RunRound(c: Chase, features: Features, answers: nat -> Answer, i: nat)
    requires |c.redirects| <= c.maxRedirects
    ensures var run := RunFrom(c, features, answers, i);
            if exists x | x in c.url.host :: x as int >= 128 then run == Run([], Err(PunycodeFeatureNotEnabled))
            else match answers(i)
              case Broken(e) => run == Run([Sent(c.url, c.verb)], Err(e))
              case Reply(status, headers) =>
                || (run.log == [Sent(c.url, c.verb)] && ReplyEnds(c, status, headers, features, run.outcome))
                || (&& status in {301, 302, 303, 307} && "location" in headers
                    && var target := Target(c.url, headers["location"], features.urlencoding);
                    && target.Ok? && |c.redirects| < c.maxRedirects
                    && target.value != c.url && target.value !in c.redirects && (target.value.https ==> features.tls)
                    && var rest := RunFrom(Hopped(c, status, target.value), features, answers, i + 1);
                       run == Run([Sent(c.url, c.verb)] + rest.log, rest.outcome))
  {
    hide Target, PrintUrl;
  }

  lemma FollowStaysFresh(c: Chase, status: int, headers: HeaderMap, features: Features)
    requires Fresh(c) && Follows(c, status, headers, features)
    ensures var next := NextChase(c, status, headers, features);
            Fresh(next) && next.redirects == c.redirects + [c.url] && next.maxRedirects == c.maxRedirects
  {
    hide Target;
    var next := NextChase(c, status, headers, features);
    var all := next.redirects + [next.url];
    forall i, j | 0 <= i < j < |all| ensures all[i] != all[j] {
      if j == |next.redirects| {
        assert all[i] in next.redirects;
      }
    }
  }

  /**
   Loop freedom and the bound: over every run the URLs in the history and the URLs requested are pairwise
   distinct, and no more requests go out than the limit leaves room for.
   */
  lemma {:induction false} RequestsAreDistinct(c: Chase, features: Features, answers: nat -> Answer, i: nat)
    requires Fresh(c)
    ensures var log := RunFrom(c, features, answers, i).log;
            NoDuplicates(c.redirects + Urls(log)) && |log| <= c.maxRedirects - |c.redirects| + 1
    decreases c.maxRedirects - |c.redirects|
  {
    hide RunFrom, NextChase, Follows;
    RunStep(c, features, answers, i);
    var log := RunFrom(c, features, answers, i).log;
    if |log| <= 1 {
      if |log| == 1 {
        assert Urls(log) == [c.url];
      } else {
        HistoryIsDistinct(c);
      }
    } else {
      FollowStaysFresh(c, answers(i).status, answers(i).headers, features);
      var next := NextChase(c, answers(i).status, answers(i).headers, features);
      RequestsAreDistinct(next, features, answers, i + 1);
      var rest := RunFrom(next, features, answers, i + 1).log;
      UrlsCons(Sent(c.url, c.verb), rest);
      assert c.redirects + Urls(log) == next.redirects + Urls(rest);
    }
  }

  lemma HistoryIsDistinct(c: Chase)
    requires Fresh(c)
    ensures NoDuplicates(c.redirects + Urls([]))
  {
    var all := c.redirects + [c.url];
    assert c.redirects + Urls([]) == c.redirects;
    forall i, j | 0 <= i < j < |c.redirects| ensures c.redirects[i] != c.redirects[j] {
      assert all[i] != all[j];
    }
  }

  /** From a request that has just been parsed: at most max_redirects + 1 requests, all of different URLs. */
  lemma FreshRequestIsBounded(c: Chase, features: Features, answers: nat -> Answer)
    requires c.redirects == []
    ensures var log := RunFrom(c, features, answers, 0).log;
            NoDuplicates(Urls(log)) && |log| <= c.maxRedirects + 1
  {
    RequestsAreDistinct(c, features, answers, 0);
    assert c.redirects + Urls(RunFrom(c, features, answers, 0).log) == Urls(RunFrom(c, features, answers, 0).log);
  }

  /** The answer to a request for u leads to a further one. */
  predicate AsksForMore(u: HttpUrl, answer: Answer, urlencoding: bool) {
    && answer.Reply? && IsRedirect(answer.status) && LocationOf(answer.headers).Some?
    && Target(u, LocationOf(answer.headers).value, urlencoding).Ok?
  }

  /** The log uses up the limit, and its last answer leads on. */
  ghost predicate LimitExceeded(c: Chase, log: seq<Sent>, answers: nat -> Answer, i: nat, urlencoding: bool) {
    && |log| == c.maxRedirects - |c.redirects| + 1 && log != []
    && AsksForMore(log[|log| - 1].url, answers(i + |log| - 1), urlencoding)
  }

  /** A run fails with TooManyRedirections exactly when max_redirects + 1 requests went out and the last leads on. */
  lemma {:induction false} LimitIsExactIff(c: Chase, features: Features, answers: nat -> Answer, i: nat)
    requires Fresh(c) && forall j :: answers(j) != Broken(TooManyRedirections)
    ensures var run := RunFrom(c, features, answers, i);
            run.outcome == Err(TooManyRedirections) <==> LimitExceeded(c, run.log, answers, i, features.urlencoding)
    decreases c.maxRedirects - |c.redirects|
  {
    hide RunFrom, Follows, NextChase, AsksForMore, NoDuplicates;
    RunStep(c, features, answers, i);
    var run := RunFrom(c, features, answers, i);
    if IsAscii(c.url.host) && answers(i).Reply? && Follows(c, answers(i).status, answers(i).headers, features) {
      FollowStaysFresh(c, answers(i).status, answers(i).headers, features);
      var next := NextChase(c, answers(i).status, answers(i).headers, features);
      LimitIsExactIff(next, features, answers, i + 1);
      var rest := RunFrom(next, features, answers, i + 1).log;
      if rest != [] {
        assert run.log[|run.log| - 1] == rest[|rest| - 1];
      }
    } else {
      LimitAtOnce(c, features, answers, i);
    }
  }

  lemma LimitAtOnce(c: Chase, features: Features, answers: nat -> Answer, i: nat)
    requires |c.redirects| <= c.maxRedirects && answers(i) != Broken(TooManyRedirections)
    requires !(IsAscii(c.url.host) && answers(i).Reply? && Follows(c, answers(i).status, answers(i).headers, features))
    ensures var run := RunFrom(c, features, answers, i);
            run.outcome == Err(TooManyRedirections) <==> LimitExceeded(c, run.log, answers, i, features.urlencoding)
  {
    TargetErrors(c);
    hide Target, PrintUrl;
  }

  /** Reading a response never fails with the error of the redirect limit. */
  lemma ReadingErrors(t: Transmission, limits: Limits, order: HashOrder)
    requires IsHashOrder(order)
    ensures AnswerOf(t, limits, order) != Broken(TooManyRedirections)
  {
    hide AsyncLine, HeaderLoop;
    if t.Stream? {
      var status := AsyncLine([], t.events, Limit(limits.status), StatusLineOverflow);
      LineErrors([], t.events, Limit(limits.status), StatusLineOverflow);
      if status.line.Ok? {
        HeaderErrors(status.line.value.rest, status.events, limits.headers, map[]);
      }
    }
  }

  lemma LineErrors(prefix: seq<Byte>, events: seq<Event>, max: nat, overflow: Error)
    requires overflow != TooManyRedirections
    ensures AsyncLine(prefix, events, max, overflow).line != Err(TooManyRedirections)
  {
    AsyncLineRefinesBytes(prefix, events, max, overflow);
  }

  lemma {:induction false} HeaderErrors(prefix: seq<Byte>, events: seq<Event>, budget: Option<nat>, headers: HeaderMap)
    ensures HeaderLoop(prefix, events, budget, headers).head != Err(TooManyRedirections)
    decreases |prefix| + |Payload(events)|
  {
    hide AsyncLine, Encode, InsertHeader, LineOf;
    var reading := AsyncLine(prefix, events, Limit(budget), HeadersOverflow);
    LineErrors(prefix, events, Limit(budget), HeadersOverflow);
    AsyncLineRefinesBytes(prefix, events, Limit(budget), HeadersOverflow);
    if reading.line.Ok? && reading.line.value.text != "" {
      var line := reading.line.value;
      var left := Spend(budget, |Encode(line.text)| + 2);
      if left.Ok? {
        HeaderErrors(line.rest, reading.events, left.value, InsertHeader(headers, line.text));
      }
    }
  }

  lemma TargetErrors(c: Chase)
    ensures forall location, urlencoding :: Target(c.url, location, urlencoding).Err? ==>
              Target(c.url, location, urlencoding).error == IoError(InvalidProtocol)
  {
    hide UrlOf, BaseUrl;
  }

  // ---------- Methods ----------

  ghost predicate BecomesGet(verb: Method) {
    verb.Post? || verb.Put? || verb.Delete?
  }

  /** The method of a request and of the one that follows it (section 6.4.4 of RFC 7231). */
  ghost predicate MethodStep(before: Method, after: Method, answer: Answer) {
    && answer.Reply?
    && after == if answer.status == 303 && (before.Post? || before.Put? || before.Delete?) then Get else before
  }

  /** The methods of a log that starts with the i-th answer. */
  ghost predicate MethodsFit(verb: Method, log: seq<Sent>, answers: nat -> Answer, i: nat) {
    && (log != [] ==> log[0].verb == verb)
    && (forall j | 0 < j < |log| :: MethodStep(log[j - 1].verb, log[j].verb, answers(i + j - 1)))
    && (forall j | 0 <= j < |log| :: log[j].verb == verb || (log[j].verb == Get && BecomesGet(verb)))
    && (forall j | 0 <= j < |log| :: log[j].verb.Head? <==> verb.Head?)
  }

  lemma MethodsFitAtMostOne(verb: Method, log: seq<Sent>, answers: nat -> Answer, i: nat)
    requires |log| <= 1 && (log != [] ==> log[0].verb == verb)
    ensures MethodsFit(verb, log, answers, i)
  {
  }

  lemma MethodsFitCons(verb: Method, sent: Sent, next: Method, log: seq<Sent>, answers: nat -> Answer, i: nat)
    requires sent.verb == verb && MethodStep(verb, next, answers(i)) && MethodsFit(next, log, answers, i + 1)
    ensures MethodsFit(verb, [sent] + log, answers, i)
  {
    var all := [sent] + log;
    forall j | 0 < j < |all| ensures MethodStep(all[j - 1].verb, all[j].verb, answers(i + j - 1)) {
      if j > 1 {
        var k := j - 1;
        assert all[j] == log[k] && all[j - 1] == log[k - 1];
        assert MethodStep(log[k - 1].verb, log[k].verb, answers(i + 1 + k - 1));
      }
    }
  }

  /**
   Over every run the method becomes GET behind every 303 on POST, PUT or DELETE, and stays as it is behind every other
   answer; so HEAD is neither entered nor left, and whether the request was HEAD can be told before it is sent.
   */
  lemma {:induction false} MethodsChangeOnlyAfter303(c: Chase, features: Features, answers: nat -> Answer, i: nat)
    requires |c.redirects| <= c.maxRedirects
    ensures var run := RunFrom(c, features, answers, i);
            && MethodsFit(c.verb, run.log, answers, i)
            && (run.outcome.Ok? ==> run.log != [] && run.outcome.value.at.verb == run.log[|run.log| - 1].verb
                                    && run.outcome.value.at.url == run.log[|run.log| - 1].url)
    decreases c.maxRedirects - |c.redirects|
  {
    hide RunFrom, NextChase, Follows, MethodsFit, MethodStep;
    RunStep(c, features, answers, i);
    ArrivesAtLast(c, features, answers, i);
    var log := RunFrom(c, features, answers, i).log;
    if |log| <= 1 {
      MethodsFitAtMostOne(c.verb, log, answers, i);
    } else {
      var next := NextChase(c, answers(i).status, answers(i).headers, features);
      NextVerb(c, answers(i), features);
      MethodsChangeOnlyAfter303(next, features, answers, i + 1);
      MethodsFitCons(c.verb, log[0], next.verb, RunFrom(next, features, answers, i + 1).log, answers, i);
    }
  }

  lemma NextVerb(c: Chase, answer: Answer, features: Features)
    requires answer.Reply? && Follows(c, answer.status, answer.headers, features)
    ensures var next := NextChase(c, answer.status, answer.headers, features);
            && |next.redirects| == |c.redirects| + 1 && |next.redirects| <= next.maxRedirects
            && next.maxRedirects == c.maxRedirects && MethodStep(c.verb, next.verb, answer)
  {
    hide NextChase, Follows;
    FollowGrows(c, answer.status, answer.headers, features);
  }

  /** The request a run arrives with is the last one sent. */
  lemma {:induction false} ArrivesAtLast(c: Chase, features: Features, answers: nat -> Answer, i: nat)
    requires |c.redirects| <= c.maxRedirects
    ensures var run := RunFrom(c, features, answers, i);
            run.outcome.Ok? ==> run.log != [] && run.outcome.value.at.verb == run.log[|run.log| - 1].verb
                                && run.outcome.value.at.url == run.log[|run.log| - 1].url
    decreases c.maxRedirects - |c.redirects|
  {
    hide RunFrom, NextChase, Follows;
    RunStep(c, features, answers, i);
    OkHasLog(c, features, answers, i);
    var log := RunFrom(c, features, answers, i).log;
    if |log| > 1 {
      var next := NextChase(c, answers(i).status, answers(i).headers, features);
      NextVerb(c, answers(i), features);
      ArrivesAtLast(next, features, answers, i + 1);
      var rest := RunFrom(next, features, answers, i + 1).log;
      assert log == [log[0]] + rest && log[|log| - 1] == rest[|rest| - 1];
    }
  }

  lemma OkHasLog(c: Chase, features: Features, answers: nat -> Answer, i: nat)
    requires |c.redirects| <= c.maxRedirects
    ensures RunFrom(c, features, answers, i).outcome.Ok? ==> RunFrom(c, features, answers, i).log != []
  {
    hide HopOf;
  }

  lemma FollowGrows(c: Chase, status: int, headers: HeaderMap, features: Features)
    requires Follows(c, status, headers, features)
    ensures var next := NextChase(c, status, headers, features);
            && |next.redirects| == |c.redirects| + 1 && |next.redirects| <= next.maxRedirects
            && next.maxRedirects == c.maxRedirects
            && next.verb == VerbAfter(status, c.verb)
            && LocationOf(headers).Some?
            && Target(c.url, LocationOf(headers).value, features.urlencoding) == Ok(next.url)
  {
    hide Target;
  }

  // ---------- Fragments and the reported URL ----------

  /** The Locations of the answers i to i + n - 1. */
  ghost function Locations(answers: nat -> Answer, i: nat, n: nat): seq<Option<string>> {
    seq(n, j requires 0 <= j < n => if answers(i + j).Reply? then LocationOf(answers(i + j).headers) else None)
  }

  /** No Location followed has a hash in front of its path. */
  ghost predicate FragmentsBehindPaths(locations: seq<Option<string>>) {
    forall location | location in locations && location.Some? :: HashBehindPath(WithoutProtocol(location.value))
  }

  /** The fragment of the last Location carrying one, else the original. */
  ghost function LastFragment(original: Option<string>, locations: seq<Option<string>>,
      urlencoding: bool): Option<string>
    decreases |locations|
  {
    if locations == [] then original
    else
      var first := locations[0];
      var own := if first.Some? then LocationFragment(first.value, urlencoding) else None;
      LastFragment(OwnOr(own, original), locations[1..], urlencoding)
  }

  /** What a run from the i-th answer on keeps of the fragment it started with, if it arrives. */
  ghost predicate FragmentKept(run: Run, original: Option<string>, answers: nat -> Answer, i: nat, urlencoding: bool) {
    run.outcome.Ok? ==>
      var final := run.outcome.value.at.url;
      && run.log != []
      && WellFormed(final)
      && (FragmentsBehindPaths(Locations(answers, i, |run.log| - 1)) ==>
            final.fragment == LastFragment(original, Locations(answers, i, |run.log| - 1), urlencoding))
      && ParseUrl(run.outcome.value.reportedUrl, None, false) == Ok(final)
  }

  lemma FragmentKeptHere(c: Chase, sent: Sent, outcome: Result<Arrival, Error>, answers: nat -> Answer, i: nat,
      urlencoding: bool)
    requires WellFormed(c.url)
    requires outcome.Ok? ==> outcome.value.at == c && outcome.value.reportedUrl == PrintUrl(c.url)
    ensures FragmentKept(Run([sent], outcome), c.url.fragment, answers, i, urlencoding)
  {
    hide WellFormed, ParseUrl, PrintUrl, LastFragment, Locations;
    NoLocations(c.url.fragment, answers, i, urlencoding);
    PrintParse(c.url, None);
  }

  lemma FragmentKeptCons(sent: Sent, rest: Run, u: HttpUrl, next: HttpUrl, answers: nat -> Answer, i: nat,
      urlencoding: bool)
    requires WellFormed(u) && answers(i).Reply? && LocationOf(answers(i).headers).Some?
    requires Target(u, LocationOf(answers(i).headers).value, urlencoding) == Ok(next)
    requires FragmentKept(rest, next.fragment, answers, i + 1, urlencoding)
    ensures WellFormed(next)
    ensures FragmentKept(Run([sent] + rest.log, rest.outcome), u.fragment, answers, i, urlencoding)
  {
    hide WellFormed, ParseUrl, LastFragment, Locations, LocationFragment, Target;
    hide HashBehindPath;
    var location := LocationOf(answers(i).headers).value;
    HopFragment(u, location, urlencoding);
    if rest.outcome.Ok? {
      LastFragmentStep(u.fragment, answers, i, |rest.log|, urlencoding);
      if FragmentsBehindPaths(Locations(answers, i, |rest.log|)) {
        BehindPathsStep(answers, i, |rest.log|);
      }
    }
  }

  /** A hop whose Location has no hash in front of its path. */
  lemma HopFragment(u: HttpUrl, location: string, urlencoding: bool)
    requires WellFormed(u) && Target(u, location, urlencoding).Ok?
    ensures var next := Target(u, location, urlencoding).value;
            && WellFormed(next)
            && (HashBehindPath(WithoutProtocol(location)) ==>
                  next.fragment == OwnOr(LocationFragment(location, urlencoding), u.fragment))
  {
    hide Target, WellFormed, HashBehindPath, MachineFragment, HashFragment, WithoutProtocol, EncodedFragment;
    TargetFragment(u, location, urlencoding);
    ProtocolKeepsFragment(location);
    MachineFindsFragmentIff(WithoutProtocol(location));
  }

  lemma BehindPathsStep(answers: nat -> Answer, i: nat, n: nat)
    requires n > 0 && answers(i).Reply? && LocationOf(answers(i).headers).Some?
    requires FragmentsBehindPaths(Locations(answers, i, n))
    ensures HashBehindPath(WithoutProtocol(LocationOf(answers(i).headers).value))
    ensures FragmentsBehindPaths(Locations(answers, i + 1, n - 1))
  {
    hide HashBehindPath, WithoutProtocol;
    var locations := Locations(answers, i, n);
    assert locations[0] == LocationOf(answers(i).headers);
    assert locations[1..] == Locations(answers, i + 1, n - 1);
    assert forall location | location in locations[1..] :: location in locations;
  }

  /**
   Over every run that arrives: the final URL is well formed, its fragment is that of the last Location followed
   that carries one, else the original request's, and parsing the reported URL gives the final request URL.
   */
  lemma {:induction false} FragmentIsPreserved(c: Chase, features: Features, answers: nat -> Answer, i: nat)
    requires |c.redirects| <= c.maxRedirects && WellFormed(c.url)
    ensures FragmentKept(RunFrom(c, features, answers, i), c.url.fragment, answers, i, features.urlencoding)
    decreases c.maxRedirects - |c.redirects|
  {
    hide RunFrom, NextChase, Follows, Target, WellFormed, FragmentKept;
    RunStep(c, features, answers, i);
    OkHasLog(c, features, answers, i);
    var run := RunFrom(c, features, answers, i);
    if |run.log| == 0 {
      NothingArrives(run, c.url.fragment, answers, i, features.urlencoding);
    } else if |run.log| == 1 {
      assert run == Run([run.log[0]], run.outcome);
      FragmentKeptHere(c, run.log[0], run.outcome, answers, i, features.urlencoding);
    } else {
      var answer := answers(i);
      var next := NextChase(c, answer.status, answer.headers, features);
      FollowGrows(c, answer.status, answer.headers, features);
      TargetFragment(c.url, LocationOf(answer.headers).value, features.urlencoding);
      FragmentIsPreserved(next, features, answers, i + 1);
      FragmentKeptCons(run.log[0], RunFrom(next, features, answers, i + 1), c.url, next.url, answers, i,
                       features.urlencoding);
    }
  }

  lemma NothingArrives(run: Run, original: Option<string>, answers: nat -> Answer, i: nat, urlencoding: bool)
    requires run.outcome.Err?
    ensures FragmentKept(run, original, answers, i, urlencoding)
  {
  }

  lemma NoLocations(original: Option<string>, answers: nat -> Answer, i: nat, urlencoding: bool)
    ensures LastFragment(original, Locations(answers, i, 0), urlencoding) == original
  {
  }

  lemma LastFragmentStep(original: Option<string>, answers: nat -> Answer, i: nat, n: nat, urlencoding: bool)
    requires n > 0 && answers(i).Reply? && LocationOf(answers(i).headers).Some?
    ensures LastFragment(original, Locations(answers, i, n), urlencoding) ==
            var own := LocationFragment(LocationOf(answers(i).headers).value, urlencoding);
            LastFragment(OwnOr(own, original), Locations(answers, i + 1, n - 1), urlencoding)
  {
    hide LocationFragment, OwnOr;
    var locations := Locations(answers, i, n);
    assert locations[0] == LocationOf(answers(i).headers);
    assert locations[1..] == Locations(answers, i + 1, n - 1);
  }

  /** A relative Location that starts a path keeps the origin over the hop, whatever the history. */
  lemma RelativeHopKeepsOrigin(c: Chase, status: int, headers: HeaderMap, features: Features)
    requires WellFormed(c.url) && Follows(c, status, headers, features)
    requires Find(LocationOf(headers).value, PROTOCOL_MARK).None? && StartsPath(LocationOf(headers).value)
    ensures SameOrigin(c.url, NextChase(c, status, headers, features).url)
  {
    FollowGrows(c, status, headers, features);
    FollowPath(c.url, LocationOf(headers).value, features.urlencoding);
    hide Follows, NextChase, ParseUrl, Encoded, Cut;
  }

  /** with_param keeps the request URL well formed exactly when the parameters carry no hash. */
  lemma ParamsKeepWellFormedIff(u: HttpUrl, params: string)
    requires WellFormed(u)
    ensures WellFormed(WithParams(u, params)) <==> '#' !in params
  {
    if params != "" {
      var path := WithParams(u, params).pathAndQuery;
      assert path[0] == u.pathAndQuery[0];
      assert '#' in params ==> '#' in path;
    }
  }
}
