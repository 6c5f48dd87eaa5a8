/**
 The redirect and retry loop of `PendingRequest::poll` in src/client/client.rs,
 with the policy and header rules of src/redirect.rs. A run is driven by the
 outcomes of its attempts, which are arbitrary; every request handed to the
 connection layer is recorded.
 */
module Redirect {
  import opened Wrappers
  import opened Octets

  datatype Method = GET | HEAD | OtherMethod(text: string)

  /** A parsed URL: `port` is the explicit or the well-known one, `isUri` whether it also parses as a URI. */
  datatype Url = Url(scheme: string, host: Option<string>, port: Option<nat>, rest: string, isUri: bool)

  datatype Name =
    | Authorization | Cookie | Cookie2 | ProxyAuthorization | WwwAuthenticate
    | TransferEncoding | ContentEncoding | ContentType | ContentLength
    | Referer | OtherName(text: string)

  type Headers = map<Name, seq<string>>

  const SENSITIVE := {Authorization, Cookie, Cookie2, ProxyAuthorization, WwwAuthenticate}

  const CONTENT := {TransferEncoding, ContentEncoding, ContentType, ContentLength}

  /** `Stream` is a body that can be read only once. */
  datatype Body = Empty | Reusable(bytes: Bytes) | Stream

  datatype Action = Follow | Stop | Error

  /** A custom policy may answer anything; its answer comes with each outcome. */
  datatype Policy = Limit(max: nat) | NoRedirects | Custom

  datatype Client = Client(httpsOnly: bool, referer: bool, cookieStore: bool, policy: Policy, maxRetries: nat)

  /** What an attempt comes to. `builds` is whether the next request can be built;
      `location` is the joined Location header, if it is a URL. */
  datatype Outcome =
    | Failure(retryable: bool, builds: bool)
    | Reply(status: nat, location: Option<Url>, answer: Action, refererText: Option<string>, cookies: seq<string>,
            builds: bool)

  datatype Sent = Sent(url: Url, verb: Method, body: Body, headers: Headers)

  /** `body` is `None` without a body, and `Some(None)` with one that cannot be sent again. */
  datatype State = State(
    verb: Method,
    url: Url,
    headers: Headers,
    body: Option<Option<Bytes>>,
    urls: seq<Url>,
    retries: nat,
    sent: seq<Sent>)

  datatype Verdict = Again | Answered | Failed

  // ----- The rules -----

  predicate Rewrites(status: nat) {
    status == 301 || status == 302 || status == 303
  }

  predicate Repeats(status: nat) {
    status == 307 || status == 308
  }

  function Rewritten(m: Method): Method {
    if m.GET? || m.HEAD? then m else GET
  }

  predicate Crosses(next: Url, previous: Url) {
    next.host != previous.host || next.port != previous.port
  }

  /** `Policy::remove_sensitive_headers`. */
  function RemoveSensitive(headers: Headers, next: Url, previous: seq<Url>): Headers {
    if previous != [] && Crosses(next, previous[|previous| - 1]) then headers - SENSITIVE else headers
  }

  /** `Policy::redirect`. */
  function Check(policy: Policy, previous: seq<Url>, answer: Action): Action {
    match policy
    case Limit(max) => if |previous| > max then Error else Follow
    case NoRedirects => Stop
    case Custom => answer
  }

  /** The body of a repeated request, if it can be repeated. */
  function BodyAgain(body: Option<Option<Bytes>>): Option<Body> {
    match body
    case None => Some(Empty)
    case Some(Some(bytes)) => Some(Reusable(bytes))
    case Some(None) => None
  }

  predicate Supported(client: Client, url: Url) {
    && (url.scheme == "http" || url.scheme == "https")
    && (client.httpsOnly ==> url.scheme == "https")
  }

  /** `execute_request`: the first dispatch, or a refusal. `headers` are those left by the default-header merge. */
  function Execute(client: Client, verb: Method, url: Url, headers: Headers, body: Body, builds: bool): Option<State> {
    if !Supported(client, url) || !url.isUri || !builds then None
    else
      var kept := match body case Empty => None case Reusable(b) => Some(Some(b)) case Stream => Some(None);
      Some(State(verb, url, headers, kept, [], 0, [Sent(url, verb, body, headers)]))
  }

  /** The default-header merge of `execute_request`: a default counts only where the request has nothing. */
  method MergeDefaults(headers: Headers, defaults: Headers, names: seq<Name>) returns (merged: Headers)
    requires forall name :: name in names <==> name in defaults
    ensures merged == defaults + headers
  {
    merged := headers;
    for i := 0 to |names|
      invariant merged.Keys == headers.Keys + set n | n in names[..i]
      invariant forall n :: n in merged ==> merged[n] == if n in headers then headers[n] else defaults[n]
    {
      var name := names[i];
      assert names[..i + 1] == names[..i] + [name];
      if name !in merged {
        merged := merged[name := defaults[name]];
      }
    }
    assert names[..|names|] == names;
  }

  function Dispatch(st: State, body: Body): State {
    st.(sent := st.sent + [Sent(st.url, st.verb, body, st.headers)])
  }

  /** `retry_error`. */
  function Retry(client: Client, st: State, builds: bool): (State, Verdict) {
    match BodyAgain(st.body)
    case None => (st, Failed)
    case Some(body) =>
      if st.retries >= client.maxRetries then (st, Failed)
      else
        var st' := st.(retries := st.retries + 1);
        if !st.url.isUri || !builds then (st', Failed) else (Dispatch(st', body), Again)
  }

  function AddReferer(client: Client, headers: Headers, next: Url, current: Url, text: Option<string>): Headers {
    if client.referer && text.Some? && !(next.scheme == "http" && current.scheme == "https") then
      headers[Referer := [text.value]]
    else headers
  }

  function AddCookies(client: Client, headers: Headers, cookies: seq<string>): Headers {
    if client.cookieStore && cookies != [] then
      headers[Cookie := (if Cookie in headers then headers[Cookie] else []) + cookies]
    else headers
  }

  /** The part of the loop after a redirect target has been accepted by the policy. */
  function FollowTo(client: Client, st: State, next: Url, o: Outcome): (State, Verdict)
    requires o.Reply?
  {
    if !Supported(client, next) then (st, Failed)
    else
      var headers := AddCookies(client, RemoveSensitive(st.headers, next, st.urls), o.cookies);
      var moved := st.(url := next, headers := headers);
      if !next.isUri || !o.builds then (moved, Failed)
      else
        var body := match st.body case Some(Some(bytes)) => Reusable(bytes) case _ => Empty;
        (Dispatch(moved, body), Again)
  }

  /** What a status does to the stored request, whether or not the redirect is then followed. */
  function Rewrite(st: State, status: nat): State {
    if Rewrites(status) then st.(body := None, headers := st.headers - CONTENT, verb := Rewritten(st.verb)) else st
  }

  /** One turn of the loop in `PendingRequest::poll`. */
  function Step(client: Client, st: State, o: Outcome): (State, Verdict) {
    match o
    case Failure(retryable, builds) => if retryable then Retry(client, st, builds) else (st, Failed)
    case Reply(status, location, answer, refererText, _, _) =>
      var st1 := Rewrite(st, status);
      var redirect := Rewrites(status) || (Repeats(status) && st.body != Some(None));
      if redirect && location.Some? && location.value.isUri then
        var next := location.value;
        var headers := AddReferer(client, st1.headers, next, st.url, refererText);
        var st2 := st1.(headers := headers, urls := st.urls + [st.url]);
        match Check(client.policy, st2.urls, answer)
        case Follow => FollowTo(client, st2, next, o)
        case Stop => (st2, Answered)
        case Error => (st2, Failed)
      else (st1, Answered)
  }

  /** The state after the given outcomes, or at the point where the loop returns. */
  function Run(client: Client, st: State, os: seq<Outcome>): (State, Verdict)
    decreases |os|
  {
    if os == [] then (st, Again)
    else
      var (st', v) := Run(client, st, os[..|os| - 1]);
      if v.Again? then Step(client, st', os[|os| - 1]) else (st', v)
  }

  // ----- How often a request is sent -----

  /** One turn sends at most one request; one that goes on sends it, and counts it as a redirect or as a retry. */
  lemma StepBounds(client: Client, st: State, o: Outcome)
    requires client.policy.Limit?
    ensures var (st', v) := Step(client, st, o);
            if v.Again? then
              && |st'.sent| == |st.sent| + 1
              && if o.Reply? then |st'.urls| == |st.urls| + 1 <= client.policy.max && st'.retries == st.retries
                 else st'.urls == st.urls && st'.retries == st.retries + 1 <= client.maxRetries
            else st'.sent == st.sent
  {
  }

  lemma {:induction false} RunBounds(client: Client, st: State, os: seq<Outcome>)
    requires client.policy.Limit? && st.urls == [] && st.retries == 0
    ensures var (st', v) := Run(client, st, os);
            && |st'.sent| <= |st.sent| + client.policy.max + client.maxRetries
            && (v.Again? ==> |st'.urls| <= client.policy.max && st'.retries <= client.maxRetries
                             && |os| == |st'.urls| + st'.retries && |st'.sent| == |st.sent| + |os|)
  {
    if os == [] {
    } else {
      var before := os[..|os| - 1];
      RunBounds(client, st, before);
      StepBounds(client, Run(client, st, before).0, os[|os| - 1]);
    }
  }

  /** Under a limit, a call sends at most one request, one per redirect and one per retry, and then it is over. */
  lemma SendsAreBounded(client: Client, verb: Method, url: Url, headers: Headers, body: Body, os: seq<Outcome>)
    requires client.policy.Limit? && Execute(client, verb, url, headers, body, true).Some?
    ensures var (st, v) := Run(client, Execute(client, verb, url, headers, body, true).value, os);
            && |st.sent| <= 1 + client.policy.max + client.maxRetries
            && (|os| > client.policy.max + client.maxRetries ==> !v.Again?)
  {
    RunBounds(client, Execute(client, verb, url, headers, body, true).value, os);
  }

  // ----- What is sent -----

  /** A redirect that drops the body (301, 302 or 303) has been followed. */
  predicate BodyDropped(os: seq<Outcome>) {
    exists i :: 0 <= i < |os| && os[i].Reply? && 301 <= os[i].status <= 303
  }

  /** The URLs of the hops: the first one, then the target of every redirect followed. */
  function Hops(url: Url, os: seq<Outcome>): (hops: seq<Url>)
    ensures hops != [] && hops[0] == url
  {
    if os == [] then [url]
    else
      var o := os[|os| - 1];
      Hops(url, os[..|os| - 1]) + if o.Reply? && o.location.Some? then [o.location.value] else []
  }

  /** Some hop went to another host or port. */
  predicate HasCrossed(hops: seq<Url>) {
    exists i :: 0 < i < |hops| && (hops[i].host != hops[i - 1].host || hops[i].port != hops[i - 1].port)
  }

  /** Whether the request still has this header of the original one. */
  predicate StillHas(start: Headers, name: Name, crossed: bool, dropped: bool) {
    name in start && !(name in SENSITIVE && crossed) && !(name in CONTENT && dropped)
  }

  /** What a stored header map must be, given what has happened. */
  ghost predicate HeadersAre(client: Client, start: Headers, headers: Headers, crossed: bool, dropped: bool) {
    forall name: Name ::
      name != Referer && (name == Cookie ==> !client.cookieStore) ==>
        && (name in headers <==> StillHas(start, name, crossed, dropped))
        && (name in headers ==> headers[name] == start[name])
  }

  /** The state after outcomes that all led to another attempt, in terms of the original request alone. */
  ghost predicate Matches(client: Client, start: State, os: seq<Outcome>, st: State) {
    && st.verb == (if BodyDropped(os) then Rewritten(start.verb) else start.verb)
    && st.body == (if BodyDropped(os) then None else start.body)
    && st.urls + [st.url] == Hops(start.url, os)
    && HeadersAre(client, start.headers, st.headers, HasCrossed(Hops(start.url, os)), BodyDropped(os))
    && |st.sent| == 1 + |os|
    && (os != [] ==> st.body != Some(None))
    && Supported(client, st.url) && st.url.isUri
  }

  /** The request that the state stands for; the very first one still has its body, whatever it is. */
  function Request(st: State, body: Body, first: bool): Sent {
    var kept := match st.body case Some(Some(b)) => Reusable(b) case _ => Empty;
    Sent(st.url, st.verb, if first then body else kept, st.headers)
  }

  lemma BodyDroppedStep(os: seq<Outcome>)
    requires os != []
    ensures var o := os[|os| - 1];
            BodyDropped(os) <==> BodyDropped(os[..|os| - 1]) || (o.Reply? && Rewrites(o.status))
  {
    var last := |os| - 1;
    if BodyDropped(os[..last]) {
      var i :| 0 <= i < last && os[..last][i].Reply? && 301 <= os[..last][i].status <= 303;
      assert os[i] == os[..last][i];
    }
    if BodyDropped(os) && !(os[last].Reply? && Rewrites(os[last].status)) {
      var i :| 0 <= i < |os| && os[i].Reply? && 301 <= os[i].status <= 303;
      assert os[..last][i] == os[i];
    }
  }

  lemma CrossedStep(hops: seq<Url>, next: Url)
    requires hops != []
    ensures HasCrossed(hops + [next]) <==> HasCrossed(hops) || Crosses(next, hops[|hops| - 1])
  {
    var all := hops + [next];
    if HasCrossed(hops) {
      var i :| 0 < i < |hops| && (hops[i].host != hops[i - 1].host || hops[i].port != hops[i - 1].port);
      assert all[i] == hops[i] && all[i - 1] == hops[i - 1];
    }
    if Crosses(next, hops[|hops| - 1]) {
      assert all[|hops|] == next && all[|hops| - 1] == hops[|hops| - 1];
    }
    if HasCrossed(all) && !Crosses(next, hops[|hops| - 1]) {
      var i :| 0 < i < |all| && (all[i].host != all[i - 1].host || all[i].port != all[i - 1].port);
      assert all[i] == hops[i] && all[i - 1] == hops[i - 1];
    }
  }

  lemma RetryMatches(client: Client, start: State, os: seq<Outcome>, st: State)
    requires os != [] && os[|os| - 1].Failure?
    requires Matches(client, start, os[..|os| - 1], st) && Step(client, st, os[|os| - 1]).1.Again?
    ensures Matches(client, start, os, Step(client, st, os[|os| - 1]).0)
  {
    BodyDroppedStep(os);
  }

  lemma RemovalsKeepHeaders(client: Client, start: Headers, headers: Headers, crossed: bool, dropped: bool)
    requires HeadersAre(client, start, headers, crossed, dropped)
    ensures HeadersAre(client, start, headers - CONTENT, crossed, true)
    ensures HeadersAre(client, start, headers - SENSITIVE, true, dropped)
  {
  }

  lemma AdditionsKeepHeaders(client: Client, start: Headers, headers: Headers, crossed: bool, dropped: bool,
                             next: Url, current: Url, text: Option<string>, cookies: seq<string>)
    requires HeadersAre(client, start, headers, crossed, dropped)
    ensures HeadersAre(client, start, AddReferer(client, headers, next, current, text), crossed, dropped)
    ensures HeadersAre(client, start, AddCookies(client, headers, cookies), crossed, dropped)
  {
  }

  /** The headers of a request that follows a redirect, from those stored before. */
  function FollowedHeaders(client: Client, headers: Headers, current: Url, next: Url, o: Outcome): Headers
    requires o.Reply?
  {
    var h1 := if Rewrites(o.status) then headers - CONTENT else headers;
    var h2 := AddReferer(client, h1, next, current, o.refererText);
    AddCookies(client, if Crosses(next, current) then h2 - SENSITIVE else h2, o.cookies)
  }

  lemma FollowedHeadersAre(client: Client, start: Headers, headers: Headers, crossed: bool, dropped: bool,
                           current: Url, next: Url, o: Outcome)
    requires o.Reply? && HeadersAre(client, start, headers, crossed, dropped)
    ensures HeadersAre(client, start, FollowedHeaders(client, headers, current, next, o),
                       crossed || Crosses(next, current), dropped || Rewrites(o.status))
  {
    var d := dropped || Rewrites(o.status);
    RemovalsKeepHeaders(client, start, headers, crossed, dropped);
    var h1 := if Rewrites(o.status) then headers - CONTENT else headers;
    AdditionsKeepHeaders(client, start, h1, crossed, d, next, current, o.refererText, o.cookies);
    var h2 := AddReferer(client, h1, next, current, o.refererText);
    RemovalsKeepHeaders(client, start, h2, crossed, d);
    var h3 := if Crosses(next, current) then h2 - SENSITIVE else h2;
    AdditionsKeepHeaders(client, start, h3, crossed || Crosses(next, current), d, next, current, None, o.cookies);
  }

  lemma StepFollows(client: Client, st: State, o: Outcome)
    requires o.Reply? && Step(client, st, o).1.Again?
    ensures o.location.Some?
    ensures Step(client, st, o).0.headers == FollowedHeaders(client, st.headers, st.url, o.location.value, o)
  {
  }

  lemma FollowMatches(client: Client, start: State, os: seq<Outcome>, st: State)
    requires os != [] && os[|os| - 1].Reply?
    requires Matches(client, start, os[..|os| - 1], st) && Step(client, st, os[|os| - 1]).1.Again?
    ensures Matches(client, start, os, Step(client, st, os[|os| - 1]).0)
  {
    var o := os[|os| - 1];
    var before := Hops(start.url, os[..|os| - 1]);
    assert before[|before| - 1] == st.url;
    CrossedStep(before, o.location.value);
    BodyDroppedStep(os);
    StepFollows(client, st, o);
    FollowedHeadersAre(client, start.headers, st.headers, HasCrossed(before), BodyDropped(os[..|os| - 1]),
                       st.url, o.location.value, o);
  }

  lemma StepDispatches(client: Client, st: State, o: Outcome)
    requires Step(client, st, o).1.Again?
    ensures var st' := Step(client, st, o).0; st'.sent == st.sent + [Request(st', Empty, false)]
  {
  }

  lemma {:induction false} RunMatches(client: Client, start: State, os: seq<Outcome>)
    requires Matches(client, start, [], start) && Run(client, start, os).1.Again?
    ensures Matches(client, start, os, Run(client, start, os).0)
    ensures var st := Run(client, start, os).0; os != [] ==> st.sent[|os|] == Request(st, Empty, false)
  {
    if os == [] {
    } else {
      RunMatches(client, start, os[..|os| - 1]);
      var st := Run(client, start, os[..|os| - 1]).0;
      StepDispatches(client, st, os[|os| - 1]);
      if os[|os| - 1].Failure? {
        RetryMatches(client, start, os, st);
      } else {
        FollowMatches(client, start, os, st);
      }
    }
  }

  lemma {:induction false} RunOnlyAppends(client: Client, start: State, os: seq<Outcome>, k: nat)
    requires Run(client, start, os).1.Again? && k <= |os|
    ensures Run(client, start, os[..k]).1.Again?
    ensures Run(client, start, os[..k]).0.sent <= Run(client, start, os).0.sent
    decreases |os|
  {
    if k == |os| {
      assert os[..k] == os;
    } else {
      assert os[..|os| - 1][..k] == os[..k];
      RunOnlyAppends(client, start, os[..|os| - 1], k);
    }
  }

  /** A request as it must be, given the original request and the outcomes seen before it. */
  ghost predicate IsExpected(client: Client, verb: Method, url: Url, headers: Headers, body: Body,
                             seen: seq<Outcome>, r: Sent)
  {
    var hops := Hops(url, seen);
    && r.verb == (if BodyDropped(seen) && verb != GET && verb != HEAD then GET else verb)
    && r.body == (if BodyDropped(seen) then Empty else body)
    && (BodyDropped(seen) ==> {TransferEncoding, ContentEncoding, ContentType, ContentLength} !! r.headers.Keys)
    && (body.Stream? && seen != [] ==> BodyDropped(seen))
    && r.url == hops[|hops| - 1]
    && HeadersAre(client, headers, r.headers, HasCrossed(hops), BodyDropped(seen))
    && (r.url.scheme == "https" || (r.url.scheme == "http" && !client.httpsOnly)) && r.url.isUri
  }

  lemma NoContentLeft(client: Client, start: Headers, headers: Headers, crossed: bool)
    requires HeadersAre(client, start, headers, crossed, true)
    ensures {TransferEncoding, ContentEncoding, ContentType, ContentLength} !! headers.Keys
  {
  }

  lemma MessageIs(client: Client, verb: Method, url: Url, headers: Headers, body: Body,
                  st: State, dropped: bool, first: bool)
    requires Execute(client, verb, url, headers, body, true).Some?
    requires st.verb == if dropped then Rewritten(verb) else verb
    requires st.body == if dropped then None else Execute(client, verb, url, headers, body, true).value.body
    requires if first then !dropped else st.body != Some(None)
    ensures var r := Request(st, body, first);
            && r.verb == (if dropped && verb != GET && verb != HEAD then GET else verb)
            && r.body == (if dropped then Empty else body)
            && (body.Stream? && !first ==> dropped)
  {
  }

  /** A state that matches stands for the expected request. */
  lemma MatchIsExpected(client: Client, verb: Method, url: Url, headers: Headers, body: Body,
                        seen: seq<Outcome>, st: State)
    requires Execute(client, verb, url, headers, body, true).Some?
    requires Matches(client, Execute(client, verb, url, headers, body, true).value, seen, st)
    ensures IsExpected(client, verb, url, headers, body, seen, Request(st, body, seen == []))
  {
    assert Hops(url, seen) == st.urls + [st.url];
    MessageIs(client, verb, url, headers, body, st, BodyDropped(seen), seen == []);
    if BodyDropped(seen) {
      NoContentLeft(client, headers, st.headers, HasCrossed(Hops(url, seen)));
    }
  }

  lemma LatestIsExpected(client: Client, verb: Method, url: Url, headers: Headers, body: Body, seen: seq<Outcome>)
    requires Execute(client, verb, url, headers, body, true).Some?
    requires Run(client, Execute(client, verb, url, headers, body, true).value, seen).1.Again?
    ensures var sent := Run(client, Execute(client, verb, url, headers, body, true).value, seen).0.sent;
            |sent| == |seen| + 1 && IsExpected(client, verb, url, headers, body, seen, sent[|seen|])
  {
    var start := Execute(client, verb, url, headers, body, true).value;
    assert Matches(client, start, [], start);
    RunMatches(client, start, seen);
    MatchIsExpected(client, verb, url, headers, body, seen, Run(client, start, seen).0);
  }

  /** The turn that ends a run sends nothing: all requests were sent in a part of it that went on. */
  lemma {:induction false} SentBeforeTheEnd(client: Client, start: State, os: seq<Outcome>) returns (j: nat)
    ensures j <= |os| && Run(client, start, os[..j]).1.Again?
    ensures Run(client, start, os[..j]).0.sent == Run(client, start, os).0.sent
    decreases |os|
  {
    if Run(client, start, os).1.Again? {
      j := |os|;
      assert os[..j] == os;
    } else {
      var before := os[..|os| - 1];
      j := SentBeforeTheEnd(client, start, before);
      assert before[..j] == os[..j];
    }
  }

  /** Every request of every run, described by the original request and the outcomes before it:
      its method, body, URL and headers, and the schemes that `https_only` allows. */
  lemma EveryRequestIsExpected(client: Client, verb: Method, url: Url, headers: Headers, body: Body,
                               os: seq<Outcome>, k: nat)
    requires Execute(client, verb, url, headers, body, true).Some?
    requires k < |Run(client, Execute(client, verb, url, headers, body, true).value, os).0.sent|
    ensures var sent := Run(client, Execute(client, verb, url, headers, body, true).value, os).0.sent;
            k <= |os| && IsExpected(client, verb, url, headers, body, os[..k], sent[k])
  {
    var start := Execute(client, verb, url, headers, body, true).value;
    var j := SentBeforeTheEnd(client, start, os);
    LatestIsExpected(client, verb, url, headers, body, os[..j]);
    RunOnlyAppends(client, start, os[..j], k);
    assert os[..j][..k] == os[..k];
    LatestIsExpected(client, verb, url, headers, body, os[..k]);
  }

  /** The list of earlier URLs is the ordered list of the hops before the current one, whenever it is consulted. */
  lemma UrlsAreEarlierHops(client: Client, verb: Method, url: Url, headers: Headers, body: Body, os: seq<Outcome>)
    requires Execute(client, verb, url, headers, body, true).Some?
    requires Run(client, Execute(client, verb, url, headers, body, true).value, os).1.Again?
    ensures var st := Run(client, Execute(client, verb, url, headers, body, true).value, os).0;
            st.urls + [st.url] == Hops(url, os)
  {
    RunMatches(client, Execute(client, verb, url, headers, body, true).value, os);
  }

  /** Once some hop has changed host or port, the credentials are gone from every later request. */
  lemma CredentialsStayBehind(client: Client, verb: Method, url: Url, headers: Headers, body: Body,
                              os: seq<Outcome>, k: nat, name: Name)
    requires Execute(client, verb, url, headers, body, true).Some?
    requires k < |Run(client, Execute(client, verb, url, headers, body, true).value, os).0.sent|
    requires || name in {Authorization, ProxyAuthorization, WwwAuthenticate, Cookie2}
             || (name == Cookie && !client.cookieStore)
    ensures var r := Run(client, Execute(client, verb, url, headers, body, true).value, os).0.sent[k];
            k <= |os| && (name in r.headers <==> name in headers && !HasCrossed(Hops(url, os[..k])))
  {
    EveryRequestIsExpected(client, verb, url, headers, body, os, k);
    var r := Run(client, Execute(client, verb, url, headers, body, true).value, os).0.sent[k];
    StillHasSensitive(client, headers, r.headers, HasCrossed(Hops(url, os[..k])), BodyDropped(os[..k]), name);
  }

  lemma StillHasSensitive(client: Client, start: Headers, headers: Headers, crossed: bool, dropped: bool, name: Name)
    requires HeadersAre(client, start, headers, crossed, dropped)
    requires name in SENSITIVE && (name == Cookie ==> !client.cookieStore)
    ensures name in headers <==> name in start && !crossed
  {
  }

  /** Every header but Referer (and Cookie under a store): it is on a request exactly if the original request had it
      and nothing has happened that takes it away, and then with the original values. */
  lemma HeaderIsKeptIff(client: Client, verb: Method, url: Url, headers: Headers, body: Body,
                        os: seq<Outcome>, k: nat, name: Name)
    requires Execute(client, verb, url, headers, body, true).Some?
    requires k < |Run(client, Execute(client, verb, url, headers, body, true).value, os).0.sent|
    requires name != Referer && (name == Cookie ==> !client.cookieStore)
    ensures var r := Run(client, Execute(client, verb, url, headers, body, true).value, os).0.sent[k];
            && k <= |os|
            && KeptIff(headers, r.headers, name, HasCrossed(Hops(url, os[..k])), BodyDropped(os[..k]))
  {
    EveryRequestIsExpected(client, verb, url, headers, body, os, k);
    var r := Run(client, Execute(client, verb, url, headers, body, true).value, os).0.sent[k];
    KeptIs(client, headers, r.headers, HasCrossed(Hops(url, os[..k])), BodyDropped(os[..k]), name);
  }

  /** The header is there exactly if it was and is neither a secret taken across hosts nor about a dropped body. */
  predicate KeptIff(start: Headers, headers: Headers, name: Name, crossed: bool, dropped: bool) {
    var secret := name in {Authorization, Cookie, Cookie2, ProxyAuthorization, WwwAuthenticate};
    var content := name in {TransferEncoding, ContentEncoding, ContentType, ContentLength};
    && (name in headers <==> name in start && !(secret && crossed) && !(content && dropped))
    && (name in headers ==> headers[name] == start[name])
  }

  lemma KeptIs(client: Client, start: Headers, headers: Headers, crossed: bool, dropped: bool, name: Name)
    requires HeadersAre(client, start, headers, crossed, dropped)
    requires name != Referer && (name == Cookie ==> !client.cookieStore)
    ensures KeptIff(start, headers, name, crossed, dropped)
  {
  }

  // ----- When the loop goes on -----

  /** A request is dispatched at all exactly if its URL has a scheme that the client allows and it can be built. */
  lemma ExecutedIff(client: Client, verb: Method, url: Url, headers: Headers, body: Body, builds: bool)
    ensures Execute(client, verb, url, headers, body, builds).Some? <==> Reachable(client, url) && builds
  {
  }

  predicate Reachable(client: Client, url: Url) {
    url.isUri && (url.scheme == "https" || (url.scheme == "http" && !client.httpsOnly))
  }

  /** How many of the attempts failed. */
  function Failures(os: seq<Outcome>): (n: nat)
    ensures n <= |os|
  {
    if os == [] then 0 else Failures(os[..|os| - 1]) + if os[|os| - 1].Failure? then 1 else 0
  }

  lemma {:induction false} CountersAre(client: Client, start: State, os: seq<Outcome>)
    requires start.urls == [] && start.retries == 0 && Run(client, start, os).1.Again?
    ensures var st := Run(client, start, os).0;
            st.retries == Failures(os) && |st.urls| == |os| - Failures(os)
  {
    if os == [] {
    } else {
      CountersAre(client, start, os[..|os| - 1]);
      CounterStep(client, Run(client, start, os[..|os| - 1]).0, os[|os| - 1]);
    }
  }

  lemma CounterStep(client: Client, st: State, o: Outcome)
    requires Step(client, st, o).1.Again?
    ensures var st' := Step(client, st, o).0;
            && st'.retries == st.retries + (if o.Failure? then 1 else 0)
            && |st'.urls| == |st.urls| + (if o.Failure? then 0 else 1)
  {
  }

  /** The body can be sent again: it is not a stream, or it has been dropped. */
  predicate Repeatable(body: Body, os: seq<Outcome>) {
    !body.Stream? || BodyDropped(os)
  }

  /** The reply asks for a redirect that can be made: section 15.4 of RFC 9110. */
  predicate AsksRedirect(o: Outcome, repeatable: bool)
    requires o.Reply?
  {
    && (o.status in {301, 302, 303} || (o.status in {307, 308} && repeatable))
    && o.location.Some? && o.location.value.isUri
  }

  /** What the policy says of a redirect after `taken` others. */
  predicate Permits(client: Client, taken: nat, answer: Action) {
    match client.policy
    case Limit(max) => taken < max
    case NoRedirects => false
    case Custom => answer == Follow
  }

  predicate Forbids(client: Client, taken: nat, answer: Action) {
    match client.policy
    case Limit(max) => taken >= max
    case NoRedirects => false
    case Custom => answer == Error
  }

  lemma StepOnReply(client: Client, st: State, o: Outcome)
    requires o.Reply?
    ensures var v := Step(client, st, o).1;
            var asks := AsksRedirect(o, st.body != Some(None));
            var good := asks && Reachable(client, o.location.value) && o.builds;
            && (v.Again? <==> good && Permits(client, |st.urls|, o.answer))
            && (v.Failed? <==> asks && (Forbids(client, |st.urls|, o.answer)
                                        || (Permits(client, |st.urls|, o.answer) && !good)))
  {
  }

  lemma RunSnoc(client: Client, start: State, os: seq<Outcome>, o: Outcome)
    requires Run(client, start, os).1.Again?
    ensures Run(client, start, os + [o]) == Step(client, Run(client, start, os).0, o)
  {
    assert (os + [o])[..|os|] == os;
  }

  /** What is known of the state after outcomes that all led on. */
  lemma StateIs(client: Client, verb: Method, url: Url, headers: Headers, body: Body, os: seq<Outcome>)
    requires Execute(client, verb, url, headers, body, true).Some?
    requires Run(client, Execute(client, verb, url, headers, body, true).value, os).1.Again?
    ensures var st := Run(client, Execute(client, verb, url, headers, body, true).value, os).0;
            && st.retries == Failures(os) && |st.urls| == |os| - Failures(os) && st.url.isUri
            && (st.body == Some(None) <==> !Repeatable(body, os))
            && st.sent != [] && st.sent[|st.sent| - 1].headers == st.headers && st.sent[|st.sent| - 1].url == st.url
  {
    var start := Execute(client, verb, url, headers, body, true).value;
    RunMatches(client, start, os);
    CountersAre(client, start, os);
  }

  /** What a reply leads to, in every run: another request exactly if it asks for a redirect that the policy permits,
      to a URL with an allowed scheme, and the request builds; an error exactly if it asks for one and the policy
      forbids it or the request cannot be made; and otherwise the reply itself. */
  lemma ReplyVerdict(client: Client, verb: Method, url: Url, headers: Headers, body: Body, os: seq<Outcome>, o: Outcome)
    requires Execute(client, verb, url, headers, body, true).Some? && o.Reply?
    requires Run(client, Execute(client, verb, url, headers, body, true).value, os).1.Again?
    ensures var v := Run(client, Execute(client, verb, url, headers, body, true).value, os + [o]).1;
            var taken := |os| - Failures(os);
            var asks := AsksRedirect(o, Repeatable(body, os));
            var good := asks && Reachable(client, o.location.value) && o.builds;
            && (v.Again? <==> good && Permits(client, taken, o.answer))
            && (v.Failed? <==> asks && (Forbids(client, taken, o.answer)
                                        || (Permits(client, taken, o.answer) && !good)))
  {
    var start := Execute(client, verb, url, headers, body, true).value;
    StateIs(client, verb, url, headers, body, os);
    RunSnoc(client, start, os, o);
    StepOnReply(client, Run(client, start, os).0, o);
  }

  /** What a failure leads to, in every run: another attempt exactly if it may be retried, the body can be sent again,
      retries are left and the request builds; and otherwise the error. */
  lemma FailureVerdict(client: Client, verb: Method, url: Url, headers: Headers, body: Body,
                       os: seq<Outcome>, o: Outcome)
    requires Execute(client, verb, url, headers, body, true).Some? && o.Failure?
    requires Run(client, Execute(client, verb, url, headers, body, true).value, os).1.Again?
    ensures var v := Run(client, Execute(client, verb, url, headers, body, true).value, os + [o]).1;
            && (v.Again? <==> o.retryable && Repeatable(body, os) && Failures(os) < client.maxRetries && o.builds)
            && !v.Answered?
  {
    var start := Execute(client, verb, url, headers, body, true).value;
    StateIs(client, verb, url, headers, body, os);
    RunSnoc(client, start, os, o);
  }

  /** Without redirects every reply is the answer, and all requests go to the original URL. */
  lemma NoRedirectsAnswersAtOnce(client: Client, verb: Method, url: Url, headers: Headers, body: Body,
                                 os: seq<Outcome>, o: Outcome)
    requires Execute(client, verb, url, headers, body, true).Some? && client.policy.NoRedirects?
    requires Run(client, Execute(client, verb, url, headers, body, true).value, os).1.Again?
    ensures Failures(os) == |os| <= client.maxRetries
    ensures o.Reply? ==> Run(client, Execute(client, verb, url, headers, body, true).value, os + [o]).1.Answered?
  {
    if o.Reply? {
      ReplyVerdict(client, verb, url, headers, body, os, o);
    }
    NobodyFollows(client, Execute(client, verb, url, headers, body, true).value, os);
  }

  lemma {:induction false} NobodyFollows(client: Client, start: State, os: seq<Outcome>)
    requires client.policy.NoRedirects? && start.urls == [] && start.retries == 0 && Run(client, start, os).1.Again?
    ensures Failures(os) == |os| <= client.maxRetries
  {
    if os == [] {
    } else {
      var before, o := os[..|os| - 1], os[|os| - 1];
      NobodyFollows(client, start, before);
      CountersAre(client, start, before);
      if o.Reply? {
        StepOnReply(client, Run(client, start, before).0, o);
      }
    }
  }

  /** From one request to the next. A retry has the same headers. A redirect has a new Referer if the client wants one,
      there is a text for it and the hop does not go from https to http; and under a cookie store it has the
      cookies for the new URL behind those that were kept. */
  lemma NextHeaders(client: Client, verb: Method, url: Url, headers: Headers, body: Body, os: seq<Outcome>, o: Outcome)
    requires Execute(client, verb, url, headers, body, true).Some?
    requires Run(client, Execute(client, verb, url, headers, body, true).value, os).1.Again?
    requires Run(client, Execute(client, verb, url, headers, body, true).value, os + [o]).1.Again?
    ensures var sent := Run(client, Execute(client, verb, url, headers, body, true).value, os + [o]).0.sent;
            && |sent| >= 2
            && var r, next := sent[|sent| - 2], sent[|sent| - 1];
               if o.Failure? then next.headers == r.headers else HopHeaders(client, r, next, o)
  {
    var start := Execute(client, verb, url, headers, body, true).value;
    var st := Run(client, start, os).0;
    StateIs(client, verb, url, headers, body, os);
    StateIs(client, verb, url, headers, body, os + [o]);
    RunSnoc(client, start, os, o);
    StepDispatches(client, st, o);
    if o.Reply? {
      var sent := Run(client, start, os + [o]).0.sent;
      StepHeaders(client, st, o, sent[|sent| - 2], sent[|sent| - 1]);
    }
  }

  function Values(headers: Headers, name: Name): seq<string> {
    if name in headers then headers[name] else []
  }

  predicate HopHeaders(client: Client, r: Sent, next: Sent, o: Outcome)
    requires o.Reply?
  {
    var renewed := client.referer && o.refererText.Some? && !(r.url.scheme == "https" && next.url.scheme == "http");
    var left := if next.url.host != r.url.host || next.url.port != r.url.port then [] else Values(r.headers, Cookie);
    && Values(next.headers, Referer) == (if renewed then [o.refererText.value] else Values(r.headers, Referer))
    && (client.cookieStore ==> Values(next.headers, Cookie) == left + o.cookies)
  }

  lemma StepHeaders(client: Client, st: State, o: Outcome, r: Sent, next: Sent)
    requires o.Reply? && Step(client, st, o).1.Again?
    requires r.headers == st.headers && r.url == st.url
    requires next.headers == Step(client, st, o).0.headers && next.url == Step(client, st, o).0.url
    ensures HopHeaders(client, r, next, o)
  {
    StepFollows(client, st, o);
  }

  /** The loop itself, with the fields that it updates. */
  class PendingRequest {
    var verb: Method
    var url: Url
    var headers: Headers
    var body: Option<Option<Bytes>>
    var urls: seq<Url>
    var retries: nat
    var sent: seq<Sent>

    constructor (st: State)
      ensures Value() == st
    {
      verb, url, headers, body := st.verb, st.url, st.headers, st.body;
      urls, retries, sent := st.urls, st.retries, st.sent;
    }

    function Value(): State
      reads this
    {
      State(verb, url, headers, body, urls, retries, sent)
    }

    /** `retry_error`. */
    method RetryError(client: Client, builds: bool) returns (again: bool)
      modifies this`retries, this`sent
      ensures (Value(), if again then Again else Failed) == Retry(client, old(Value()), builds)
    {
      var again' := BodyAgain(body);
      if again'.None? || retries >= client.maxRetries {
        return false;
      }
      retries := retries + 1;
      if !url.isUri || !builds {
        return false;
      }
      sent := sent + [Sent(url, verb, again'.value, headers)];
      again := true;
    }

    /** The handling of a response in `poll`: returned, or followed to another request. */
    method OnReply(client: Client, o: Outcome) returns (v: Verdict)
      requires o.Reply?
      modifies this
      ensures (Value(), v) == Step(client, old(Value()), o)
    {
      var redirect := false;
      if Rewrites(o.status) {
        body := None;
        headers := headers - CONTENT;
        verb := Rewritten(verb);
        redirect := true;
      } else if Repeats(o.status) {
        redirect := body != Some(None);
      }
      if !redirect || o.location.None? || !o.location.value.isUri {
        return Answered;
      }
      var next := o.location.value;
      headers := AddReferer(client, headers, next, url, o.refererText);
      urls := urls + [url];
      var action := Check(client.policy, urls, o.answer);
      if action.Stop? {
        return Answered;
      }
      if action.Error? || !Supported(client, next) {
        return Failed;
      }
      url := next;
      headers := AddCookies(client, RemoveSensitive(headers, url, urls), o.cookies);
      if !url.isUri || !o.builds {
        return Failed;
      }
      var kept := if body.Some? && body.value.Some? then Reusable(body.value.value) else Empty;
      sent := sent + [Sent(url, verb, kept, headers)];
      v := Again;
    }

    /** `poll`: consumes outcomes until it returns or none is ready. */
    method Poll(client: Client, os: seq<Outcome>) returns (v: Verdict)
      modifies this
      ensures (Value(), v) == Run(client, old(Value()), os)
    {
      v := Again;
      var i := 0;
      while i < |os| && v.Again?
        invariant 0 <= i <= |os|
        invariant (Value(), v) == Run(client, old(Value()), os[..i])
      {
        var o := os[i];
        assert os[..i + 1][..i] == os[..i];
        i := i + 1;
        if o.Reply? {
          v := OnReply(client, o);
        } else {
          v := Failed;
          if o.retryable {
            var again := RetryError(client, o.builds);
            v := if again then Again else Failed;
          }
        }
      }
      RunStops(client, old(Value()), os, i);
    }
  }

  /** Once the loop has returned, later outcomes change nothing. */
  lemma {:induction false} RunStops(client: Client, st: State, os: seq<Outcome>, i: nat)
    requires i <= |os| && (i < |os| ==> !Run(client, st, os[..i]).1.Again?)
    ensures Run(client, st, os) == Run(client, st, os[..i])
    decreases |os|
  {
    if i == |os| {
      assert os[..i] == os;
    } else {
      assert os[..|os| - 1][..i] == os[..i];
      RunStops(client, st, os[..|os| - 1], i);
    }
  }
}
