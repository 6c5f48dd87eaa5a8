/**
 Sending one request over pooled connections, with retries, as in
 src/core/client/mod.rs: the request is rewritten in place for the connection at
 hand, and comes back rewritten when an attempt fails before it was sent.
 */
module SendRequest {
  import opened Wrappers

  datatype Authority = Authority(host: string, port: Option<nat>)

  /** `path` is the path with its query; it is empty when there is none. */
  datatype Uri = Uri(scheme: Option<string>, authority: Option<Authority>, path: string)

  datatype HostValue = Original(text: string) | FromUri(host: string, port: Option<nat>)

  /** What the retry loop looks at or changes; `id` stands for everything else. */
  datatype Request = Request(id: nat, connect: bool, wantsH2: bool, uri: Uri, host: Option<HostValue>)

  datatype Kind = Http1(proxied: bool) | Http2

  /** How an attempt ends. `Returned`: the request came back because it was never sent. */
  datatype Result = Responded | Lost | Returned

  datatype Attempt = NoConnection | Over(kind: Kind, reused: bool, result: Result)

  datatype Config = Config(retry: bool, setHost: bool)

  datatype Verdict = Again | Ok | Err

  // ----- URIs -----

  predicate Absolute(uri: Uri) {
    uri.scheme.Some? && uri.authority.Some?
  }

  function SetScheme(uri: Uri, scheme: string): Uri {
    Uri(Some(scheme), uri.authority, "/")
  }

  /** The rewriting in `Dst::new`; `None` refuses the request. */
  function MakeAbsolute(uri: Uri, connect: bool): (r: Option<Uri>)
    ensures r.Some? ==> Absolute(r.value) && r.value.authority == uri.authority
    ensures r.None? <==> uri.authority.None? || (uri.scheme.None? && !connect)
    ensures r.Some? && uri.scheme.Some? ==> r.value == uri
    ensures r.Some? && uri.scheme.None? ==>
              && r.value.path == "/"
              && r.value.scheme == Some(if uri.authority.value.port == Some(443) then "https" else "http")
  {
    if Absolute(uri) then Some(uri)
    else if uri.authority.Some? && connect then
      Some(SetScheme(uri, if uri.authority.value.port == Some(443) then "https" else "http"))
    else None
  }

  function OriginForm(uri: Uri): Uri {
    Uri(None, None, if uri.path == "" then "/" else uri.path)
  }

  function AbsoluteForm(uri: Uri): Uri
    requires Absolute(uri)
  {
    if uri.scheme == Some("https") then OriginForm(uri) else uri
  }

  function AuthorityForm(uri: Uri): Uri
    requires uri.authority.Some?
  {
    Uri(None, uri.authority, "")
  }

  predicate Secure(uri: Uri) {
    uri.scheme == Some("https") || uri.scheme == Some("wss")
  }

  function NonDefaultPort(uri: Uri): Option<nat>
    requires uri.authority.Some?
  {
    var port := uri.authority.value.port;
    if (port == Some(443) && Secure(uri)) || (port == Some(80) && !Secure(uri)) then None else port
  }

  // ----- One attempt -----

  function Target(req: Request, proxied: bool): Uri
    requires Absolute(req.uri)
  {
    if req.connect then AuthorityForm(req.uri)
    else if proxied then AbsoluteForm(req.uri)
    else OriginForm(req.uri)
  }

  function HostOf(req: Request): HostValue
    requires Absolute(req.uri)
  {
    if req.host.Some? then req.host.value else FromUri(req.uri.authority.value.host, NonDefaultPort(req.uri))
  }

  /** The request as an attempt hands it to the connection. The host and the authority are there
      because the URI is absolute, so neither `expect` nor `unreachable!` is reached. */
  function Prepare(cfg: Config, req: Request, kind: Kind): Request
    requires Absolute(req.uri)
  {
    match kind
    case Http1(proxied) =>
      req.(host := if cfg.setHost then Some(HostOf(req)) else req.host, uri := Target(req, proxied))
    case Http2 => req
  }

  predicate Refused(req: Request, a: Attempt) {
    a.NoConnection? || (a.kind.Http1? && req.wantsH2)
  }

  /** The loop of `send_request`: the request as it stands, what has been sent, and the outcome. */
  datatype State = State(req: Request, sent: seq<Request>, verdict: Verdict)

  /** `try_send_request` and what `send_request` makes of it. */
  function Step(cfg: Config, st: State, uri: Uri, a: Attempt): State
    requires Absolute(st.req.uri)
  {
    if Refused(st.req, a) then st.(verdict := Err)
    else
      var prepared := Prepare(cfg, st.req, a.kind);
      var st' := State(prepared, st.sent + [prepared], Again);
      match a.result
      case Responded => st'.(verdict := Ok)
      case Lost => st'.(verdict := Err)
      case Returned => if !cfg.retry || !a.reused then st'.(verdict := Err) else st'.(req := prepared.(uri := uri))
  }

  /** The state after the given attempts; a verdict ends the loop. */
  function Run(cfg: Config, req: Request, attempts: seq<Attempt>): (st: State)
    requires Absolute(req.uri)
    ensures st.verdict.Again? ==> st.req.uri == req.uri
    decreases |attempts|
  {
    if attempts == [] then State(req, [], Again)
    else
      var st := Run(cfg, req, attempts[..|attempts| - 1]);
      if st.verdict.Again? then Step(cfg, st, req.uri, attempts[|attempts| - 1]) else st
  }

  // ----- What holds of every run -----

  /** The request between two attempts is the original one, but for a Host header that an attempt has set. */
  lemma {:induction false} RunKeepsRequest(cfg: Config, req: Request, attempts: seq<Attempt>)
    requires Absolute(req.uri)
    ensures var st := Run(cfg, req, attempts);
            && (st.verdict.Again? ==>
                  && |st.sent| == |attempts|
                  && (st.req == req || (cfg.setHost && st.req == req.(host := Some(HostOf(req))))))
            && |st.sent| <= |attempts|
  {
    if attempts == [] {
    } else {
      RunKeepsRequest(cfg, req, attempts[..|attempts| - 1]);
    }
  }

  lemma {:induction false} RunOnlyAppends(cfg: Config, req: Request, attempts: seq<Attempt>, k: nat)
    requires Absolute(req.uri) && k <= |attempts|
    ensures Run(cfg, req, attempts[..k]).sent <= Run(cfg, req, attempts).sent
    ensures !Run(cfg, req, attempts[..k]).verdict.Again? ==> Run(cfg, req, attempts) == Run(cfg, req, attempts[..k])
    decreases |attempts|
  {
    if k == |attempts| {
      assert attempts[..k] == attempts;
    } else {
      assert attempts[..|attempts| - 1][..k] == attempts[..k];
      RunOnlyAppends(cfg, req, attempts[..|attempts| - 1], k);
    }
  }

  /** What goes out: over HTTP/1 what would be prepared from the original request, over HTTP/2 the original
      request itself, but for a Host header set before. */
  predicate SentAs(cfg: Config, req: Request, kind: Kind, sent: Request)
    requires Absolute(req.uri)
  {
    if kind.Http1? then sent == Prepare(cfg, req, kind)
    else sent.(host := req.host) == req && (sent.host == req.host || sent.host == Some(HostOf(req)))
  }

  lemma StepSends(cfg: Config, req: Request, st: State, a: Attempt)
    requires Absolute(req.uri) && (st.req == req || (cfg.setHost && st.req == req.(host := Some(HostOf(req)))))
    ensures var st' := Step(cfg, st, req.uri, a);
            if Refused(st.req, a) then st' == st.(verdict := Err)
            else |st'.sent| == |st.sent| + 1 && SentAs(cfg, req, a.kind, st'.sent[|st.sent|])
  {
  }

  lemma LastAttemptSends(cfg: Config, req: Request, attempts: seq<Attempt>)
    requires Absolute(req.uri) && attempts != [] && Run(cfg, req, attempts[..|attempts| - 1]).verdict.Again?
    ensures var st, a := Run(cfg, req, attempts), attempts[|attempts| - 1];
            if |st.sent| == |attempts| then a.Over? && SentAs(cfg, req, a.kind, st.sent[|attempts| - 1])
            else |st.sent| < |attempts| && st.verdict.Err?
  {
    var before := attempts[..|attempts| - 1];
    RunKeepsRequest(cfg, req, before);
    StepSends(cfg, req, Run(cfg, req, before), attempts[|attempts| - 1]);
  }

  /** Reaching a request number `k` means that the loop went on `k` times. */
  lemma WentOn(cfg: Config, req: Request, attempts: seq<Attempt>, k: nat)
    requires Absolute(req.uri) && k < |Run(cfg, req, attempts).sent|
    ensures k < |attempts| && Run(cfg, req, attempts[..k]).verdict.Again?
  {
    RunKeepsRequest(cfg, req, attempts);
    RunKeepsRequest(cfg, req, attempts[..k]);
    RunOnlyAppends(cfg, req, attempts, k);
  }

  /** What attempt `k` has sent is not touched by what follows it. */
  lemma SentEarly(cfg: Config, req: Request, attempts: seq<Attempt>, k: nat)
    requires Absolute(req.uri) && k < |attempts| && k < |Run(cfg, req, attempts).sent|
    ensures var sent := Run(cfg, req, attempts[..k + 1]).sent;
            |sent| == k + 1 && sent[k] == Run(cfg, req, attempts).sent[k]
  {
    WentOn(cfg, req, attempts, k);
    var upto := attempts[..k + 1];
    assert upto[..k] == attempts[..k];
    RunKeepsRequest(cfg, req, upto);
    RunOnlyAppends(cfg, req, attempts, k + 1);
    LastAttemptSends(cfg, req, upto);
  }

  lemma AttemptIsAlike(cfg: Config, req: Request, attempts: seq<Attempt>, k: nat)
    requires Absolute(req.uri) && k < |attempts| && k < |Run(cfg, req, attempts).sent|
    ensures attempts[k].Over? && SentAs(cfg, req, attempts[k].kind, Run(cfg, req, attempts).sent[k])
  {
    WentOn(cfg, req, attempts, k);
    SentEarly(cfg, req, attempts, k);
    var upto := attempts[..k + 1];
    assert upto[..k] == attempts[..k];
    LastAttemptSends(cfg, req, upto);
  }

  /** A request is sent again only if it came back from a reused connection and retries are on;
      and every attempt over HTTP/1 prepares what the first one would have prepared. */
  lemma EveryAttemptIsAlike(cfg: Config, req: Request, attempts: seq<Attempt>, k: nat)
    requires Absolute(req.uri) && k < |Run(cfg, req, attempts).sent|
    ensures k < |attempts| && attempts[k].Over?
    ensures SentAs(cfg, req, attempts[k].kind, Run(cfg, req, attempts).sent[k])
    ensures forall i :: 0 <= i < k ==> CameBack(cfg, attempts[i])
  {
    WentOn(cfg, req, attempts, k);
    AttemptIsAlike(cfg, req, attempts, k);
    AgainMeansReturned(cfg, req, attempts[..k]);
    forall i | 0 <= i < k ensures CameBack(cfg, attempts[i]) { assert attempts[i] == attempts[..k][i]; }
  }

  /** An attempt that returned its request from a reused connection, with retries on. */
  predicate CameBack(cfg: Config, a: Attempt) {
    a.Over? && a.result.Returned? && a.reused && cfg.retry
  }

  lemma {:induction false} AgainMeansReturned(cfg: Config, req: Request, attempts: seq<Attempt>)
    requires Absolute(req.uri) && Run(cfg, req, attempts).verdict.Again?
    ensures forall i :: 0 <= i < |attempts| ==> CameBack(cfg, attempts[i])
  {
    if attempts == [] {
    } else {
      AgainMeansReturned(cfg, req, attempts[..|attempts| - 1]);
      forall i | 0 <= i < |attempts| - 1 ensures attempts[i] == attempts[..|attempts| - 1][i] {}
    }
  }

  /** No connection, or one that cannot carry what the request asks for. */
  predicate Unsendable(req: Request, a: Attempt) {
    a.NoConnection? || (!a.kind.Http2? && req.wantsH2)
  }

  /** Whether the loop goes on behind this attempt. */
  predicate GoesOn(cfg: Config, req: Request, a: Attempt) {
    CameBack(cfg, a) && !Unsendable(req, a)
  }

  lemma AttemptVerdict(cfg: Config, req: Request, st: State, a: Attempt)
    requires Absolute(st.req.uri) && st.req.wantsH2 == req.wantsH2 && st.verdict.Again?
    ensures var st' := Step(cfg, st, st.req.uri, a);
            && (st'.verdict.Again? <==> GoesOn(cfg, req, a))
            && (st'.verdict.Ok? <==> !Unsendable(req, a) && a.result.Responded?)
            && |st'.sent| == |st.sent| + (if Unsendable(req, a) then 0 else 1)
  {
  }

  lemma {:induction false} AllGoOn(cfg: Config, req: Request, attempts: seq<Attempt>)
    requires Absolute(req.uri) && forall i :: 0 <= i < |attempts| ==> GoesOn(cfg, req, attempts[i])
    ensures Run(cfg, req, attempts).verdict.Again? && |Run(cfg, req, attempts).sent| == |attempts|
  {
    if attempts == [] {
    } else {
      var before := attempts[..|attempts| - 1];
      AllGoOn(cfg, req, before);
      RunKeepsRequest(cfg, req, before);
      AttemptVerdict(cfg, req, Run(cfg, req, before), attempts[|attempts| - 1]);
    }
  }

  /** While every attempt returns its request from a reused connection with retries on, the request is sent again and
      again. The first attempt that does not decides: a response is returned as such, anything else is an error; and
      it counts as sent unless it had no connection fit for it. What comes later does not matter. */
  lemma VerdictIs(cfg: Config, req: Request, attempts: seq<Attempt>, k: nat)
    requires Absolute(req.uri) && k <= |attempts|
    requires forall i :: 0 <= i < k ==> GoesOn(cfg, req, attempts[i])
    requires k < |attempts| ==> !GoesOn(cfg, req, attempts[k])
    ensures var st := Run(cfg, req, attempts);
            if k == |attempts| then st.verdict.Again? && |st.sent| == k
            else
              && st.verdict == (if !Unsendable(req, attempts[k]) && attempts[k].result.Responded? then Ok else Err)
              && |st.sent| == k + (if Unsendable(req, attempts[k]) then 0 else 1)
  {
    if k == |attempts| {
      AllGoOn(cfg, req, attempts);
    } else {
      var upto := attempts[..k + 1];
      LastDecides(cfg, req, upto);
      RunOnlyAppends(cfg, req, attempts, k + 1);
    }
  }

  lemma LastDecides(cfg: Config, req: Request, attempts: seq<Attempt>)
    requires Absolute(req.uri) && attempts != []
    requires forall i :: 0 <= i < |attempts| - 1 ==> GoesOn(cfg, req, attempts[i])
    requires !GoesOn(cfg, req, attempts[|attempts| - 1])
    ensures var st, a := Run(cfg, req, attempts), attempts[|attempts| - 1];
            && st.verdict == (if !Unsendable(req, a) && a.result.Responded? then Ok else Err)
            && |st.sent| == |attempts| - (if Unsendable(req, a) then 1 else 0)
  {
    var before := attempts[..|attempts| - 1];
    AllGoOn(cfg, req, before);
    RunKeepsRequest(cfg, req, before);
    AttemptVerdict(cfg, req, Run(cfg, req, before), attempts[|attempts| - 1]);
  }

  /** The target has the form that section 3.2 of RFC 9112 asks for: the authority alone for CONNECT, the whole URI for
      a request to a proxy that is not https, and otherwise the path with its query, which is never empty. */
  lemma TargetForms(cfg: Config, req: Request, proxied: bool)
    requires Absolute(req.uri)
    ensures var t := Prepare(cfg, req, Http1(proxied)).uri;
            && (req.connect <==> t.scheme.None? && t.authority.Some?)
            && (req.connect ==> t.authority == req.uri.authority && t.path == "")
            && (!req.connect && proxied && req.uri.scheme != Some("https") <==> Absolute(t))
            && (Absolute(t) ==> t == req.uri)
            && (t.authority.None? ==> t.scheme.None? && t.path == if req.uri.path == "" then "/" else req.uri.path)
    ensures Prepare(cfg, req, Http2) == req
  {
  }

  /** The Host header is the caller's own, or names the authority with its port unless that is the scheme's default;
      it is left alone if the client does not set it. Nothing else of the request changes but the target. */
  lemma HostNamesTheAuthority(cfg: Config, req: Request, proxied: bool)
    requires Absolute(req.uri)
    ensures var sent := Prepare(cfg, req, Http1(proxied));
            var auth, secure := req.uri.authority.value, req.uri.scheme.value in {"https", "wss"};
            && sent.(host := req.host, uri := req.uri) == req
            && (req.host.Some? || !cfg.setHost ==> sent.host == req.host)
            && (req.host.None? && cfg.setHost ==>
                  && sent.host.Some? && sent.host.value.FromUri? && sent.host.value.host == auth.host
                  && (sent.host.value.port.None? <==> auth.port in {None, Some(if secure then 443 else 80)})
                  && (sent.host.value.port.Some? ==> sent.host.value.port == auth.port))
  {
  }

  /** `send_request`, with the URI restored before each new attempt. */
  method Send(cfg: Config, original: Request, attempts: seq<Attempt>) returns (sent: seq<Request>, v: Verdict)
    requires Absolute(original.uri)
    ensures sent == Run(cfg, original, attempts).sent && v == Run(cfg, original, attempts).verdict
  {
    var uri := original.uri;
    var req := original;
    sent, v := [], Again;
    var i := 0;
    while i < |attempts|
      invariant 0 <= i <= |attempts| && Absolute(req.uri)
      invariant State(req, sent, v) == Run(cfg, original, attempts[..i]) && v.Again?
    {
      var a := attempts[i];
      assert attempts[..i + 1][..i] == attempts[..i];
      i := i + 1;
      if Refused(req, a) {
        v := Err;
        break;
      }
      if a.kind.Http1? {
        if cfg.setHost && req.host.None? {
          req := req.(host := Some(FromUri(req.uri.authority.value.host, NonDefaultPort(req.uri))));
        }
        req := req.(uri := if req.connect then AuthorityForm(req.uri)
                           else if a.kind.proxied then AbsoluteForm(req.uri) else OriginForm(req.uri));
      }
      sent := sent + [req];
      if a.result.Responded? {
        v := Ok;
        break;
      }
      if a.result.Lost? || !cfg.retry || !a.reused {
        v := Err;
        break;
      }
      req := req.(uri := uri);
    }
    RunOnlyAppends(cfg, original, attempts, i);
    assert i == |attempts| ==> attempts[..i] == attempts;
  }
}
