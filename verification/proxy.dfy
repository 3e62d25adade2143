/**
  The request handler of the proxy server (cors.js:51-166) and the choice of
  transport in `goFetch` (cors.js:10), tied to the response side.  A
  request is turned away with 403, makes the handler throw, or is dispatched
  upstream with the options, body and response rules the handler computed.
 */
module Proxy {
  import opened Wrappers
  import opened HeaderList
  import opened Headers
  import opened Policy
  import opened CorsPromotion
  import opened RequestPipeline
  import opened ResponsePipeline

  /**
    The parts of Node's `IncomingMessage` the handler reads.  `headers` are
    the entries of `req.headers`: lowercased names, in arrival order.
   */
  datatype Inbound = Inbound(
    httpMethod: string,
    url: string,
    headers: HeaderList,
    encrypted: bool,
    remoteAddress: string)

  /** Where the outbound body comes from (cors.js:149). */
  datatype BodySource = Literal(text: string) | InboundStream

  /** The options object given to the HTTP client (cors.js:151-157). */
  datatype RequestOptions = RequestOptions(
    httpMethod: string,
    headers: HeaderList,
    host: string,
    followRedirects: bool,
    path: string,
    protocol: Option<string>)

  datatype Transport = Http | Https

  datatype Outcome =
    | Rejected(status: int, body: string)
    | Threw(fault: Fault)
    | Dispatched(options: RequestOptions, source: BodySource, rules: ResponseRules, cors: ResponseHeaders)

  const NoConfiguration := "No CORS configuration found"

  /** `obj[key]` on the plain header object: an exact-name lookup. */
  function RecordGet(record: HeaderList, key: string): (r: Option<string>)
    ensures r.None? <==> forall i :: 0 <= i < |record| ==> record[i].name != key
    ensures r.Some? ==> exists i :: 0 <= i < |record| && record[i] == Header(key, r.value)
  {
    if |record| == 0 then None
    else if record[0].name == key then Some(record[0].value)
    else
      var r := RecordGet(record[1..], key);
      assert forall i :: 1 <= i < |record| ==> record[i] == record[1..][i - 1];
      r
  }

  /**
    `${protocol}://${req.headers.host}${req.url}` (cors.js:52, 55): the scheme
    follows the socket's encryption, a missing host prints as `undefined`,
    and the request target comes last, as received.
   */
  function OwnUrlText(req: Inbound): (r: string)
    ensures var k := if req.encrypted then |"https://"| else |"http://"|;
      k + |req.url| <= |r| &&
      r[..k] == (if req.encrypted then "https://" else "http://") &&
      r[k..|r| - |req.url|] == RecordGet(req.headers, Host).GetOr("undefined") &&
      r[|r| - |req.url|..] == req.url
  {
    var scheme := if req.encrypted then "https" else "http";
    var host := RecordGet(req.headers, Host).GetOr("undefined");
    var r := scheme + "://" + host + req.url;
    assert r == (scheme + "://") + host + req.url;
    r
  }

  /** `body ? Readable.from(...) : req`: an empty string is falsy. */
  function BodyOf(body: Option<string>): (r: BodySource)
    ensures r.Literal? <==> body.Some? && body.value != ""
    ensures r.Literal? ==> r.text == body.value
  {
    match body
    case Some(text) => if text != "" then Literal(text) else InboundStream
    case None => InboundStream
  }

  /** `options.protocol === 'https:' ? gets : get` (cors.js:10). */
  function TransportOf(options: RequestOptions): (r: Transport)
    ensures r == Https <==> options.protocol == Some("https:")
  {
    if options.protocol == Some("https:") then Https else Http
  }

  /** The handler once the policy is known (cors.js:78-164). */
  function Dispatch(env: Env, req: Inbound, client: HeaderList, doc: PolicyDoc): (r: Outcome)
    ensures !r.Rejected?
    ensures r.Dispatched? ==> r.options.protocol.None? && AllowOrigin in r.cors
  {
    var p := ApplyDefaults(doc, req.httpMethod);
    match p.url
    case None => Threw(InvalidUrl)
    case Some(url) =>
      match env.parseUrl(url)
      case None => Threw(InvalidUrl)
      case Some(target) =>
        match RequestHeaders(client, p, req.remoteAddress, target.host)
        case Failure(_) => Threw(InvalidHeader)
        case Success(headers) =>
          var options := RequestOptions(p.httpMethod, headers, target.host, p.followRedirect, target.pathname, None);
          Dispatched(options, BodyOf(p.body), RulesOf(p), CorsHeaders(client))
  }

  /** The request handler (cors.js:51-166). */
  function Handle(env: Env, req: Inbound): (r: Outcome)
    ensures r.Rejected? ==> r == Rejected(403, NoConfiguration)
    ensures r.Dispatched? ==> r.options.protocol.None? && AllowOrigin in r.cors
  {
    match FromRecord(req.headers)
    case Failure(_) => Threw(InvalidHeader)
    case Success(client) =>
      match env.parseUrl(OwnUrlText(req))
      case None => Threw(InvalidUrl)
      case Some(own) =>
        match ResolvePolicy(env, req.url, own.query, client)
        case Missing => Rejected(403, NoConfiguration)
        case Failed(f) => Threw(f)
        case Found(doc) => Dispatch(env, req, client, doc)
  }

  /** What the client finally receives, given the upstream's answer to a dispatched request. */
  function Serve(env: Env, req: Inbound, upstream: Upstream): (r: ClientReply)
    ensures Handle(env, req).Rejected? ==> r == Ended(403, NoConfiguration)
    ensures Handle(env, req).Threw? ==> r == Crashed(Handle(env, req).fault)
  {
    match Handle(env, req)
    case Rejected(status, body) => Ended(status, body)
    case Threw(f) => Crashed(f)
    case Dispatched(_, _, rules, _) => Relay(rules, upstream)
  }

  /**
    The request is turned away exactly when its headers and its own URL are
    readable and no configuration is found; nothing is sent upstream then.
   */
  lemma RejectedExactly(env: Env, req: Inbound)
    ensures Handle(env, req).Rejected? <==>
      FromRecord(req.headers).Success? &&
      env.parseUrl(OwnUrlText(req)).Some? &&
      ResolvePolicy(env, req.url, env.parseUrl(OwnUrlText(req)).value.query, FromRecord(req.headers).value).Missing?
  {
    match FromRecord(req.headers)
    case Failure(_) =>
    case Success(client) =>
      match env.parseUrl(OwnUrlText(req))
      case None =>
      case Some(own) =>
        match ResolvePolicy(env, req.url, own.query, client)
        case Missing =>
        case Failed(_) =>
        case Found(doc) =>
          assert Handle(env, req) == Dispatch(env, req, client, doc);
  }

  /**
    A dispatched request goes to the target's host and path (its query
    dropped), with the policy's method and redirect flag, and with `host`
    forced to the target's host.
   */
  lemma DispatchedShape(env: Env, req: Inbound)
    requires Handle(env, req).Dispatched?
    ensures var client := FromRecord(req.headers).value;
      var own := env.parseUrl(OwnUrlText(req)).value;
      var doc := ResolvePolicy(env, req.url, own.query, client).doc;
      var p := ApplyDefaults(doc, req.httpMethod);
      var target := env.parseUrl(p.url.value).value;
      var o := Handle(env, req).options;
      o.host == target.host && o.path == target.pathname &&
      o.httpMethod == p.httpMethod && o.followRedirects == p.followRedirect &&
      o.headers == RequestHeaders(client, p, req.remoteAddress, target.host).value &&
      Get(o.headers, Host) == Some(Normalize(target.host)) &&
      Handle(env, req).source == BodyOf(p.body) &&
      Handle(env, req).rules == RulesOf(p)
  {
    var client := FromRecord(req.headers).value;
    var own := env.parseUrl(OwnUrlText(req)).value;
    var doc := ResolvePolicy(env, req.url, own.query, client).doc;
    var p := ApplyDefaults(doc, req.httpMethod);
    var target := env.parseUrl(p.url.value).value;
    HostIsTarget(client, p, req.remoteAddress, target.host);
  }

  /** The options never carry a protocol, so the HTTPS client is never chosen. */
  lemma NeverHttps(env: Env, req: Inbound)
    requires Handle(env, req).Dispatched?
    ensures TransportOf(Handle(env, req).options) == Http
  {
  }

  /** A dispatched request always answers the client with `access-control-allow-origin`. */
  lemma AllowOriginAlwaysSet(env: Env, req: Inbound)
    requires Handle(env, req).Dispatched?
    ensures AllowOrigin in Handle(env, req).cors
  {
  }

  /**
    A policy without `url` makes the handler throw (`new URL(undefined)`),
    which is the fate of every referer-mode request whose target cannot be
    resolved as well.
   */
  lemma MissingUrlThrows(env: Env, req: Inbound, client: HeaderList, doc: PolicyDoc)
    requires doc.url.None?
    ensures Dispatch(env, req, client, doc) == Threw(InvalidUrl)
  {
  }
}
