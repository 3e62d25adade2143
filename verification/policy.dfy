/**
  Where a request's proxy policy comes from, and the defaults that fill the
  fields it leaves out (cors.js:57-94).

  The policy is JSON in a `cors` query parameter: first on the request's own
  URL, otherwise on the URL in its `referer` header.  In referer mode only the
  target `url` is kept, resolved from the request path against the embedded
  `url`.  Parsing JSON and URLs belongs to the platform; here those are the
  functions of an `Env`, and `None` from one of them stands for the exception
  the platform throws.
 */
module Policy {
  import opened Wrappers
  import opened HeaderList

  /** A JavaScript exception escaping the request handler. */
  datatype Fault = InvalidUrl | InvalidJson | InvalidHeader | InvalidStatus

  /** One `key=value` pair of a URL's query, in order. */
  datatype Param = Param(key: string, value: string)

  /** The parts of a WHATWG URL the proxy reads. */
  datatype Url = Url(href: string, protocol: string, host: string, pathname: string, query: seq<Param>)

  /**
    The policy object as JSON gives it: `None` is a field the object does
    not have (so its destructuring default applies).
   */
  datatype PolicyDoc = PolicyDoc(
    httpMethod: Option<string>,
    url: Option<string>,
    body: Option<string>,
    followRedirect: Option<bool>,
    forwardRequestHeaders: Option<bool>,
    forwardIpAddress: Option<bool>,
    deleteRequestHeaders: Option<seq<string>>,
    ignoreRequestHeaders: Option<bool>,
    deleteResponseHeaders: Option<seq<string>>,
    setStatusCode: Option<int>,
    appendResponseHeaders: Option<HeaderList>,
    setRequestHeaders: Option<HeaderList>,
    setResponseHeaders: Option<HeaderList>,
    appendRequestHeaders: Option<HeaderList>)

  /** The policy after defaulting: every field has a value. */
  datatype Policy = Policy(
    httpMethod: string,
    url: Option<string>,
    body: Option<string>,
    followRedirect: bool,
    forwardRequestHeaders: bool,
    forwardIpAddress: bool,
    deleteRequestHeaders: seq<string>,
    ignoreRequestHeaders: bool,
    deleteResponseHeaders: seq<string>,
    setStatusCode: Option<int>,
    appendResponseHeaders: HeaderList,
    setRequestHeaders: HeaderList,
    setResponseHeaders: HeaderList,
    appendRequestHeaders: HeaderList)

  /** The platform services the handler calls. */
  datatype Env = Env(
    /** `new URL(text)`; `None` when it throws. */
    parseUrl: string -> Option<Url>,
    /** `new URL(path, base) + ''`; `None` when it throws. */
    resolveUrl: (string, Option<string>) -> Option<string>,
    /**
      `JSON.parse(text)` read as a policy object; `None` when it throws or
      yields `null`.  Any other value that is not a plain object (a number, a
      string, a boolean, an array) has none of the policy's fields, so it
      reads as `EmptyDoc`.
     */
    parseJson: string -> Option<PolicyDoc>)

  const CorsParam := "cors"
  const Referer := "referer"

  const EmptyDoc := PolicyDoc(None, None, None, None, None, None, None, None, None, None, None, None, None, None)

  /** `{ url }`: the object built in referer mode. */
  function UrlOnly(u: string): PolicyDoc {
    EmptyDoc.(url := Some(u))
  }

  /** `searchParams.get(key)`: the value of the first pair with that key. */
  function QueryGet(q: seq<Param>, key: string): (r: Option<string>)
    ensures r.None? <==> forall i :: 0 <= i < |q| ==> q[i].key != key
    ensures r.Some? ==> exists i :: 0 <= i < |q| && q[i] == Param(key, r.value) &&
                                     (forall j :: 0 <= j < i ==> q[j].key != key)
  {
    if |q| == 0 then None
    else if q[0].key == key then Some(q[0].value)
    else
      var r := QueryGet(q[1..], key);
      assert forall i :: 1 <= i < |q| ==> q[i] == q[1..][i - 1];
      r
  }

  /** Where the policy came from, or why there is none. */
  datatype Resolution = Found(doc: PolicyDoc) | Missing | Failed(fault: Fault)

  /**
    The choice at cors.js:59-76.  `path` is `req.url`, `query` the query of
    the request's own URL and `client` the request's headers.
   */
  function ResolvePolicy(env: Env, path: string, query: seq<Param>, client: HeaderList): (r: Resolution)
    ensures QueryGet(query, CorsParam).Some? ==>
      r == (match env.parseJson(QueryGet(query, CorsParam).value)
            case Some(doc) => Found(doc)
            case None => Failed(InvalidJson))
    ensures QueryGet(query, CorsParam).None? && !Contains(client, Referer) ==> r == Missing
    ensures r.Found? && QueryGet(query, CorsParam).None? ==>
      exists u :: r.doc == UrlOnly(u)
  {
    match QueryGet(query, CorsParam)
    case Some(text) =>
      (match env.parseJson(text)
       case Some(doc) => Found(doc)
       case None => Failed(InvalidJson))
    case None =>
      match Get(client, Referer)
      case None => Missing
      case Some(referer) =>
        match env.parseUrl(referer)
        case None => Failed(InvalidUrl)
        case Some(ref) =>
          match QueryGet(ref.query, CorsParam)
          case None => Missing
          case Some(text) =>
            match env.parseJson(text)
            case None => Failed(InvalidJson)
            case Some(config) =>
              match env.resolveUrl(path, config.url)
              case None => Failed(InvalidUrl)
              case Some(u) => Found(UrlOnly(u))
  }

  /**
    One destructured field: a field the object has keeps its value, and an
    absent one takes the default.
   */
  predicate Defaulted<T(==)>(given: Option<T>, value: T, default: T) {
    (given.None? ==> value == default) && (given.Some? ==> value == given.value)
  }

  /** The destructuring at cors.js:78-94. */
  function ApplyDefaults(doc: PolicyDoc, inboundMethod: string): (r: Policy)
    ensures r.url == doc.url && r.body == doc.body && r.setStatusCode == doc.setStatusCode
    ensures Defaulted(doc.httpMethod, r.httpMethod, inboundMethod)
    ensures Defaulted(doc.followRedirect, r.followRedirect, true)
    ensures Defaulted(doc.forwardRequestHeaders, r.forwardRequestHeaders, true)
    ensures Defaulted(doc.forwardIpAddress, r.forwardIpAddress, true)
    ensures Defaulted(doc.ignoreRequestHeaders, r.ignoreRequestHeaders, false)
    ensures Defaulted(doc.deleteRequestHeaders, r.deleteRequestHeaders, [])
    ensures Defaulted(doc.deleteResponseHeaders, r.deleteResponseHeaders, [])
    ensures Defaulted(doc.appendResponseHeaders, r.appendResponseHeaders, [])
    ensures Defaulted(doc.setRequestHeaders, r.setRequestHeaders, [])
    ensures Defaulted(doc.setResponseHeaders, r.setResponseHeaders, [])
    ensures Defaulted(doc.appendRequestHeaders, r.appendRequestHeaders, [])
  {
    Policy(
      doc.httpMethod.GetOr(inboundMethod),
      doc.url,
      doc.body,
      doc.followRedirect.GetOr(true),
      doc.forwardRequestHeaders.GetOr(true),
      doc.forwardIpAddress.GetOr(true),
      doc.deleteRequestHeaders.GetOr([]),
      doc.ignoreRequestHeaders.GetOr(false),
      doc.deleteResponseHeaders.GetOr([]),
      doc.setStatusCode,
      doc.appendResponseHeaders.GetOr([]),
      doc.setRequestHeaders.GetOr([]),
      doc.setResponseHeaders.GetOr([]),
      doc.appendRequestHeaders.GetOr([]))
  }

  /** The document that states every field of `p` explicitly. */
  function Explicit(p: Policy): PolicyDoc {
    PolicyDoc(Some(p.httpMethod), p.url, p.body, Some(p.followRedirect), Some(p.forwardRequestHeaders),
      Some(p.forwardIpAddress), Some(p.deleteRequestHeaders), Some(p.ignoreRequestHeaders),
      Some(p.deleteResponseHeaders), p.setStatusCode, Some(p.appendResponseHeaders),
      Some(p.setRequestHeaders), Some(p.setResponseHeaders), Some(p.appendRequestHeaders))
  }

  /** The policy of an object with no fields: every default at once. */
  lemma EmptyDocDefaults(inboundMethod: string)
    ensures ApplyDefaults(EmptyDoc, inboundMethod) ==
      Policy(inboundMethod, None, None, true, true, true, [], false, [], None, [], [], [], [])
  {
  }

  /** Fields that are present win over their defaults, whatever the inbound method. */
  lemma ExplicitFieldsWin(p: Policy, inboundMethod: string)
    ensures ApplyDefaults(Explicit(p), inboundMethod) == p
  {
  }

  /**
    A `cors` query parameter decides the outcome alone: the request's
    headers (its `referer` among them) are never consulted.
   */
  lemma QueryWins(env: Env, path: string, query: seq<Param>, c1: HeaderList, c2: HeaderList)
    requires QueryGet(query, CorsParam).Some?
    ensures ResolvePolicy(env, path, query, c1) == ResolvePolicy(env, path, query, c2)
  {
  }

  /**
    No configuration is found exactly when the query has no `cors` and
    either there is no `referer` or the referer URL parses and has no `cors`.
   */
  lemma MissingExactly(env: Env, path: string, query: seq<Param>, client: HeaderList)
    ensures ResolvePolicy(env, path, query, client).Missing? <==>
      QueryGet(query, CorsParam).None? &&
      (!Contains(client, Referer) ||
       (var ref := env.parseUrl(Get(client, Referer).value);
        ref.Some? && QueryGet(ref.value.query, CorsParam).None?))
  {
  }

  /**
    In referer mode the policy is the resolved URL and nothing else, so every
    other field takes its default.
   */
  lemma RefererModeDefaults(env: Env, path: string, query: seq<Param>, client: HeaderList, inboundMethod: string)
    requires QueryGet(query, CorsParam).None?
    requires ResolvePolicy(env, path, query, client).Found?
    ensures var ref := env.parseUrl(Get(client, Referer).value).value;
      var config := env.parseJson(QueryGet(ref.query, CorsParam).value).value;
      env.resolveUrl(path, config.url).Some? &&
      ApplyDefaults(ResolvePolicy(env, path, query, client).doc, inboundMethod) ==
        Policy(inboundMethod, env.resolveUrl(path, config.url), None, true, true, true, [], false, [], None, [], [], [], [])
  {
  }
}
