/**
  What the client receives once the upstream answers (cors.js:12-46): the
  upstream headers edited by the policy (delete, then set, then append), and
  the status line written by `res.writeHead`.
 */
module ResponsePipeline {
  import opened Wrappers
  import opened HeaderList
  import opened Headers
  import opened Policy

  /** The `responseOptions` object handed to `goFetch` (cors.js:159-164). */
  datatype ResponseRules = ResponseRules(
    deleteResponseHeaders: seq<string>,
    appendResponseHeaders: HeaderList,
    setResponseHeaders: HeaderList,
    setStatusCode: Option<int>)

  function RulesOf(p: Policy): ResponseRules {
    ResponseRules(p.deleteResponseHeaders, p.appendResponseHeaders, p.setResponseHeaders, p.setStatusCode)
  }

  /** What the edits leave under one name, before the appends. */
  function SetOrKept(upstream: HeaderList, rules: ResponseRules, m: string): seq<string> {
    var sets := Values(NormalizeAll(rules.setResponseHeaders), m);
    if sets != [] then [Last(sets)]
    else if Named(rules.deleteResponseHeaders, m) then []
    else Values(NormalizeAll(upstream), m)
  }

  /** `new Headers(proxyRes.headers)`, then the deletes (cors.js:13-17). */
  function Received(upstream: HeaderList, rules: ResponseRules): (r: Result<HeaderList, TypeError>)
    ensures r.Success? <==> AllAcceptable(upstream) && AllNames(rules.deleteResponseHeaders)
    ensures r.Success? ==> forall m :: (Values(r.value, m) ==
      if Named(rules.deleteResponseHeaders, m) then [] else Values(NormalizeAll(upstream), m))
  {
    var received :- FromRecord(upstream);
    DeleteAll(received, rules.deleteResponseHeaders)
  }

  /** Then the sets (cors.js:19-21). */
  function DeleteThenSet(upstream: HeaderList, rules: ResponseRules): (r: Result<HeaderList, TypeError>)
    ensures r.Success? <==>
      AllAcceptable(upstream) && AllNames(rules.deleteResponseHeaders) && AllAcceptable(rules.setResponseHeaders)
    ensures r.Success? ==> forall m :: Values(r.value, m) == SetOrKept(upstream, rules, m)
  {
    match Received(upstream, rules)
    case Failure(e) => Failure(e)
    case Success(deleted) =>
      var r := SetAll(deleted, rules.setResponseHeaders);
      assert r.Success? ==> forall m :: Values(r.value, m) == SetOrKept(upstream, rules, m) by {
        if r.Success? {
          forall m ensures Values(r.value, m) == SetOrKept(upstream, rules, m) {
            var sets := Values(NormalizeAll(rules.setResponseHeaders), m);
            assert Values(r.value, m) == if sets == [] then Values(deleted, m) else [Last(sets)];
          }
        }
      }
      r
  }

  /** The headers relayed to the client (cors.js:13-25). */
  function ResponseHeaders(upstream: HeaderList, rules: ResponseRules): (r: Result<HeaderList, TypeError>)
    ensures r.Success? <==>
      AllAcceptable(upstream) && AllNames(rules.deleteResponseHeaders) &&
      AllAcceptable(rules.setResponseHeaders) && AllAcceptable(rules.appendResponseHeaders)
    ensures r.Success? ==> forall m :: (Values(r.value, m) ==
      SetOrKept(upstream, rules, m) + Values(NormalizeAll(rules.appendResponseHeaders), m))
  {
    var edited :- DeleteThenSet(upstream, rules);
    AppendAll(edited, rules.appendResponseHeaders)
  }

  lemma SetWins(upstream: HeaderList, rules: ResponseRules, m: string)
    requires Values(rules.setResponseHeaders, m) != []
    ensures SetOrKept(upstream, rules, m) == [Normalize(Last(Values(rules.setResponseHeaders, m)))]
  {
    var vs := Values(rules.setResponseHeaders, m);
    ValuesNormalized(rules.setResponseHeaders, m);
    NormalizeLast(vs);
  }

  /** A set name ends with its set value followed by every value appended for it, in order. */
  lemma SetThenAppended(upstream: HeaderList, rules: ResponseRules, m: string)
    requires ResponseHeaders(upstream, rules).Success?
    requires Values(rules.setResponseHeaders, m) != []
    ensures Values(ResponseHeaders(upstream, rules).value, m) ==
      [Normalize(Last(Values(rules.setResponseHeaders, m)))] + NormalizeValues(Values(rules.appendResponseHeaders, m))
  {
    SetWins(upstream, rules, m);
    ValuesNormalized(rules.appendResponseHeaders, m);
  }

  /** A deleted name that is not set again keeps only the values appended for it. */
  lemma DeletedThenAppended(upstream: HeaderList, rules: ResponseRules, m: string)
    requires ResponseHeaders(upstream, rules).Success?
    requires Named(rules.deleteResponseHeaders, m) && Values(rules.setResponseHeaders, m) == []
    ensures Values(ResponseHeaders(upstream, rules).value, m) == NormalizeValues(Values(rules.appendResponseHeaders, m))
  {
    assert SetOrKept(upstream, rules, m) == [] by {
      ValuesNormalized(rules.setResponseHeaders, m);
    }
    ValuesNormalized(rules.appendResponseHeaders, m);
    assert [] + NormalizeValues(Values(rules.appendResponseHeaders, m)) == NormalizeValues(Values(rules.appendResponseHeaders, m));
  }

  /** An upstream header that no rule names reaches the client as the upstream sent it. */
  lemma Untouched(upstream: HeaderList, rules: ResponseRules, m: string)
    requires ResponseHeaders(upstream, rules).Success?
    requires !Named(rules.deleteResponseHeaders, m)
    requires Values(rules.setResponseHeaders, m) == [] && Values(rules.appendResponseHeaders, m) == []
    ensures Values(ResponseHeaders(upstream, rules).value, m) == NormalizeValues(Values(upstream, m))
  {
    assert SetOrKept(upstream, rules, m) == NormalizeValues(Values(upstream, m)) by {
      ValuesNormalized(rules.setResponseHeaders, m);
      ValuesNormalized(upstream, m);
    }
    ValuesNormalized(rules.appendResponseHeaders, m);
    assert NormalizeValues(Values(upstream, m)) + [] == NormalizeValues(Values(upstream, m));
  }

  /** How the status line's reason phrase is chosen. */
  datatype Phrase = Custom(text: string) | Standard

  /** The part of Node's `ServerResponse` the code touches; `None` is an unset (falsy) message. */
  datatype ServerResponse = ServerResponse(statusCode: int, statusMessage: Option<string>)

  /** A fresh response: status 200, no message. */
  const Fresh := ServerResponse(200, None)

  const TwoTo32 := 0x1_0000_0000
  const TwoTo31 := 0x8000_0000

  /** JavaScript's `x | 0` on an integer: wrap to a signed 32-bit value. */
  function ToInt32(x: int): (r: int)
    ensures -TwoTo31 <= r < TwoTo31
    ensures (r - x) % TwoTo32 == 0
  {
    (x + TwoTo31) % TwoTo32 - TwoTo31
  }

  lemma ToInt32Small(x: int)
    requires -TwoTo31 <= x < TwoTo31
    ensures ToInt32(x) == x
  {
  }

  /** The status line `writeHead` sends. */
  datatype Head = Head(status: int, phrase: Phrase)

  /**
    `res.writeHead(statusCode, reason)`: the code is wrapped to 32 bits and
    must lie in 100..999; a string reason is used as given, otherwise an
    earlier non-empty `statusMessage`, otherwise the standard phrase.
   */
  function WriteHead(res: ServerResponse, statusCode: int, reason: Option<string>): (r: Result<Head, Fault>)
    ensures r.Success? <==> 100 <= ToInt32(statusCode) <= 999
    ensures r.Success? ==> r.value.status == ToInt32(statusCode)
    ensures r.Success? && reason.Some? ==> r.value.phrase == Custom(reason.value)
  {
    var code := ToInt32(statusCode);
    if code < 100 || code > 999 then Failure(InvalidStatus)
    else
      var phrase :=
        match reason
        case Some(text) => Custom(text)
        case None =>
          match res.statusMessage
          case Some(m) => if m != "" then Custom(m) else Standard
          case None => Standard;
      Success(Head(code, phrase))
  }

  /** The upstream's answer, or a transport error reported on `proxyReq`. */
  datatype Upstream = Reply(status: int, headers: HeaderList) | TransportError

  /** What the client receives. */
  datatype ClientReply =
    | Relayed(head: Head, headers: HeaderList)
    | Ended(status: int, body: string)
    | Crashed(fault: Fault)

  /** `res.statusCode = setStatusCode` when it is truthy (cors.js:27-29). */
  function AssignStatus(res: ServerResponse, setStatusCode: Option<int>): (r: ServerResponse)
    ensures r.statusMessage == res.statusMessage
    ensures setStatusCode.Some? && setStatusCode.value != 0 ==> r.statusCode == setStatusCode.value
    ensures setStatusCode.None? || setStatusCode.value == 0 ==> r == res
  {
    match setStatusCode
    case Some(code) => if code != 0 then res.(statusCode := code) else res
    case None => res
  }

  /**
    The response callback and the error handler of `goFetch`
    (cors.js:12-46).  The reason passed to `writeHead` is
    `proxyReq.statusMessage`, which a client request never has.
   */
  function Relay(rules: ResponseRules, upstream: Upstream): (r: ClientReply)
    ensures upstream.TransportError? ==> r == Ended(200, "")
  {
    match upstream
    case TransportError => Ended(Fresh.statusCode, "")
    case Reply(status, headers) =>
      match ResponseHeaders(headers, rules)
      case Failure(_) => Crashed(InvalidHeader)
      case Success(relayed) =>
        var res := AssignStatus(Fresh, rules.setStatusCode);
        match WriteHead(res, status, None)
        case Failure(f) => Crashed(f)
        case Success(head) => Relayed(head, relayed)
  }

  /**
    The status the client sees is the upstream's: `setStatusCode` makes no
    difference to the reply, and the phrase is always the standard one.
   */
  lemma UpstreamStatusWins(rules: ResponseRules, status: int, headers: HeaderList, code: Option<int>)
    requires ResponseHeaders(headers, rules).Success?
    requires 100 <= status <= 999
    ensures Relay(rules, Reply(status, headers)) ==
      Relayed(Head(status, Standard), ResponseHeaders(headers, rules).value)
    ensures Relay(rules.(setStatusCode := code), Reply(status, headers)) == Relay(rules, Reply(status, headers))
  {
    ToInt32Small(status);
    assert ResponseHeaders(headers, rules.(setStatusCode := code)) == ResponseHeaders(headers, rules);
  }

  /** An upstream status outside 100..999 after 32-bit wrapping makes `writeHead` throw. */
  lemma BadStatusThrows(rules: ResponseRules, status: int, headers: HeaderList)
    requires ResponseHeaders(headers, rules).Success?
    requires !(100 <= ToInt32(status) <= 999)
    ensures Relay(rules, Reply(status, headers)) == Crashed(InvalidStatus)
  {
  }
}
