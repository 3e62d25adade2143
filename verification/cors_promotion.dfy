/**
  The CORS headers the proxy puts on its reply to the client
  (cors.js:99-108).  `access-control-allow-origin` is first set to the
  client's `origin`, or `*` when there is none.  Then every client header
  whose lowercased name starts with `access-control-request-` is echoed with
  `request` replaced by `allow`.  `res.setHeader` replaces an earlier value
  under the same name, so a later echo wins.
 */
module CorsPromotion {
  import opened Wrappers
  import opened Strings
  import opened HeaderList
  import opened HeaderIteration

  const RequestPrefix := "access-control-request-"
  const AllowPrefix := "access-control-allow-"
  const RequestOrigin := RequestPrefix + "origin"
  const AllowOrigin := AllowPrefix + "origin"

  /** The headers set on the client response, by lowercased name. */
  type ResponseHeaders = map<string, string>

  /** `clientsHeaders.get('origin') || '*'`: the empty string is falsy too. */
  function OriginOrAny(client: HeaderList): (r: string)
    ensures r != ""
    ensures r == "*" || Get(client, "origin") == Some(r)
    ensures Contains(client, "origin") && Get(client, "origin").value != "" ==> r == Get(client, "origin").value
  {
    match Get(client, "origin")
    case Some(v) => if v != "" then v else "*"
    case None => "*"
  }

  /** `key.replace('request', 'allow')`. */
  function Promote(key: string): string {
    ReplaceFirst(key, "request", "allow")
  }

  /** A client header the loop at cors.js:102-108 echoes. */
  predicate Echoed(e: Header) {
    StartsWith(Lower(e.name), RequestPrefix)
  }

  /** Inside `access-control-` no `request` starts; the prefix's own one starts at 15. */
  lemma RequestInPrefix()
    ensures forall j: nat :: j < 15 ==> !OccursAt(RequestPrefix, "request", j)
    ensures OccursAt(RequestPrefix, "request", 15)
  {
    var s := RequestPrefix;
    assert s[..11] == "access-cont";
    assert 'r' !in s[..11];
    assert s[12..15] == "ol-";
    assert 'r' !in s[12..15];
    forall j: nat | j < 15
      ensures !OccursAt(s, "request", j)
    {
      if j < 11 {
        assert s[j] == s[..11][j];
      } else if j == 11 {
        assert s[12] == 'o';
        assert s[j..j + 7][1] == s[12];
      } else {
        assert s[j] == s[12..15][j - 12];
      }
      assert s[j..j + 7][0] == s[j];
    }
    assert s[15..22] == "request";
  }

  /** Only the prefix's `request` is replaced, whatever follows it. */
  lemma PromoteRequestKey(key: string)
    requires StartsWith(key, RequestPrefix)
    ensures Promote(key) == AllowPrefix + key[|RequestPrefix|..]
  {
    RequestInPrefix();
    forall j: nat | j <= 15
      ensures OccursAt(key, "request", j) == OccursAt(RequestPrefix, "request", j)
    {
      assert key[j..j + 7] == key[..23][j..j + 7];
    }
    FindFirstOccurrence(key, "request", 15);
    assert key[..15] == RequestPrefix[..15] == "access-control-";
    assert key[22..] == ['-'] + key[23..];
    assert "access-control-" + "allow" + ['-'] == AllowPrefix;
  }

  /** Different echoed names never land on the same response header. */
  lemma PromoteInjective(a: string, b: string)
    requires StartsWith(a, RequestPrefix) && StartsWith(b, RequestPrefix)
    requires Promote(a) == Promote(b)
    ensures a == b
  {
    PromoteRequestKey(a);
    PromoteRequestKey(b);
    var n := |RequestPrefix|;
    assert a[n..] == (AllowPrefix + a[n..])[|AllowPrefix|..];
    assert a == a[..n] + a[n..] && b == b[..n] + b[n..];
  }

  /** One turn of the loop at cors.js:102-108. */
  function EchoStep(res: ResponseHeaders, e: Header): ResponseHeaders {
    var key := Lower(e.name);
    if StartsWith(key, RequestPrefix) then res[Promote(key) := e.value] else res
  }

  /** The loop at cors.js:102-108 over the entries `view`, applied to the headers `res`. */
  function EchoAll(view: HeaderList, res: ResponseHeaders): (r: ResponseHeaders)
    ensures forall k :: k in res ==> k in r
    ensures forall k :: k in r ==> k in res || exists e :: e in view && Echoed(e) && Promote(Lower(e.name)) == k
    decreases |view|
  {
    if |view| == 0 then res
    else
      var r := EchoAll(view[1..], EchoStep(res, view[0]));
      assert forall e' :: e' in view[1..] ==> e' in view;
      r
  }

  predicate LowerNames(view: HeaderList) {
    forall i :: 0 <= i < |view| ==> IsLower(view[i].name)
  }

  /** One turn sets the echo of `n` exactly when the entry is `n` itself. */
  lemma EchoStepValue(res: ResponseHeaders, e: Header, n: string)
    requires IsLower(e.name) && IsLower(n) && StartsWith(n, RequestPrefix)
    ensures Matches(e, n) ==> Promote(n) in EchoStep(res, e) && EchoStep(res, e)[Promote(n)] == e.value
    ensures !Matches(e, n) ==>
      (Promote(n) in EchoStep(res, e) <==> Promote(n) in res) &&
      (Promote(n) in res ==> EchoStep(res, e)[Promote(n)] == res[Promote(n)])
  {
    var key := Lower(e.name);
    assert key == e.name;
    assert Matches(e, n) <==> key == n;
    if StartsWith(key, RequestPrefix) && Promote(key) == Promote(n) {
      PromoteInjective(key, n);
    }
  }

  lemma LowerNamesTail(view: HeaderList)
    requires |view| > 0 && LowerNames(view)
    ensures LowerNames(view[1..]) && IsLower(view[0].name)
  {
    forall i | 0 <= i < |view[1..]| ensures IsLower(view[1..][i].name) {
      assert view[1..][i] == view[i + 1];
    }
  }

  /**
    What one echoed name ends as: the last value the entries give it, or
    what was there before when no entry carries it.
   */
  lemma {:induction false} EchoValue(view: HeaderList, res: ResponseHeaders, n: string)
    requires LowerNames(view) && IsLower(n) && StartsWith(n, RequestPrefix)
    ensures Values(view, n) != [] ==>
      Promote(n) in EchoAll(view, res) && EchoAll(view, res)[Promote(n)] == Last(Values(view, n))
    ensures Values(view, n) == [] ==>
      (Promote(n) in EchoAll(view, res) <==> Promote(n) in res) &&
      (Promote(n) in res ==> EchoAll(view, res)[Promote(n)] == res[Promote(n)])
    decreases |view|
  {
    if |view| > 0 {
      LowerNamesTail(view);
      var next := EchoStep(res, view[0]);
      EchoValue(view[1..], next, n);
      EchoStepValue(res, view[0], n);
      var head := if Matches(view[0], n) then [view[0].value] else [];
      assert Values(view, n) == head + Values(view[1..], n);
      if Values(view, n) != [] {
        LastAppend(head, Values(view[1..], n));
      }
    }
  }

  /** The headers cors.js:99-108 sets on the client response. */
  function CorsHeaders(client: HeaderList): (r: ResponseHeaders)
    ensures AllowOrigin in r
  {
    EchoAll(View(client), map[AllowOrigin := OriginOrAny(client)])
  }

  lemma ViewLowerNames(client: HeaderList)
    ensures LowerNames(View(client))
  {
    forall i | 0 <= i < |View(client)| ensures IsLower(View(client)[i].name) {
      ViewNameContained(client, i);
    }
  }

  /** An echoed name is never `set-cookie`, so iteration joins its values. */
  lemma NotSetCookie(n: string)
    requires IsLower(n) && StartsWith(n, RequestPrefix)
    ensures !SameName(n, SetCookie)
  {
    SetCookieIsLower();
    assert n[0] == RequestPrefix[0] == 'a';
    assert Lower(n)[0] != Lower(SetCookie)[0];
  }

  /** A name the entries carry once ends with that value. */
  lemma EchoSingle(view: HeaderList, res: ResponseHeaders, n: string, v: string)
    requires LowerNames(view) && IsLower(n) && StartsWith(n, RequestPrefix)
    requires Values(view, n) == [v]
    ensures Promote(n) in EchoAll(view, res) && EchoAll(view, res)[Promote(n)] == v
  {
    EchoValue(view, res, n);
  }

  /** What iteration yields under one lowercase `access-control-request-` name. */
  lemma ViewFacts(client: HeaderList, n: string)
    requires IsLower(n) && StartsWith(n, RequestPrefix)
    ensures LowerNames(View(client))
    ensures Values(View(client), n) == if Contains(client, n) then [Join(Values(client, n), ", ")] else []
  {
    ViewLowerNames(client);
    ViewValues(client, n);
    NotSetCookie(n);
  }

  /**
    Every `access-control-request-X` the client sent comes back as
    `access-control-allow-X` carrying all of the client's values for it.
   */
  lemma EchoedRequestHeader(client: HeaderList, n: string)
    requires IsLower(n) && StartsWith(n, RequestPrefix) && Contains(client, n)
    ensures Promote(n) in CorsHeaders(client)
    ensures CorsHeaders(client)[Promote(n)] == Join(Values(client, n), ", ")
  {
    ViewFacts(client, n);
    EchoSingle(View(client), map[AllowOrigin := OriginOrAny(client)], n, Join(Values(client, n), ", "));
  }

  /** A name the client did not send is set only if it is the origin header itself. */
  lemma NotSentEcho(client: HeaderList, n: string)
    requires IsLower(n) && StartsWith(n, RequestPrefix) && !Contains(client, n)
    ensures Promote(n) in CorsHeaders(client) <==> Promote(n) == AllowOrigin
    ensures Promote(n) == AllowOrigin ==> CorsHeaders(client)[AllowOrigin] == OriginOrAny(client)
  {
    var view := View(client);
    var base := map[AllowOrigin := OriginOrAny(client)];
    ViewFacts(client, n);
    EchoValue(view, base, n);
    assert CorsHeaders(client) == EchoAll(view, base);
  }

  /** The echo of a request name is the allow name with the same suffix. */
  lemma PromoteSuffix(rest: string)
    ensures Promote(RequestPrefix + rest) == AllowPrefix + rest
  {
    var key := RequestPrefix + rest;
    assert key[..|RequestPrefix|] == RequestPrefix;
    PromoteRequestKey(key);
    assert key[|RequestPrefix|..] == rest;
  }

  lemma RequestOriginPromotes()
    ensures Promote(RequestOrigin) == AllowOrigin
  {
    PromoteSuffix("origin");
  }

  lemma RequestOriginIsLower()
    ensures IsLower(RequestOrigin)
  {
  }

  /**
    `access-control-allow-origin` is the client's origin (or `*`) unless the
    client itself sent `access-control-request-origin`, whose echo replaces it.
   */
  lemma AllowOriginValue(client: HeaderList)
    ensures CorsHeaders(client)[AllowOrigin] ==
      if Contains(client, RequestOrigin) then Join(Values(client, RequestOrigin), ", ")
      else OriginOrAny(client)
  {
    RequestOriginPromotes();
    RequestOriginIsLower();
    if Contains(client, RequestOrigin) {
      EchoedRequestHeader(client, RequestOrigin);
    } else {
      NotSentEcho(client, RequestOrigin);
    }
  }

  /** No other response header is set: each one is the origin or the echo of a client header. */
  lemma OnlyEchoes(client: HeaderList, k: string)
    requires k in CorsHeaders(client) && k != AllowOrigin
    ensures exists n :: n in SortedNames(client) && StartsWith(n, RequestPrefix) && k == Promote(n)
  {
    var e :| e in View(client) && Echoed(e) && Promote(Lower(e.name)) == k;
    SortedNameContained(client, e.name);
  }

  /** A request header the client did not send is not echoed. */
  lemma NotSentNotEchoed(client: HeaderList, n: string)
    requires IsLower(n) && StartsWith(n, RequestPrefix) && !Contains(client, n) && n != RequestOrigin
    ensures Promote(n) !in CorsHeaders(client)
  {
    NotSentEcho(client, n);
    if Promote(n) == AllowOrigin {
      RequestOriginPromotes();
      PromoteInjective(n, RequestOrigin);
    }
  }
}
