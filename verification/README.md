# cors proxy — a Dafny model

`cors.js` is a small Node HTTP server that acts as a CORS proxy. A browser
sends it a request whose proxy policy travels as JSON in a `cors` query
parameter. The parameter is on the request's own URL or, failing that, on the
URL in its `referer` header. The server:

- answers with `access-control-allow-origin` and echoes every
  `access-control-request-*` header as `access-control-allow-*`;
- builds the outbound request headers from the client's headers and the
  policy's forward, delete, append and set rules;
- sends the request to the target;
- relays the upstream response after the policy's delete, set and append
  rules for response headers.

This project models that decision logic as pure functions and proves what it
guarantees.

Modules, in dependency order:

- `Wrappers`: `Option` and `Result`.
- `Strings`: byte lowercasing, `startsWith`, `replace` with a string
  pattern (first occurrence only), the code-unit order on names, and `join`.
- `HeaderList`: the Fetch Standard's header list (section 2.2.2 of the Fetch
  Standard). It holds ordered (name, value) pairs with case-insensitive names,
  and supports append, delete, set and get. Each operation is specified by its
  effect on `Values(l, name)`, the list of values stored under a name.
- `Headers`: the `Headers` class on top of the list. Values are stripped of
  leading and trailing HTTP whitespace, and a bad name or value is a
  `TypeError`. Each loop over policy pairs is modelled as one operation that
  fails at the first bad pair.
- `HeaderIteration`: what `for ... of headers` and `headers.keys()` walk.
  This is the "sort and combine" list: lowercased names in ascending order,
  values joined with ", ", and `set-cookie` values kept separate.
  `ClearLive` models the index-based iterator that the list is deleted from
  while it runs (cors.js:120-124).
- `Policy`: where the policy comes from (the query or the referer), and the
  destructuring defaults. JSON parsing and URL parsing or resolution are
  functions of an `Env` value, and `None` from them stands for a thrown
  exception.
- `CorsPromotion`: the CORS headers set on the client response
  (cors.js:99-108).
- `RequestPipeline`: the outbound request headers (cors.js:111-146).
- `ResponsePipeline`: the response-header edits, the status handling in
  `res.writeHead`, and the transport-error handler (cors.js:12-46).
- `Proxy`: the request handler as a whole. It gives a 403 rejection, a thrown
  exception, or a dispatched request with its options, body source and
  response rules.

Behaviour of the code that a reader might not expect. Each item
is modelled as the code does it:

- **`ignoreRequestHeaders`:** the clear at cors.js:120-124 deletes while
  iterating a live iterator, so it skips entries. The step at index 0
  deletes the smallest name. The step at index 1 then reads the second entry
  of the iteration of what is left, which is recomputed after each delete.
  - When the second-smallest name is not `set-cookie`, that second entry
    belongs to the third name, so the second-smallest name survives with all
    its values (`ClearLiveKeepsSecond`, `ClearLiveExample`).
  - When it is `set-cookie` with several values, each value is an entry of
    its own, so index 1 is the second cookie entry and `set-cookie` is
    deleted as well. With exactly two names stored the list is then emptied
    (`ClearLiveLosesCookies`, `ClearLiveCookieExample`). A name after
    `set-cookie` is left at index 0 and survives
    (`ClearLiveCookieThenMore`).
  - With one name stored the list is emptied (`ClearLiveSingleName`).
- **`setStatusCode`:** it assigns `res.statusCode`, but `writeHead` is then
  called with the upstream's status code, which overrides it. The client
  always sees the upstream status (`UpstreamStatusWins`). The reason phrase is
  `proxyReq.statusMessage`, which a client request never has, so the standard
  phrase is used.
- **Protocol:** the request options never carry `protocol`, so the HTTPS
  client is never chosen (`NeverHttps`).
- **Path:** `path` is the target's pathname, so the target URL's query string
  is not sent.
- **`x-cors-`:** `replace` removes only the first `x-cors-` in a name, wherever
  it occurs (`StripOnlyFirst`). A client header named exactly `x-cors-`
  becomes the empty name, and `append` throws (`BarePrefixThrows`).
- **Request origin:** a client `access-control-request-origin` header is echoed
  onto `access-control-allow-origin`, replacing the origin-based value
  (`AllowOriginValue`).
- **Transport error:** an upstream transport error ends the response with an
  empty body and status 200 (`Relay`).

## Model

| member | source | states |
|---|---|---|
| Strings.FindFrom | cors.js:106 | The index found is an occurrence at or after the start, and no earlier occurrence exists; `None` only when the pattern occurs nowhere from the start on |
| Strings.ReplaceFirstAtFront | cors.js:115 | Replacing a pattern that begins the string removes exactly that prefix and puts the replacement in front |
| Strings.ReplaceFirstAbsent | cors.js:115 | `replace` leaves a string without the pattern unchanged |
| Strings.LowerIdempotent | cors.js:103 | Lowercasing a lowercased name changes nothing |
| Strings.LessTransitive | cors.js:102 | The code-unit order used to sort header names is transitive |
| Strings.LessTotal | cors.js:102 | Two different names are always ordered one way or the other |
| HeaderList.Append | cors.js:116 | After `append`, every name keeps its old values and the appended name gains the new value at the end; the old list is an unchanged prefix |
| HeaderList.Delete | cors.js:133 | After `delete`, the name has no values, every other name keeps its values, and exactly the non-matching headers remain |
| HeaderList.DeleteAbsent | cors.js:133 | Deleting a name that is not stored leaves the list as it was |
| HeaderList.Set | cors.js:143 | After `set`, the name holds exactly the new value and every other name keeps its values |
| HeaderList.Get | cors.js:62 | `get` is null exactly when the name is absent, and otherwise all its values joined by ", " |
| HeaderList.ContainsValues | cors.js:61 | `has(name)` holds exactly when some value is stored under the name |
| HeaderList.ValuesConcat | cors.js:116 | The values under a name in two lists laid end to end are those of the first list, then those of the second |
| HeaderList.DeleteEach | cors.js:132-134 | After deleting a list of names, each named name is empty and every other name keeps its values |
| HeaderList.AppendEach | cors.js:137-139 | After appending a list of pairs, each name holds its old values followed by the appended ones, in order |
| HeaderList.SetEach | cors.js:142-144 | After setting a list of pairs, a name that is set holds only the last value given for it; other names keep their values |
| Headers.Normalize | cors.js:116 | A stored value neither starts nor ends with HTTP whitespace and is no longer than the given value |
| Headers.NormalizeIsSlice | cors.js:116 | A stored value is the given value with only HTTP whitespace cut from its two ends |
| Headers.NormalizeIdempotent | cors.js:116 | Normalizing a normalized value changes nothing |
| Headers.NormalizeKeepsTrimmed | cors.js:116 | A value without surrounding whitespace is stored as given |
| Headers.ValuesNormalized | cors.js:53 | The values stored under a name are the given values under that name, each normalized |
| Headers.AppendHeader | cors.js:116 | `headers.append` throws exactly for an invalid name or value; otherwise it appends the normalized value |
| Headers.SetHeader | cors.js:143 | `headers.set` throws exactly for an invalid name or value; otherwise it sets the normalized value |
| Headers.DeleteHeader | cors.js:133 | `headers.delete` throws exactly for an invalid name; otherwise it deletes every header of that name |
| Headers.AppendAll | cors.js:137-139 | The append loop completes exactly when every pair is valid, and then equals appending the normalized pairs |
| Headers.SetAll | cors.js:142-144 | The set loop completes exactly when every pair is valid, and then equals setting the normalized pairs |
| Headers.DeleteAll | cors.js:132-134 | The delete loop completes exactly when every name is valid, and then equals deleting each name |
| Headers.FromRecord | cors.js:53 | `new Headers(record)` succeeds exactly when every entry has a valid name and value, and then each name holds that name's record values, normalized, in record order |
| HeaderIteration.Insert | cors.js:102 | Inserting into a strictly sorted name list keeps it strictly sorted, adds the name once, and loses nothing |
| HeaderIteration.SortedNames | cors.js:102 | The names iteration walks are strictly ascending, and are exactly the lowercased stored names |
| HeaderIteration.ViewValues | cors.js:113 | Iteration yields nothing for an absent name, `set-cookie` values one by one, and for any other name one entry joining its values with ", " |
| HeaderIteration.ViewOrdered | cors.js:102 | Iteration yields entries in ascending name order |
| HeaderIteration.ViewNameContained | cors.js:102-103 | Every name iteration yields is stored and already lowercase |
| HeaderIteration.SortedNameInView | cors.js:113 | Every stored name is yielded by iteration |
| HeaderIteration.ClearLive | cors.js:120-124 | Clearing through the live iterator only removes headers, never adds one |
| HeaderIteration.ClearLiveKeepsSecond | cors.js:120-124 | With at least two names stored and the second-smallest not `set-cookie`, the clear leaves the second-smallest name with all its values |
| HeaderIteration.ClearLiveSingleName | cors.js:120-124 | With a single name stored, the clear empties the list |
| HeaderIteration.ClearLiveExample | cors.js:120-124 | Headers `a` and `b`: the clear deletes `a` and leaves `b` |
| HeaderIteration.ClearLiveLosesCookies | cors.js:120-124 | With exactly two names stored, the second being `set-cookie` with at least two values, the clear empties the list |
| HeaderIteration.ClearLiveCookieExample | cors.js:120-124 | Header `a` and two `set-cookie` headers: the clear leaves nothing |
| HeaderIteration.ClearLiveCookieThenMore | cors.js:120-124 | Headers `a`, two `set-cookie` and `z`: the clear deletes `a` and `set-cookie` and leaves `z` |
| HeaderIteration.SortedNamesAfterDelete | cors.js:122 | Deleting a name removes exactly that name from the names iteration walks |
| Policy.QueryGet | cors.js:59-60 | `searchParams.get` is null exactly when no pair has the key, and otherwise the value of the first such pair |
| Policy.ResolvePolicy | cors.js:59-76 | A `cors` query parameter alone decides the policy, or a JSON error; without it and without `referer` no configuration is found; a referer-mode policy carries only `url` |
| Policy.QueryWins | cors.js:59-60 | With a `cors` query parameter the request headers, `referer` included, do not affect the policy |
| Policy.MissingExactly | cors.js:59-76 | No configuration is found exactly when the query has no `cors` and either there is no `referer` or the referer URL parses without a `cors` parameter |
| Policy.RefererModeDefaults | cors.js:61-94 | In referer mode the policy is the resolved target URL, with every other field at its default |
| Policy.ApplyDefaults | cors.js:78-94 | Every field the object has is kept as given, and every absent field takes its own default: the inbound method, `true` for the three flags, `false` for the clear, an empty list for each edit; `url`, `body` and `setStatusCode` have no default |
| Policy.EmptyDocDefaults | cors.js:78-94 | An object with no fields gets every default: the inbound method, follow redirects, forward headers and address, no edits, no clear |
| Policy.ExplicitFieldsWin | cors.js:78-94 | A field that is present wins over its default, whatever the inbound method |
| CorsPromotion.OriginOrAny | cors.js:99 | The initial allow-origin is never empty: it is the client's non-empty `origin`, or `*` |
| CorsPromotion.PromoteRequestKey | cors.js:106 | For a name starting with `access-control-request-`, the first `request` replaced is the prefix's own, giving `access-control-allow-` plus the same suffix |
| CorsPromotion.PromoteSuffix | cors.js:106 | `access-control-request-X` becomes `access-control-allow-X` for every suffix X |
| CorsPromotion.PromoteInjective | cors.js:106 | Two different echoed names never write the same response header |
| CorsPromotion.RequestOriginPromotes | cors.js:106 | `access-control-request-origin` is echoed onto `access-control-allow-origin` |
| CorsPromotion.EchoAll | cors.js:102-108 | The echo loop only adds headers, and each added header is the promoted name of a client header it echoes |
| CorsPromotion.EchoValue | cors.js:102-108 | An echoed name ends with the last value iteration gives it, or keeps its earlier value when iteration gives none |
| CorsPromotion.CorsHeaders | cors.js:99-108 | `access-control-allow-origin` is always set on the response |
| CorsPromotion.EchoedRequestHeader | cors.js:102-108 | Every `access-control-request-X` the client sent comes back as `access-control-allow-X` with all its values joined by ", " |
| CorsPromotion.NotSentEcho | cors.js:99-108 | A request name the client did not send yields a response header only if it is the origin header, which then has its origin-based value |
| CorsPromotion.AllowOriginValue | cors.js:99-108 | `access-control-allow-origin` is the client's request-origin header when sent, and otherwise its origin or `*` |
| CorsPromotion.OnlyEchoes | cors.js:99-108 | Every response header besides the origin is the echo of a stored `access-control-request-` name |
| CorsPromotion.NotSentNotEchoed | cors.js:102-108 | A request name the client did not send, other than the origin one, is not echoed |
| RequestPipeline.RenamedEntry | cors.js:115 | A copied header keeps its value; a leading `x-cors-` is removed, and a name without `x-cors-` is kept |
| RequestPipeline.StripOnlyFirst | cors.js:115 | A doubled `x-cors-` prefix leaves one `x-cors-` behind |
| RequestPipeline.Copied | cors.js:112-118 | Forwarding copies every iterated client header under its stripped name, and throws exactly when one is invalid; without forwarding nothing is copied |
| RequestPipeline.Prepared | cors.js:112-129 | Copying and adding `x-forwarded-for` succeed exactly when the copied headers and the forwarded address are valid |
| RequestPipeline.NothingForwarded | cors.js:112-129 | With forwarding off, the list before the policy's edits holds only the forwarded address, if any |
| RequestPipeline.ClientForwarded | cors.js:112-129 | With forwarding on and no clear, the list holds the client's iterated headers under stripped names, then the forwarded address |
| RequestPipeline.BarePrefixThrows | cors.js:113-117 | A client header named exactly `x-cors-` makes the handler throw when forwarding is on |
| RequestPipeline.DeleteThenAppend | cors.js:131-139 | After the deletes and appends, a deleted name keeps only its appended values; others keep theirs followed by the appended ones |
| RequestPipeline.Edit | cors.js:131-144 | After deletes, appends and sets, a set name holds only its last set value; otherwise as after the appends |
| RequestPipeline.EditedBySet | cors.js:141-144 | A name the policy sets holds only the last set value, normalized |
| RequestPipeline.EditedByDelete | cors.js:131-139 | A deleted name that is not set holds only its appended values, normalized |
| RequestPipeline.Finish | cors.js:131-146 | The edits then the `host` override: `host` holds only the target host, and every other name is as the edits leave it |
| RequestPipeline.RequestHeaders | cors.js:111-146 | The outbound headers exist exactly when every forwarded client header (after renaming), the forwarded address, every deleted name, every appended and set header and the target host are valid; then under every name they hold the target host for `host` and what the clear, deletes, sets and appends leave otherwise |
| RequestPipeline.HostIsTarget | cors.js:146 | The outbound `host` is the target's host, whatever the client or the policy said |
| RequestPipeline.DeletedUnlessReadded | cors.js:131-144 | A deleted name is gone unless the policy appends or sets it again |
| RequestPipeline.ForwardedForDeleted | cors.js:127-134 | Deleting `x-forwarded-for` removes the forwarded address when nothing re-adds it |
| RequestPipeline.SetOverridesAppend | cors.js:136-144 | A set overrides every value appended for the same name |
| ResponsePipeline.Received | cors.js:13-17 | Upstream headers then deletes: a deleted name is empty, and others hold the upstream's normalized values |
| ResponsePipeline.DeleteThenSet | cors.js:13-21 | After the sets, a set name holds only its last set value; otherwise as after the deletes |
| ResponsePipeline.ResponseHeaders | cors.js:13-25 | The relayed headers exist exactly when upstream and policy headers are valid, and under each name hold what the edits leave followed by the appended values |
| ResponsePipeline.SetWins | cors.js:19-21 | A name the policy sets holds only its last set value before the appends |
| ResponsePipeline.SetThenAppended | cors.js:19-25 | A set name ends with its set value followed by every value appended for it |
| ResponsePipeline.DeletedThenAppended | cors.js:15-25 | A deleted name that is not set again keeps only its appended values |
| ResponsePipeline.Untouched | cors.js:13-25 | An upstream header no rule names reaches the client with its upstream values |
| ResponsePipeline.ToInt32 | cors.js:35-36 | The status code given to `writeHead` is wrapped to a signed 32-bit integer congruent to it |
| ResponsePipeline.ToInt32Small | cors.js:35-36 | A status code already in 32-bit range is unchanged by the wrap |
| ResponsePipeline.WriteHead | cors.js:35-39 | `writeHead` throws exactly when the wrapped status is outside 100..999; otherwise it sends that status, using a given reason as the phrase |
| ResponsePipeline.AssignStatus | cors.js:27-29 | A non-zero `setStatusCode` becomes the response's status code; an absent or zero one leaves the response as it was; the status message is never touched |
| ResponsePipeline.Relay | cors.js:43-46 | A transport error ends the client response with status 200 and an empty body |
| ResponsePipeline.UpstreamStatusWins | cors.js:27-39 | The client gets the upstream's status with the standard phrase, whatever `setStatusCode` says |
| ResponsePipeline.BadStatusThrows | cors.js:35-39 | An upstream status outside 100..999 after wrapping makes `writeHead` throw |
| Proxy.RecordGet | cors.js:55 | Looking up `req.headers.host` gives the value of a header stored under exactly that name, and nothing when none is |
| Proxy.OwnUrlText | cors.js:52-55 | The request's own URL text is `https://` when the socket is encrypted and `http://` otherwise, then the `host` header's value or `undefined` when there is none, then `req.url` |
| Proxy.BodyOf | cors.js:149 | The body is the policy's `body` exactly when it is a non-empty string, and otherwise the inbound request stream |
| Proxy.TransportOf | cors.js:10 | The HTTPS client is used exactly when the options' protocol is `https:` |
| Proxy.Dispatch | cors.js:78-166 | Once a policy is found the request is never rejected; a dispatched request has no protocol and an allow-origin header |
| Proxy.Handle | cors.js:51-76 | The only rejection is 403 "No CORS configuration found" |
| Proxy.Serve | cors.js:51-76 | A rejected request ends with 403 and the message, and a throwing handler crashes with its fault |
| Proxy.RejectedExactly | cors.js:51-76 | A request is rejected exactly when its headers and own URL are readable and no configuration is found |
| Proxy.DispatchedShape | cors.js:151-157 | A dispatched request goes to the target's host and pathname, with the policy's method, redirect flag, body and response rules, and `host` set to the target |
| Proxy.NeverHttps | cors.js:10 | The HTTP client, never the HTTPS one, sends every dispatched request |
| Proxy.AllowOriginAlwaysSet | cors.js:99 | Every dispatched request answers the client with `access-control-allow-origin` |
| Proxy.MissingUrlThrows | cors.js:96 | A policy without `url` makes the handler throw |

## Left out

- The HTTP server, `listen`, body piping (`req.pipe`, `proxyRes.pipe`) and `follow-redirects`: these are I/O. The model stops at the options, the body source and the status line.
- `console.log` and `console.error`: output only.
- JSON parsing, URL parsing and URL resolution are parameters (`Env`). The model does not check that a JSON field has the expected type. A present field of another type, such as `null` or a non-boolean flag, is outside the model, and `PolicyDoc` holds only well-typed fields.
- JSON parsing is a parameter of the model. It yields `None` for malformed text and for `null`, both of which throw in the code (at `JSON.parse`, at the destructuring or at `config.url`). It yields the object with no fields for any other value that is not an object, such as a number, a string or an array, because none of these has a policy field. That object then fails at `new URL(undefined)` in query mode and takes `req.url` alone in referer mode, as in the code.
- `Object.fromEntries(headers)` at cors.js:38 and cors.js:153: the model keeps the header list. The merge of `res.setHeader` values with the headers given to `writeHead` is not modelled either.
- Node's own validation of `res.setHeader` names and values (cors.js:99, 106) is not modelled, and that call is taken never to throw.
- `setStatusMessage` (cors.js:31-33) is never part of the response options, so the branch cannot run and is not modelled.
- `req.socket.remoteAddress` is a string parameter. An undefined address, which `append` would turn into `"undefined"`, is not modelled.
- Header values in `req.headers` and `proxyRes.headers` are taken as strings. Node's array values, and their conversion by `new Headers`, are not modelled.
- Strings are sequences of Unicode scalar values, where JavaScript has UTF-16 code units. The two agree on every accepted header name and value, because a character above 0xFF is rejected either way, by the byte-string conversion. No other encoding work is modelled.
- An exception on the server is the outcome `Threw`. What Node does afterwards (crash the process) is not modelled.
- HeaderIteration.ClearLive: the contract states only that headers are removed. What survives and what is lost are stated by `ClearLiveKeepsSecond`, `ClearLiveSingleName`, `ClearLiveLosesCookies` and the examples `ClearLiveExample`, `ClearLiveCookieExample` and `ClearLiveCookieThenMore`, not as a closed formula.
