/**
  The headers of the outbound request (cors.js:111-146), built in a fixed
  order: copy the client's headers (dropping the first `x-cors-` from each
  name), clear them when asked, add `x-forwarded-for`, apply the deletes,
  the appends and the sets of the policy, and finally force `host` to the
  target's host.  Every step goes through the `Headers` methods, so a bad
  name or value throws; that is the `Failure` of the result.
 */
module RequestPipeline {
  import opened Wrappers
  import opened Strings
  import opened HeaderList
  import opened Headers
  import opened HeaderIteration
  import opened Policy

  const OverridePrefix := "x-cors-"
  const ForwardedFor := "x-forwarded-for"
  const Host := "host"

  /** `key.replace('x-cors-', '')`: the first occurrence only, wherever it is. */
  function StripOverride(name: string): string {
    ReplaceFirst(name, OverridePrefix, "")
  }

  /** The iterated client headers under their stripped names (cors.js:113-117). */
  function Renamed(view: HeaderList): (r: HeaderList)
    ensures |r| == |view|
  {
    seq(|view|, i requires 0 <= i < |view| => Header(StripOverride(view[i].name), view[i].value))
  }

  /** Step 1.1: the client's headers, or nothing when forwarding is off. */
  function Copied(client: HeaderList, forward: bool): (r: Result<HeaderList, TypeError>)
    ensures r.Success? <==> !forward || AllAcceptable(Renamed(View(client)))
    ensures r.Success? ==> forall m :: (Values(r.value, m) ==
      if forward then Values(NormalizeAll(Renamed(View(client))), m) else [])
  {
    if forward then AppendAll([], Renamed(View(client))) else Success([])
  }

  /** Steps 1.1 and 1.2 with the clear between them (cors.js:112-129). */
  function Prepared(client: HeaderList, p: Policy, remote: string): (r: Result<HeaderList, TypeError>)
    ensures r.Success? <==>
      (!p.forwardRequestHeaders || AllAcceptable(Renamed(View(client)))) &&
      (!p.forwardIpAddress || Acceptable(Header(ForwardedFor, remote)))
  {
    var copied :- Copied(client, p.forwardRequestHeaders);
    var kept := if p.ignoreRequestHeaders then ClearLive(copied, 0) else copied;
    if p.forwardIpAddress then AppendHeader(kept, ForwardedFor, remote) else Success(kept)
  }

  /** What the policy's deletes, appends and sets leave under one name, before `host` is forced. */
  function Edited(prepared: HeaderList, p: Policy, m: string): seq<string> {
    var sets := Values(NormalizeAll(p.setRequestHeaders), m);
    if sets != [] then [Last(sets)]
    else
      (if Named(p.deleteRequestHeaders, m) then [] else Values(prepared, m)) +
      Values(NormalizeAll(p.appendRequestHeaders), m)
  }

  /** Steps 1.3 and 1.4 (cors.js:131-139). */
  function DeleteThenAppend(prepared: HeaderList, p: Policy): (r: Result<HeaderList, TypeError>)
    ensures r.Success? <==> AllNames(p.deleteRequestHeaders) && AllAcceptable(p.appendRequestHeaders)
    ensures r.Success? ==> forall m :: (Values(r.value, m) ==
      (if Named(p.deleteRequestHeaders, m) then [] else Values(prepared, m)) +
      Values(NormalizeAll(p.appendRequestHeaders), m))
  {
    var deleted :- DeleteAll(prepared, p.deleteRequestHeaders);
    AppendAll(deleted, p.appendRequestHeaders)
  }

  /** Steps 1.3 to 1.5 (cors.js:131-144). */
  function Edit(prepared: HeaderList, p: Policy): (r: Result<HeaderList, TypeError>)
    ensures r.Success? <==>
      AllNames(p.deleteRequestHeaders) && AllAcceptable(p.appendRequestHeaders) && AllAcceptable(p.setRequestHeaders)
    ensures r.Success? ==> forall m :: Values(r.value, m) == Edited(prepared, p, m)
  {
    var appended :- DeleteThenAppend(prepared, p);
    SetAll(appended, p.setRequestHeaders)
  }

  /** Steps 1.3 to 1.5 and the `host` override (cors.js:131-146). */
  function Finish(prepared: HeaderList, p: Policy, targetHost: string): (r: Result<HeaderList, TypeError>)
    ensures r.Success? <==> Edit(prepared, p).Success? && Acceptable(Header(Host, targetHost))
    ensures r.Success? ==> forall m :: (Values(r.value, m) ==
      if SameName(m, Host) then [Normalize(targetHost)] else Edited(prepared, p, m))
  {
    var edited :- Edit(prepared, p);
    SetHeader(edited, Host, targetHost)
  }

  /** The outbound request headers (cors.js:97, 111-146). */
  function RequestHeaders(client: HeaderList, p: Policy, remote: string, targetHost: string): (r: Result<HeaderList, TypeError>)
    ensures r.Success? <==>
      (!p.forwardRequestHeaders || AllAcceptable(Renamed(View(client)))) &&
      (!p.forwardIpAddress || Acceptable(Header(ForwardedFor, remote))) &&
      AllNames(p.deleteRequestHeaders) && AllAcceptable(p.appendRequestHeaders) &&
      AllAcceptable(p.setRequestHeaders) && Acceptable(Header(Host, targetHost))
    ensures r.Success? ==> Prepared(client, p, remote).Success? && forall m :: (Values(r.value, m) ==
      if SameName(m, Host) then [Normalize(targetHost)] else Edited(Prepared(client, p, remote).value, p, m))
  {
    var prepared :- Prepared(client, p, remote);
    Finish(prepared, p, targetHost)
  }

  lemma EditedBySet(prepared: HeaderList, p: Policy, m: string)
    requires Values(p.setRequestHeaders, m) != []
    ensures Edited(prepared, p, m) == [Normalize(Last(Values(p.setRequestHeaders, m)))]
  {
    var vs := Values(p.setRequestHeaders, m);
    ValuesNormalized(p.setRequestHeaders, m);
    NormalizeLast(vs);
  }

  lemma EditedByDelete(prepared: HeaderList, p: Policy, m: string)
    requires Values(p.setRequestHeaders, m) == [] && Named(p.deleteRequestHeaders, m)
    ensures Edited(prepared, p, m) == NormalizeValues(Values(p.appendRequestHeaders, m))
  {
    ValuesNormalized(p.setRequestHeaders, m);
    ValuesNormalized(p.appendRequestHeaders, m);
    assert [] + NormalizeValues(Values(p.appendRequestHeaders, m)) == NormalizeValues(Values(p.appendRequestHeaders, m));
  }

  /** The final `host` is the target's host, whatever the client or the policy said. */
  lemma HostIsTarget(client: HeaderList, p: Policy, remote: string, targetHost: string)
    requires RequestHeaders(client, p, remote, targetHost).Success?
    ensures Values(RequestHeaders(client, p, remote, targetHost).value, Host) == [Normalize(targetHost)]
    ensures Get(RequestHeaders(client, p, remote, targetHost).value, Host) == Some(Normalize(targetHost))
  {
    assert SameName(Host, Host);
  }

  /**
    A name the policy deletes is gone unless the policy appends or sets it
    again.  This includes `x-forwarded-for`, which is added before the deletes.
   */
  lemma DeletedUnlessReadded(client: HeaderList, p: Policy, remote: string, targetHost: string, m: string)
    requires RequestHeaders(client, p, remote, targetHost).Success?
    requires Named(p.deleteRequestHeaders, m) && !SameName(m, Host)
    ensures Values(RequestHeaders(client, p, remote, targetHost).value, m) ==
      if Values(p.setRequestHeaders, m) != [] then [Normalize(Last(Values(p.setRequestHeaders, m)))]
      else NormalizeValues(Values(p.appendRequestHeaders, m))
  {
    var prepared := Prepared(client, p, remote).value;
    if Values(p.setRequestHeaders, m) != [] {
      EditedBySet(prepared, p, m);
    } else {
      EditedByDelete(prepared, p, m);
    }
  }

  /** The forwarded address does not survive a delete of `x-forwarded-for` with nothing re-added. */
  lemma ForwardedForDeleted(client: HeaderList, p: Policy, remote: string, targetHost: string)
    requires RequestHeaders(client, p, remote, targetHost).Success?
    requires Named(p.deleteRequestHeaders, ForwardedFor)
    requires Values(p.setRequestHeaders, ForwardedFor) == [] && Values(p.appendRequestHeaders, ForwardedFor) == []
    ensures !Contains(RequestHeaders(client, p, remote, targetHost).value, ForwardedFor)
  {
    var r := RequestHeaders(client, p, remote, targetHost).value;
    assert !SameName(ForwardedFor, Host) by {
      assert Lower(ForwardedFor)[0] == 'x' && Lower(Host)[0] == 'h';
    }
    DeletedUnlessReadded(client, p, remote, targetHost, ForwardedFor);
    ContainsValues(r, ForwardedFor);
  }

  /** A set wins over every value appended for the same name (other than `host`). */
  lemma SetOverridesAppend(client: HeaderList, p: Policy, remote: string, targetHost: string, m: string)
    requires RequestHeaders(client, p, remote, targetHost).Success?
    requires Values(p.setRequestHeaders, m) != [] && !SameName(m, Host)
    ensures Values(RequestHeaders(client, p, remote, targetHost).value, m) ==
      [Normalize(Last(Values(p.setRequestHeaders, m)))]
  {
    var prepared := Prepared(client, p, remote).value;
    EditedBySet(prepared, p, m);
  }

  /**
    With forwarding off, nothing of the client's is copied: before the
    policy's edits the list holds at most the forwarded address.
   */
  lemma NothingForwarded(client: HeaderList, p: Policy, remote: string)
    requires !p.forwardRequestHeaders
    requires Prepared(client, p, remote).Success?
    ensures forall m :: (Values(Prepared(client, p, remote).value, m) ==
      if p.forwardIpAddress && SameName(m, ForwardedFor) then [Normalize(remote)] else [])
  {
    ClearLiveDone([], 0);
  }

  /**
    With forwarding on and no clear, the list before the policy's edits is
    the client's iterated headers under their stripped names, then the
    forwarded address.
   */
  lemma ClientForwarded(client: HeaderList, p: Policy, remote: string)
    requires p.forwardRequestHeaders && !p.ignoreRequestHeaders
    requires Prepared(client, p, remote).Success?
    ensures forall m :: (Values(Prepared(client, p, remote).value, m) ==
      Values(NormalizeAll(Renamed(View(client))), m) +
      (if p.forwardIpAddress && SameName(m, ForwardedFor) then [Normalize(remote)] else []))
  {
  }

  /** Each copied header keeps its value and loses only the first `x-cors-` of its name. */
  lemma RenamedEntry(view: HeaderList, i: nat)
    requires i < |view|
    ensures Renamed(view)[i].value == view[i].value
    ensures StartsWith(view[i].name, OverridePrefix) ==>
      Renamed(view)[i].name == view[i].name[|OverridePrefix|..]
    ensures (forall j :: 0 <= j ==> !OccursAt(view[i].name, OverridePrefix, j)) ==>
      Renamed(view)[i].name == view[i].name
  {
    if StartsWith(view[i].name, OverridePrefix) {
      ReplaceFirstAtFront(view[i].name, OverridePrefix, "");
    }
    if forall j :: 0 <= j ==> !OccursAt(view[i].name, OverridePrefix, j) {
      ReplaceFirstAbsent(view[i].name, OverridePrefix, "");
    }
  }

  /** Only the first `x-cors-` goes: a doubled prefix leaves one behind. */
  lemma StripOnlyFirst(rest: string)
    ensures StripOverride(OverridePrefix + OverridePrefix + rest) == OverridePrefix + rest
  {
    var s := OverridePrefix + OverridePrefix + rest;
    assert StartsWith(s, OverridePrefix) by {
      assert s[..|OverridePrefix|] == OverridePrefix;
    }
    ReplaceFirstAtFront(s, OverridePrefix, "");
    assert s[|OverridePrefix|..] == OverridePrefix + rest;
  }

  /**
    A client header named exactly `x-cors-` is stripped to the empty name,
    which `append` refuses: with forwarding on the handler throws.
   */
  lemma BarePrefixThrows(client: HeaderList, p: Policy, remote: string, targetHost: string)
    requires p.forwardRequestHeaders && Contains(client, OverridePrefix)
    ensures RequestHeaders(client, p, remote, targetHost).Failure?
  {
    assert IsLower(OverridePrefix);
    ContainedIsSorted(client, OverridePrefix);
    SortedNameInView(client, OverridePrefix);
    var view := View(client);
    var e :| e in view && e.name == OverridePrefix;
    var i :| 0 <= i < |view| && view[i] == e;
    assert StartsWith(OverridePrefix, OverridePrefix);
    RenamedEntry(view, i);
    assert Renamed(view)[i].name == "";
    assert !Acceptable(Renamed(view)[i]);
  }
}
