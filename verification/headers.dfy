/**
  The `Headers` class of the Fetch Standard (section 5.1) with guard "none",
  as the handler uses it: `append`, `set` and `delete` first convert their
  arguments to byte strings, normalize the value and validate name and value,
  throwing a `TypeError` when validation fails; only then do they run the
  header-list algorithm.
 */
module Headers {
  import opened Wrappers
  import opened Strings
  import opened HeaderList

  /** The exception the `Headers` methods throw. */
  datatype TypeError = TypeError

  /** A `tchar` of RFC 9110, section 5.6.2. */
  predicate IsTokenChar(c: char) {
    ('a' <= c <= 'z') || ('A' <= c <= 'Z') || ('0' <= c <= '9')
    || c in "!#$%&'*+-.^_`|~"
  }

  /** A header name is a non-empty token. */
  predicate IsHeaderName(n: string) {
    |n| > 0 && forall i :: 0 <= i < |n| ==> IsTokenChar(n[i])
  }

  predicate IsHttpWhitespace(c: char) {
    c == '\t' || c == '\n' || c == '\r' || c == ' '
  }

  predicate IsTabOrSpace(c: char) {
    c == '\t' || c == ' '
  }

  /** WebIDL's ByteString conversion throws on a code unit above 0xFF. */
  predicate IsByteString(s: string) {
    forall i :: 0 <= i < |s| ==> s[i] <= 'ÿ'
  }

  /** A header value: no leading or trailing tab or space, no NUL, CR or LF. */
  predicate IsHeaderValue(v: string) {
    && (|v| > 0 ==> !IsTabOrSpace(v[0]) && !IsTabOrSpace(v[|v| - 1]))
    && forall i :: 0 <= i < |v| ==> v[i] != '\0' && v[i] != '\n' && v[i] != '\r'
  }

  function TrimLeading(s: string): (r: string)
    ensures |r| > 0 ==> !IsHttpWhitespace(r[0])
    ensures |r| <= |s| && r == s[|s| - |r|..]
    ensures forall i :: 0 <= i < |s| - |r| ==> IsHttpWhitespace(s[i])
  {
    if |s| > 0 && IsHttpWhitespace(s[0]) then TrimLeading(s[1..]) else s
  }

  function TrimTrailing(s: string): (r: string)
    ensures |r| > 0 ==> !IsHttpWhitespace(r[|r| - 1])
    ensures |r| <= |s| && r == s[..|r|]
    ensures forall i :: |r| <= i < |s| ==> IsHttpWhitespace(s[i])
  {
    if |s| > 0 && IsHttpWhitespace(s[|s| - 1]) then TrimTrailing(s[..|s| - 1]) else s
  }

  /** Everything of `v` outside `v[i..j]` is HTTP whitespace. */
  predicate OnlyWhitespaceOutside(v: string, i: nat, j: nat)
    requires i <= j <= |v|
  {
    && (forall k :: 0 <= k < i ==> IsHttpWhitespace(v[k]))
    && (forall k :: j <= k < |v| ==> IsHttpWhitespace(v[k]))
  }

  /** Normalize a value: strip leading and trailing HTTP whitespace. */
  function Normalize(v: string): (r: string)
    ensures |r| > 0 ==> !IsHttpWhitespace(r[0]) && !IsHttpWhitespace(r[|r| - 1])
    ensures |r| <= |v|
  {
    TrimTrailing(TrimLeading(v))
  }

  /** Only whitespace is cut away: the normalized value is a slice of the value. */
  lemma NormalizeIsSlice(v: string)
    ensures exists i: nat, j: nat :: i <= j <= |v| && Normalize(v) == v[i..j] && OnlyWhitespaceOutside(v, i, j)
  {
    var t := TrimLeading(v);
    var r := TrimTrailing(t);
    var i := |v| - |t|;
    assert r == v[i..i + |r|];
    assert OnlyWhitespaceOutside(v, i, i + |r|) by {
      forall k | i + |r| <= k < |v| ensures IsHttpWhitespace(v[k]) {
        assert v[k] == t[k - i];
      }
    }
  }

  /** A value without surrounding whitespace is left as it is. */
  lemma NormalizeKeepsTrimmed(v: string)
    requires |v| > 0 ==> !IsHttpWhitespace(v[0]) && !IsHttpWhitespace(v[|v| - 1])
    ensures Normalize(v) == v
  {
  }

  lemma NormalizeIdempotent(v: string)
    ensures Normalize(Normalize(v)) == Normalize(v)
  {
    NormalizeKeepsTrimmed(Normalize(v));
  }

  /** The pair passes the checks of `append` and `set`. */
  predicate Acceptable(h: Header) {
    IsHeaderName(h.name) && IsByteString(h.value) && IsHeaderValue(Normalize(h.value))
  }

  predicate AllAcceptable(ps: HeaderList) {
    forall i :: 0 <= i < |ps| ==> Acceptable(ps[i])
  }

  predicate AllNames(names: seq<string>) {
    forall i :: 0 <= i < |names| ==> IsHeaderName(names[i])
  }

  /** The pairs with their values normalized. */
  function NormalizeAll(ps: HeaderList): (r: HeaderList)
    ensures |r| == |ps|
    ensures forall i :: 0 <= i < |ps| ==> r[i] == Header(ps[i].name, Normalize(ps[i].value))
  {
    if |ps| == 0 then [] else [Header(ps[0].name, Normalize(ps[0].value))] + NormalizeAll(ps[1..])
  }

  /** A list of values, each normalized. */
  function NormalizeValues(vs: seq<string>): (r: seq<string>)
    ensures |r| == |vs|
  {
    if |vs| == 0 then [] else [Normalize(vs[0])] + NormalizeValues(vs[1..])
  }

  lemma {:induction false} NormalizeLast(vs: seq<string>)
    requires |vs| > 0
    ensures Last(NormalizeValues(vs)) == Normalize(Last(vs))
    decreases |vs|
  {
    var r := NormalizeValues(vs);
    if |vs| > 1 {
      NormalizeLast(vs[1..]);
      var rest := NormalizeValues(vs[1..]);
      assert r == [Normalize(vs[0])] + rest;
      assert r[|r| - 1] == rest[|rest| - 1];
      assert vs[|vs| - 1] == vs[1..][|vs| - 2];
    } else {
      assert r == [Normalize(vs[0])];
    }
  }

  /** Normalizing the pairs normalizes the values stored under every name, in place. */
  lemma {:induction false} ValuesNormalized(ps: HeaderList, m: string)
    ensures Values(NormalizeAll(ps), m) == NormalizeValues(Values(ps, m))
    decreases |ps|
  {
    if |ps| > 0 {
      ValuesNormalized(ps[1..], m);
      NormalizeAllSplit(ps);
      var n := NormalizeAll(ps);
      var tail := Values(ps[1..], m);
      assert Values(n, m) == (if Matches(ps[0], m) then [Normalize(ps[0].value)] else []) + Values(n[1..], m);
      if Matches(ps[0], m) {
        var vs := [ps[0].value] + tail;
        assert vs[0] == ps[0].value && vs[1..] == tail;
      } else {
        assert [] + tail == tail;
      }
    }
  }

  lemma AllAcceptableSplit(ps: HeaderList)
    requires |ps| > 0
    ensures AllAcceptable(ps) <==> Acceptable(ps[0]) && AllAcceptable(ps[1..])
  {
    assert forall i :: 1 <= i < |ps| ==> ps[i] == ps[1..][i - 1];
  }

  lemma NormalizeAllSplit(ps: HeaderList)
    requires |ps| > 0
    ensures NormalizeAll(ps)[0] == Header(ps[0].name, Normalize(ps[0].value))
    ensures NormalizeAll(ps)[1..] == NormalizeAll(ps[1..])
  {
  }

  /** `headers.append(name, value)`. */
  function AppendHeader(l: HeaderList, name: string, value: string): (r: Result<HeaderList, TypeError>)
    ensures r.Success? <==> Acceptable(Header(name, value))
    ensures r.Success? ==> r.value == Append(l, name, Normalize(value))
  {
    var v := Normalize(value);
    if !IsHeaderName(name) || !IsByteString(value) || !IsHeaderValue(v) then Failure(TypeError)
    else Success(Append(l, name, v))
  }

  /** `headers.set(name, value)`. */
  function SetHeader(l: HeaderList, name: string, value: string): (r: Result<HeaderList, TypeError>)
    ensures r.Success? <==> Acceptable(Header(name, value))
    ensures r.Success? ==> r.value == Set(l, name, Normalize(value))
  {
    var v := Normalize(value);
    if !IsHeaderName(name) || !IsByteString(value) || !IsHeaderValue(v) then Failure(TypeError)
    else Success(Set(l, name, v))
  }

  /** `headers.delete(name)`. */
  function DeleteHeader(l: HeaderList, name: string): (r: Result<HeaderList, TypeError>)
    ensures r.Success? <==> IsHeaderName(name)
    ensures r.Success? ==> r.value == Delete(l, name)
  {
    if !IsHeaderName(name) then Failure(TypeError)
    else if !Contains(l, name) then DeleteAbsent(l, name); Success(l)
    else Success(Delete(l, name))
  }

  /**
    `for (const [k, v] of ps) headers.append(k, v)`: the loop stops at the
    first pair that throws.  It succeeds exactly when every pair is acceptable,
    and then it is the plain header-list append of the normalized pairs.
   */
  function AppendAll(l: HeaderList, ps: HeaderList): (r: Result<HeaderList, TypeError>)
    ensures r.Success? <==> AllAcceptable(ps)
    ensures r.Success? ==> r.value == AppendEach(l, NormalizeAll(ps))
    decreases |ps|
  {
    if |ps| == 0 then Success(l)
    else
      AllAcceptableSplit(ps);
      NormalizeAllSplit(ps);
      var l' :- AppendHeader(l, ps[0].name, ps[0].value);
      AppendAll(l', ps[1..])
  }

  /** `for (const [k, v] of ps) headers.set(k, v)`. */
  function SetAll(l: HeaderList, ps: HeaderList): (r: Result<HeaderList, TypeError>)
    ensures r.Success? <==> AllAcceptable(ps)
    ensures r.Success? ==> r.value == SetEach(l, NormalizeAll(ps))
    decreases |ps|
  {
    if |ps| == 0 then Success(l)
    else
      AllAcceptableSplit(ps);
      NormalizeAllSplit(ps);
      match SetHeader(l, ps[0].name, ps[0].value)
      case Failure(e) => Failure(e)
      case Success(l') => SetAll(l', ps[1..])
  }

  /** `for (const k of names) headers.delete(k)`. */
  function DeleteAll(l: HeaderList, names: seq<string>): (r: Result<HeaderList, TypeError>)
    ensures r.Success? <==> AllNames(names)
    ensures r.Success? ==> r.value == DeleteEach(l, names)
    decreases |names|
  {
    if |names| == 0 then Success(l)
    else
      var l' :- DeleteHeader(l, names[0]);
      DeleteAll(l', names[1..])
  }

  /** `new Headers(record)`: every entry of the record is appended in order. */
  function FromRecord(record: HeaderList): (r: Result<HeaderList, TypeError>)
    ensures r.Success? <==> AllAcceptable(record)
    ensures r.Success? ==> forall m :: Values(r.value, m) == Values(NormalizeAll(record), m)
  {
    AppendAll([], record)
  }
}
