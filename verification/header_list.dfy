/**
  The header list of the Fetch Standard (section 2.2.2): an ordered list of
  (name, value) pairs in which names are compared byte-case-insensitively and
  a name may occur many times.  `Values(l, name)` is the multimap view of a
  list: every value stored under `name`, in list order.  Each operation is
  specified by what it does to that view.
 */
module HeaderList {
  import opened Wrappers
  import opened Strings

  datatype Header = Header(name: string, value: string)

  type HeaderList = seq<Header>

  /** Byte-case-insensitive match of two header names. */
  predicate SameName(a: string, b: string) {
    Lower(a) == Lower(b)
  }

  predicate Matches(h: Header, name: string) {
    SameName(h.name, name)
  }

  /** Every value stored under `name`, in list order. */
  function Values(l: HeaderList, name: string): seq<string> {
    if |l| == 0 then []
    else (if Matches(l[0], name) then [l[0].value] else []) + Values(l[1..], name)
  }

  predicate Contains(l: HeaderList, name: string) {
    exists h :: h in l && Matches(h, name)
  }

  function Last(xs: seq<string>): string
    requires |xs| > 0
  {
    xs[|xs| - 1]
  }

  lemma LastAppend(a: seq<string>, b: seq<string>)
    requires |a + b| > 0
    ensures Last(a + b) == if b == [] then Last(a) else Last(b)
  {
    if b == [] {
      assert a + b == a;
    }
  }

  lemma {:induction false} ValuesConcat(a: HeaderList, b: HeaderList, name: string)
    ensures Values(a + b, name) == Values(a, name) + Values(b, name)
    decreases |a|
  {
    if |a| > 0 {
      assert (a + b)[0] == a[0];
      assert (a + b)[1..] == a[1..] + b;
      ValuesConcat(a[1..], b, name);
      calc {
        Values(a + b, name);
        (if Matches(a[0], name) then [a[0].value] else []) + Values(a[1..] + b, name);
        (if Matches(a[0], name) then [a[0].value] else []) + (Values(a[1..], name) + Values(b, name));
        Values(a, name) + Values(b, name);
      }
    } else {
      assert a + b == b;
    }
  }

  lemma ValuesConcatAll(a: HeaderList, b: HeaderList)
    ensures forall m :: Values(a + b, m) == Values(a, m) + Values(b, m)
  {
    forall m {
      ValuesConcat(a, b, m);
    }
  }

  lemma {:induction false} ContainsValues(l: HeaderList, name: string)
    ensures Contains(l, name) <==> Values(l, name) != []
    decreases |l|
  {
    if |l| > 0 {
      ContainsValues(l[1..], name);
      assert forall h :: h in l <==> h == l[0] || h in l[1..];
    }
  }

  /** Two spellings of a name select the same values. */
  lemma {:induction false} ValuesSameName(l: HeaderList, a: string, b: string)
    requires SameName(a, b)
    ensures Values(l, a) == Values(l, b)
    decreases |l|
  {
    if |l| > 0 {
      ValuesSameName(l[1..], a, b);
    }
  }

  /** The name of the first header matching `name`, if any. */
  function FirstName(l: HeaderList, name: string): (r: Option<string>)
    ensures r.Some? ==> SameName(r.value, name)
  {
    if |l| == 0 then None
    else if Matches(l[0], name) then Some(l[0].name)
    else FirstName(l[1..], name)
  }

  /**
    Append (name, value): the name takes the spelling of the first header
    already stored under it, and the pair goes to the end of the list.
   */
  function Append(l: HeaderList, name: string, value: string): (r: HeaderList)
    ensures forall m :: Values(r, m) == Values(l, m) + (if SameName(m, name) then [value] else [])
    ensures |r| == |l| + 1 && r[..|l|] == l
  {
    var n := FirstName(l, name).GetOr(name);
    ValuesConcatAll(l, [Header(n, value)]);
    assert forall m :: Values([Header(n, value)], m) == if SameName(m, name) then [value] else [];
    l + [Header(n, value)]
  }

  lemma {:induction false} DeleteAbsent(l: HeaderList, name: string)
    requires !Contains(l, name)
    ensures Delete(l, name) == l
    decreases |l|
  {
    if |l| > 0 {
      assert !Matches(l[0], name) by {
        assert l[0] in l;
      }
      assert !Contains(l[1..], name) by {
        forall h | h in l[1..] ensures !Matches(h, name) {
          assert h in l;
        }
      }
      DeleteAbsent(l[1..], name);
      assert Delete(l, name) == [l[0]] + Delete(l[1..], name);
      assert l == [l[0]] + l[1..];
    }
  }

  lemma {:induction false} DeleteEveryMatch(l: HeaderList, name: string)
    requires forall h :: h in l ==> Matches(h, name)
    ensures Delete(l, name) == []
    decreases |l|
  {
    if |l| > 0 {
      assert l[0] in l;
      assert forall h :: h in l[1..] ==> h in l;
      DeleteEveryMatch(l[1..], name);
    }
  }

  /** Delete: remove every header whose name matches. */
  function Delete(l: HeaderList, name: string): (r: HeaderList)
    ensures forall m :: Values(r, m) == if SameName(m, name) then [] else Values(l, m)
    ensures forall h :: h in r <==> h in l && !Matches(h, name)
    ensures |r| <= |l|
    ensures Contains(l, name) ==> |r| < |l|
  {
    if |l| == 0 then []
    else if Matches(l[0], name) then Delete(l[1..], name)
    else [l[0]] + Delete(l[1..], name)
  }

  /**
    Set (name, value): if the name is present, the first matching header gets
    the new value and the others are removed; otherwise the pair is appended.
   */
  function Set(l: HeaderList, name: string, value: string): (r: HeaderList)
    ensures forall m :: Values(r, m) == if SameName(m, name) then [value] else Values(l, m)
    ensures forall h :: !Matches(h, name) ==> (h in r <==> h in l)
  {
    if |l| == 0 then [Header(name, value)]
    else
      assert forall h :: h in l <==> h == l[0] || h in l[1..];
      if Matches(l[0], name) then
        var rest := Delete(l[1..], name);
        assert ([Header(l[0].name, value)] + rest)[1..] == rest;
        [Header(l[0].name, value)] + rest
      else
        var rest := Set(l[1..], name, value);
        assert ([l[0]] + rest)[1..] == rest;
        [l[0]] + rest
  }

  /** Get: `None` (JavaScript `null`) when absent, else all values joined by ", ". */
  function Get(l: HeaderList, name: string): (r: Option<string>)
    ensures r.None? <==> !Contains(l, name)
    ensures r.Some? ==> r.value == Join(Values(l, name), ", ")
  {
    ContainsValues(l, name);
    var vs := Values(l, name);
    if vs == [] then None else Some(Join(vs, ", "))
  }

  /** Some name of `names` matches `m`. */
  predicate Named(names: seq<string>, m: string) {
    exists i :: 0 <= i < |names| && SameName(names[i], m)
  }

  /** Delete each name of `names`, in order. */
  function DeleteEach(l: HeaderList, names: seq<string>): (r: HeaderList)
    ensures forall m :: Values(r, m) == if Named(names, m) then [] else Values(l, m)
    decreases |names|
  {
    if |names| == 0 then l
    else
      var r := DeleteEach(Delete(l, names[0]), names[1..]);
      assert forall m :: Named(names, m) <==> SameName(names[0], m) || Named(names[1..], m) by {
        forall m ensures Named(names, m) ==> SameName(names[0], m) || Named(names[1..], m) {
          if Named(names, m) {
            var i :| 0 <= i < |names| && SameName(names[i], m);
            if i > 0 {
              assert SameName(names[1..][i - 1], m);
            }
          }
        }
      }
      r
  }

  /** Append each pair of `ps`, in order. */
  function AppendEach(l: HeaderList, ps: HeaderList): (r: HeaderList)
    ensures forall m :: Values(r, m) == Values(l, m) + Values(ps, m)
    decreases |ps|
  {
    if |ps| == 0 then l
    else AppendEach(Append(l, ps[0].name, ps[0].value), ps[1..])
  }

  /** Set each pair of `ps`, in order: for every name the last pair given wins. */
  function SetEach(l: HeaderList, ps: HeaderList): (r: HeaderList)
    ensures forall m :: Values(r, m) == if Values(ps, m) == [] then Values(l, m) else [Last(Values(ps, m))]
    decreases |ps|
  {
    if |ps| == 0 then l
    else
      var r := SetEach(Set(l, ps[0].name, ps[0].value), ps[1..]);
      assert forall m :: Values(r, m) == if Values(ps, m) == [] then Values(l, m) else [Last(Values(ps, m))] by {
        forall m ensures Values(r, m) == if Values(ps, m) == [] then Values(l, m) else [Last(Values(ps, m))] {
          var head := if Matches(ps[0], m) then [ps[0].value] else [];
          assert Values(ps, m) == head + Values(ps[1..], m);
          if Values(ps, m) != [] {
            LastAppend(head, Values(ps[1..], m));
          }
        }
      }
      r
  }
}
