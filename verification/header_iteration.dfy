/**
  Iterating a `Headers` object (`for ... of headers`, `headers.keys()`).
  WebIDL pair iteration walks the result of the Fetch Standard's "sort and
  combine" (section 2.2.2): one entry per lowercased name in ascending
  code-unit order, the values of a name joined by ", ", except that every
  `set-cookie` value stays a separate entry.  The iterator keeps only an
  index and recomputes that list at every step, so deleting while iterating
  shifts the entries that have not been visited yet.
 */
module HeaderIteration {
  import opened Strings
  import opened HeaderList

  const SetCookie := "set-cookie"

  predicate StrictlySorted(s: seq<string>) {
    forall i, j :: 0 <= i < j < |s| ==> Less(s[i], s[j])
  }

  lemma PrependSorted(x: string, s: seq<string>)
    requires StrictlySorted(s)
    requires |s| > 0 ==> Less(x, s[0])
    ensures StrictlySorted([x] + s)
  {
    forall i, j | 0 <= i < j < |s| + 1
      ensures Less(([x] + s)[i], ([x] + s)[j])
    {
      if i == 0 && j > 1 {
        LessTransitive(x, s[0], s[j - 1]);
      }
    }
  }

  /** Insert `x` into a strictly sorted sequence, keeping it strictly sorted and free of repeats. */
  function Insert(x: string, s: seq<string>): (r: seq<string>)
    requires StrictlySorted(s)
    ensures StrictlySorted(r)
    ensures forall y :: y in r <==> y == x || y in s
  {
    if |s| == 0 then [x]
    else if x == s[0] then s
    else if Less(x, s[0]) then
      PrependSorted(x, s);
      [x] + s
    else
      LessTotal(x, s[0]);
      var rest := Insert(x, s[1..]);
      assert forall k :: 1 <= k < |s| ==> Less(s[0], s[k]);
      assert |rest| > 0 ==> rest[0] in rest;
      PrependSorted(s[0], rest);
      [s[0]] + rest
  }

  /** "Convert header names to a sorted-lowercase set". */
  function SortedNames(l: HeaderList): (r: seq<string>)
    ensures StrictlySorted(r)
    ensures forall n :: n in r <==> exists h :: h in l && Lower(h.name) == n
  {
    if |l| == 0 then []
    else
      assert forall h :: h in l <==> h == l[0] || h in l[1..];
      Insert(Lower(l[0].name), SortedNames(l[1..]))
  }

  /** A sorted name is lowercase and stored in the list. */
  lemma SortedNameContained(l: HeaderList, n: string)
    requires n in SortedNames(l)
    ensures IsLower(n) && Contains(l, n)
  {
    var h :| h in l && Lower(h.name) == n;
    LowerIdempotent(h.name);
  }

  /** A stored name shows up, lowercased, among the sorted names. */
  lemma ContainedIsSorted(l: HeaderList, m: string)
    requires Contains(l, m)
    ensures Lower(m) in SortedNames(l)
  {
    var h :| h in l && Matches(h, m);
  }

  function CookieEntries(vs: seq<string>): (r: HeaderList)
    ensures |r| == |vs|
    ensures forall e :: e in r ==> e.name == SetCookie
  {
    if |vs| == 0 then [] else [Header(SetCookie, vs[0])] + CookieEntries(vs[1..])
  }

  /** What iteration yields for one stored name. */
  function EntryValues(l: HeaderList, name: string): seq<string> {
    if name == SetCookie then Values(l, name) else [Join(Values(l, name), ", ")]
  }

  function Entries(l: HeaderList, name: string): (r: HeaderList)
    ensures forall e :: e in r ==> e.name == name
  {
    if name == SetCookie then CookieEntries(Values(l, name))
    else [Header(name, Join(Values(l, name), ", "))]
  }

  function ViewOf(l: HeaderList, names: seq<string>): (r: HeaderList)
    ensures forall e :: e in r ==> e.name in names
  {
    if |names| == 0 then []
    else
      var rest := ViewOf(l, names[1..]);
      assert forall e :: e in Entries(l, names[0]) + rest ==> e in Entries(l, names[0]) || e in rest;
      Entries(l, names[0]) + rest
  }

  /** The list a `Headers` iterator walks: "sort and combine". */
  function View(l: HeaderList): (r: HeaderList)
    ensures forall e :: e in r ==> e.name in SortedNames(l)
  {
    ViewOf(l, SortedNames(l))
  }

  lemma {:induction false} CookieEntriesValues(vs: seq<string>, m: string)
    ensures Values(CookieEntries(vs), m) == if SameName(SetCookie, m) then vs else []
    decreases |vs|
  {
    if |vs| > 0 {
      CookieEntriesValues(vs[1..], m);
      assert (CookieEntries(vs))[1..] == CookieEntries(vs[1..]);
    }
  }

  lemma EntriesValues(l: HeaderList, n: string, m: string)
    requires IsLower(n)
    ensures Values(Entries(l, n), m) == if n == Lower(m) then EntryValues(l, n) else []
  {
    if n == SetCookie {
      CookieEntriesValues(Values(l, n), m);
    }
  }

  lemma {:induction false} ViewOfValues(l: HeaderList, names: seq<string>, m: string)
    requires StrictlySorted(names)
    requires forall i :: 0 <= i < |names| ==> IsLower(names[i])
    ensures Values(ViewOf(l, names), m) == if Lower(m) in names then EntryValues(l, Lower(m)) else []
    decreases |names|
  {
    if |names| > 0 {
      ViewOfValues(l, names[1..], m);
      EntriesValues(l, names[0], m);
      ValuesConcat(Entries(l, names[0]), ViewOf(l, names[1..]), m);
      if names[0] == Lower(m) {
        forall k | 1 <= k < |names|
          ensures names[k] != Lower(m)
        {
          LessIrreflexive(names[0]);
        }
      }
    }
  }

  lemma SortedNamesLower(l: HeaderList)
    ensures forall i :: 0 <= i < |SortedNames(l)| ==> IsLower(SortedNames(l)[i])
  {
    forall i | 0 <= i < |SortedNames(l)|
      ensures IsLower(SortedNames(l)[i])
    {
      SortedNameContained(l, SortedNames(l)[i]);
    }
  }

  lemma LowerInSortedNames(l: HeaderList, m: string)
    ensures Lower(m) in SortedNames(l) <==> Contains(l, m)
  {
    if Contains(l, m) {
      ContainedIsSorted(l, m);
    }
    if Lower(m) in SortedNames(l) {
      var h :| h in l && Lower(h.name) == Lower(m);
      assert Matches(h, m);
    }
  }

  lemma SetCookieIsLower()
    ensures IsLower(SetCookie)
  {
  }

  /**
    Sort-and-combine keeps the multimap: under every name, iteration yields
    the stored values joined by ", " (or one by one for `set-cookie`), and
    nothing for a name that is not stored.
   */
  lemma ViewValues(l: HeaderList, m: string)
    ensures Values(View(l), m) ==
      if !Contains(l, m) then []
      else if SameName(m, SetCookie) then Values(l, m)
      else [Join(Values(l, m), ", ")]
  {
    var n := Lower(m);
    assert Values(View(l), m) == if n in SortedNames(l) then EntryValues(l, n) else [] by {
      SortedNamesLower(l);
      ViewOfValues(l, SortedNames(l), m);
    }
    assert Values(l, n) == Values(l, m) by {
      LowerIdempotent(m);
      ValuesSameName(l, n, m);
    }
    assert SameName(m, SetCookie) <==> n == SetCookie by {
      SetCookieIsLower();
    }
    LowerInSortedNames(l, m);
  }

  /** Entries of the first name precede every later entry. */
  lemma HeadBeforeRest(l: HeaderList, names: seq<string>, a: Header, b: Header)
    requires StrictlySorted(names) && |names| > 0
    requires a in Entries(l, names[0]) && b in ViewOf(l, names[1..])
    ensures Less(a.name, b.name)
  {
    var k :| 0 <= k < |names[1..]| && names[1..][k] == b.name;
    assert names[k + 1] == b.name;
  }

  lemma {:induction false} ViewOfOrdered(l: HeaderList, names: seq<string>)
    requires StrictlySorted(names)
    ensures forall i, j :: 0 <= i < j < |ViewOf(l, names)| ==>
      var v := ViewOf(l, names); v[i].name == v[j].name || Less(v[i].name, v[j].name)
    decreases |names|
  {
    if |names| > 0 {
      var tail := names[1..];
      assert StrictlySorted(tail) by {
        forall i, j | 0 <= i < j < |tail| ensures Less(tail[i], tail[j]) {
          assert tail[i] == names[i + 1] && tail[j] == names[j + 1];
        }
      }
      ViewOfOrdered(l, tail);
      var e := Entries(l, names[0]);
      var rest := ViewOf(l, tail);
      var v := ViewOf(l, names);
      assert v == e + rest;
      forall i, j | 0 <= i < j < |v|
        ensures v[i].name == v[j].name || Less(v[i].name, v[j].name)
      {
        if j < |e| {
          assert v[i] in e && v[j] in e;
        } else if i < |e| {
          assert v[i] in e && v[j] == rest[j - |e|];
          HeadBeforeRest(l, names, v[i], v[j]);
        } else {
          assert v[i] == rest[i - |e|] && v[j] == rest[j - |e|];
        }
      }
    }
  }

  /** Entries are yielded in ascending name order. */
  lemma ViewOrdered(l: HeaderList)
    ensures forall i, j :: 0 <= i < j < |View(l)| ==>
      View(l)[i].name == View(l)[j].name || Less(View(l)[i].name, View(l)[j].name)
  {
    ViewOfOrdered(l, SortedNames(l));
  }

  /** Every name the iterator yields is stored in the list. */
  lemma ViewNameContained(l: HeaderList, i: nat)
    requires i < |View(l)|
    ensures Contains(l, View(l)[i].name) && IsLower(View(l)[i].name)
  {
    assert View(l)[i] in View(l);
    SortedNameContained(l, View(l)[i].name);
  }

  /** A stored name is yielded by the iterator. */
  lemma SortedNameInView(l: HeaderList, n: string)
    requires n in SortedNames(l)
    ensures exists e :: e in View(l) && e.name == n
  {
    SortedNameContained(l, n);
    ViewValues(l, n);
    LowerIdempotent(n);
    ContainsValues(l, n);
    ContainsValues(View(l), n);
    var e :| e in View(l) && Matches(e, n);
    assert e.name in SortedNames(l);
    SortedNameContained(l, e.name);
  }

  /** The first entry carries the least name. */
  lemma ViewHead(l: HeaderList)
    requires |SortedNames(l)| > 0
    ensures |View(l)| > 0 && View(l)[0].name == SortedNames(l)[0]
  {
    var names := SortedNames(l);
    SortedNameContained(l, names[0]);
    ContainsValues(l, names[0]);
    assert |Entries(l, names[0])| > 0;
    assert View(l)[0] in Entries(l, names[0]);
  }

  lemma SortedTail(names: seq<string>)
    requires StrictlySorted(names) && |names| > 0
    ensures names[0] !in names[1..]
  {
    LessIrreflexive(names[0]);
  }

  /** A name other than `set-cookie` is yielded once, so the least one only at index 0. */
  lemma ViewLeastOnce(l: HeaderList, k: nat)
    requires |SortedNames(l)| > 0 && SortedNames(l)[0] != SetCookie
    requires 1 <= k < |View(l)|
    ensures View(l)[k].name != SortedNames(l)[0]
  {
    var names := SortedNames(l);
    var rest := ViewOf(l, names[1..]);
    assert View(l) == [Header(names[0], Join(Values(l, names[0]), ", "))] + rest;
    assert View(l)[k] in rest;
    SortedTail(names);
  }

  /**
    `for (const name of headers.keys()) headers.delete(name)` started at
    iterator index `index`.  Each step reads entry `index` of the current
    sort-and-combine list, deletes its name and moves the index on.
   */
  function ClearLive(l: HeaderList, index: nat): (r: HeaderList)
    ensures forall h :: h in r ==> h in l
    decreases |l|
  {
    var view := View(l);
    if index >= |view| then l
    else
      ViewNameContained(l, index);
      ClearLive(Delete(l, view[index].name), index + 1)
  }

  /** The head of a strictly sorted sequence is its least element. */
  lemma SortedHead(r: seq<string>, s: string)
    requires StrictlySorted(r) && s in r
    requires forall y :: y in r && y != s ==> Less(s, y)
    ensures r[0] == s
  {
    if r[0] != s {
      var k :| 0 <= k < |r| && r[k] == s;
      LessAsymmetric(r[0], s);
    }
  }

  /** Deleting a name removes exactly that name from the sorted names. */
  lemma SortedNamesAfterDelete(l: HeaderList, n: string)
    requires IsLower(n)
    ensures forall y :: y in SortedNames(Delete(l, n)) <==> y in SortedNames(l) && y != n
  {
    forall y
      ensures y in SortedNames(Delete(l, n)) <==> y in SortedNames(l) && y != n
    {
      if y in SortedNames(l) && y != n {
        var h :| h in l && Lower(h.name) == y;
        assert h in Delete(l, n);
      }
    }
  }

  lemma ClearLiveStep(l: HeaderList, index: nat)
    requires index < |View(l)|
    ensures ClearLive(l, index) == ClearLive(Delete(l, View(l)[index].name), index + 1)
  {
  }

  lemma ClearLiveDelete(l: HeaderList, index: nat, s: string)
    requires index < |View(l)|
    requires Values(ClearLive(Delete(l, View(l)[index].name), index + 1), s) == Values(Delete(l, View(l)[index].name), s)
    requires Values(Delete(l, View(l)[index].name), s) == Values(l, s)
    ensures Values(ClearLive(l, index), s) == Values(l, s)
  {
    ClearLiveStep(l, index);
  }

  lemma ClearLiveDone(l: HeaderList, index: nat)
    requires index >= |View(l)|
    ensures ClearLive(l, index) == l
  {
  }

  /**
    Deleting `n` from a list whose least name other than `n` is `s` leaves
    `s` first, with its values.
   */
  lemma LeastAfterDelete(l: HeaderList, n: string, s: string)
    requires IsLower(n) && s in SortedNames(l) && s != n
    requires forall y :: y in SortedNames(l) && y != s && y != n ==> Less(s, y)
    ensures |SortedNames(Delete(l, n))| > 0 && SortedNames(Delete(l, n))[0] == s
    ensures Values(Delete(l, n), s) == Values(l, s) != []
  {
    var l' := Delete(l, n);
    SortedNameContained(l, s);
    assert !SameName(s, n);
    SortedNamesAfterDelete(l, n);
    ContainsValues(l, s);
    SortedHead(SortedNames(l'), s);
  }

  lemma LeastSurvivesDelete(l: HeaderList, n: string)
    requires |SortedNames(l)| > 0
    requires IsLower(n) && n != SortedNames(l)[0]
    ensures |SortedNames(Delete(l, n))| > 0 && SortedNames(Delete(l, n))[0] == SortedNames(l)[0]
    ensures Values(Delete(l, n), SortedNames(l)[0]) == Values(l, SortedNames(l)[0])
  {
    var names := SortedNames(l);
    forall y | y in names && y != names[0]
      ensures Less(names[0], y)
    {
      var k :| 0 <= k < |names| && names[k] == y;
    }
    LeastAfterDelete(l, n, names[0]);
  }

  /** The live-iterator clear started at `index` leaves the values under `s` as they are. */
  predicate KeepsValues(l: HeaderList, index: nat, s: string) {
    Values(ClearLive(l, index), s) == Values(l, s)
  }

  /** One step of `ClearLiveKeepsLeast`, given the claim for the list after the step. */
  lemma KeepsLeastStep(l: HeaderList, index: nat, l': HeaderList, next: nat, s: string)
    requires index >= 1 && next == index + 1
    requires |SortedNames(l)| > 0 && SortedNames(l)[0] == s && s != SetCookie
    requires index < |View(l)| && l' == Delete(l, View(l)[index].name)
    requires KeepsValues(l', next, s)
    ensures KeepsValues(l, index, s)
  {
    var n := View(l)[index].name;
    ViewNameContained(l, index);
    ViewLeastOnce(l, index);
    LeastSurvivesDelete(l, n);
    ClearLiveDelete(l, index, s);
  }

  /**
    Once the index has passed 0, a least name other than `set-cookie` is never
    reached: it stays at index 0 of every later list.
   */
  lemma {:induction false} ClearLiveKeepsLeast(l: HeaderList, index: nat, s: string)
    requires index >= 1
    requires |SortedNames(l)| > 0 && SortedNames(l)[0] == s && s != SetCookie
    ensures KeepsValues(l, index, s)
    decreases |l|
  {
    if index < |View(l)| {
      var l' := Delete(l, View(l)[index].name);
      assert |l'| < |l| && |SortedNames(l')| > 0 && SortedNames(l')[0] == s by {
        ViewNameContained(l, index);
        ViewLeastOnce(l, index);
        LeastSurvivesDelete(l, View(l)[index].name);
      }
      var next: nat := index + 1;
      ClearLiveKeepsLeast(l', next, s);
      KeepsLeastStep(l, index, l', next, s);
    } else {
      ClearLiveDone(l, index);
    }
  }

  /** After the least name is deleted, the second least comes first. */
  lemma SecondBecomesLeast(l: HeaderList)
    requires |SortedNames(l)| >= 2
    ensures |SortedNames(Delete(l, SortedNames(l)[0]))| > 0
    ensures SortedNames(Delete(l, SortedNames(l)[0]))[0] == SortedNames(l)[1]
    ensures Values(Delete(l, SortedNames(l)[0]), SortedNames(l)[1]) == Values(l, SortedNames(l)[1]) != []
  {
    var names := SortedNames(l);
    SortedNameContained(l, names[0]);
    LessIrreflexive(names[0]);
    forall y | y in names && y != names[1] && y != names[0]
      ensures Less(names[1], y)
    {
      var k :| 0 <= k < |names| && names[k] == y;
    }
    LeastAfterDelete(l, names[0], names[1]);
  }

  /**
    The live-iterator clear does not clear: when a list holds at least two
    names and the second least is not `set-cookie`, every value stored under
    that second name survives.
   */
  lemma ClearLiveKeepsSecond(l: HeaderList)
    requires |SortedNames(l)| >= 2 && SortedNames(l)[1] != SetCookie
    ensures Values(ClearLive(l, 0), SortedNames(l)[1]) == Values(l, SortedNames(l)[1]) != []
  {
    ViewHead(l);
    ClearLiveStep(l, 0);
    SecondBecomesLeast(l);
    ClearLiveKeepsLeast(Delete(l, SortedNames(l)[0]), 1, SortedNames(l)[1]);
  }

  /** When every stored header has the same name, deleting that name empties the list. */
  lemma DeleteOnlyName(l: HeaderList)
    requires |SortedNames(l)| == 1
    ensures Delete(l, SortedNames(l)[0]) == []
  {
    var s := SortedNames(l)[0];
    forall h | h in l
      ensures Matches(h, s)
    {
      assert Lower(h.name) in SortedNames(l);
    }
    DeleteEveryMatch(l, s);
  }

  /** With a single name stored, the live-iterator clear does empty the list. */
  lemma ClearLiveSingleName(l: HeaderList)
    requires |SortedNames(l)| == 1
    ensures ClearLive(l, 0) == []
  {
    ViewHead(l);
    ClearLiveStep(l, 0);
    DeleteOnlyName(l);
    ClearLiveDone([], 1);
  }

  /** Concretely: headers `a` and `b`; `a` is deleted, then the loop ends with `b` still there. */
  lemma ClearLiveExample()
    ensures ClearLive([Header("a", "1"), Header("b", "2")], 0) == [Header("b", "2")]
  {
    var l := [Header("a", "1"), Header("b", "2")];
    assert Lower("a") == "a";
    assert Lower("b") == "b";
    assert SortedNames(l[1..]) == ["b"];
    assert SortedNames(l) == ["a", "b"];
    ViewHead(l);
    var l1 := Delete(l, "a");
    assert l1 == [Header("b", "2")];
    assert SortedNames(l1) == ["b"];
    assert |View(l1)| == 1;
  }

  /** A strictly sorted sequence whose every element is `s` is `[s]`. */
  lemma SortedSingleton(r: seq<string>, s: string)
    requires StrictlySorted(r) && s in r
    requires forall y :: y in r ==> y == s
    ensures r == [s]
  {
    assert r[0] in r;
    if |r| >= 2 {
      assert r[1] in r;
      assert Less(s, s);
      LessIrreflexive(s);
      assert false;
    }
  }

  /** With one name stored, iteration walks exactly that name's entries. */
  lemma ViewOfOneName(l: HeaderList, n: string)
    requires SortedNames(l) == [n]
    ensures View(l) == Entries(l, n)
  {
    var names := SortedNames(l);
    assert names[1..] == [];
    assert ViewOf(l, names) == Entries(l, n) + ViewOf(l, []);
  }

  /**
    The second name is lost when it is `set-cookie` with two or more values:
    deleting the least name moves the first cookie entry to index 0, index 1
    is another cookie entry, and so `set-cookie` is deleted as well.
   */
  lemma ClearLiveLosesCookies(l: HeaderList)
    requires |SortedNames(l)| == 2 && SortedNames(l)[1] == SetCookie
    requires |Values(l, SetCookie)| >= 2
    ensures ClearLive(l, 0) == []
  {
    ViewHead(l);
    ClearLiveStep(l, 0);
    OnlyCookiesLeft(l);
    ClearLiveFromCookie(Delete(l, SortedNames(l)[0]));
  }

  /** Deleting the least of two names leaves only `set-cookie`, with its values. */
  lemma OnlyCookiesLeft(l: HeaderList)
    requires |SortedNames(l)| == 2 && SortedNames(l)[1] == SetCookie
    ensures SortedNames(Delete(l, SortedNames(l)[0])) == [SetCookie]
    ensures Values(Delete(l, SortedNames(l)[0]), SetCookie) == Values(l, SetCookie)
  {
    SecondBecomesLeast(l);
    OtherNameLeft(l);
  }

  /** Deleting the least of two names leaves the other one alone. */
  lemma OtherNameLeft(l: HeaderList)
    requires |SortedNames(l)| == 2
    ensures SortedNames(Delete(l, SortedNames(l)[0])) == [SortedNames(l)[1]]
  {
    var names := SortedNames(l);
    SortedNameContained(l, names[0]);
    SortedNamesAfterDelete(l, names[0]);
    AllButFirst(names, SortedNames(Delete(l, names[0])));
  }

  /** A sorted sequence holding exactly the second of two names is that name alone. */
  lemma AllButFirst(names: seq<string>, rest: seq<string>)
    requires |names| == 2 && StrictlySorted(names) && StrictlySorted(rest)
    requires forall y :: y in rest <==> y in names && y != names[0]
    ensures rest == [names[1]]
  {
    assert names[0] != names[1] by {
      assert Less(names[0], names[1]);
      if names[0] == names[1] {
        LessIrreflexive(names[0]);
      }
    }
    assert names[1] in rest by {
      assert names[1] in names;
    }
    forall y | y in rest ensures y == names[1] {
      assert y in names;
    }
    SortedSingleton(rest, names[1]);
  }

  /** Started at index 1 over two or more cookie entries, the loop deletes `set-cookie`. */
  lemma ClearLiveFromCookie(l: HeaderList)
    requires SortedNames(l) == [SetCookie] && |Values(l, SetCookie)| >= 2
    ensures ClearLive(l, 1) == []
  {
    ViewOfOneName(l, SetCookie);
    assert View(l)[1] in Entries(l, SetCookie);
    ClearLiveStep(l, 1);
    DeleteOnlyName(l);
    ClearLiveDone([], 2);
  }

  /** Concretely: headers `a`, `set-cookie: x` and `set-cookie: y` are all deleted. */
  lemma ClearLiveCookieExample()
    ensures ClearLive([Header("a", "v"), Header(SetCookie, "x"), Header(SetCookie, "y")], 0) == []
  {
    var l := [Header("a", "v"), Header(SetCookie, "x"), Header(SetCookie, "y")];
    SetCookieIsLower();
    assert Lower("a") == "a";
    assert Less("a", SetCookie);
    assert SortedNames(l[2..]) == [SetCookie];
    assert SortedNames(l[1..]) == [SetCookie];
    assert SortedNames(l) == ["a", SetCookie];
    assert Values(l, SetCookie) == ["x", "y"] by {
      assert !SameName("a", SetCookie) by {
        assert Lower(SetCookie)[0] != Lower("a")[0];
      }
      assert Values(l[2..], SetCookie) == ["y"] + Values(l[3..], SetCookie);
      assert Values(l[1..], SetCookie) == ["x"] + Values(l[2..], SetCookie);
      assert Values(l, SetCookie) == Values(l[1..], SetCookie);
    }
    ClearLiveLosesCookies(l);
  }

  /**
    Concretely, a name after `set-cookie` survives: with `a`, two `set-cookie`
    headers and `z`, the first step deletes `a`, the step at index 1 lands on
    the second cookie entry and deletes `set-cookie`, and the loop then ends
    with `z` alone left at index 0.
   */
  lemma ClearLiveCookieThenMore()
    ensures ClearLive([Header("a", "v"), Header(SetCookie, "x"), Header(SetCookie, "y"), Header("z", "w")], 0)
      == [Header("z", "w")]
  {
    var l := [Header("a", "v"), Header(SetCookie, "x"), Header(SetCookie, "y"), Header("z", "w")];
    var l1 := [Header(SetCookie, "x"), Header(SetCookie, "y"), Header("z", "w")];
    var l2 := [Header("z", "w")];
    CookieThenMoreFirst();
    ClearLiveStep(l, 0);
    CookieThenMoreView();
    ClearLiveStep(l1, 1);
    CookieThenMoreLast();
    ClearLiveDone(l2, 2);
  }

  /** The example's first step is at `a`, and deleting it leaves the rest. */
  lemma CookieThenMoreFirst()
    ensures var l := [Header("a", "v"), Header(SetCookie, "x"), Header(SetCookie, "y"), Header("z", "w")];
      |View(l)| > 0 && View(l)[0].name == "a" && Delete(l, "a") == l[1..]
  {
    var l := [Header("a", "v"), Header(SetCookie, "x"), Header(SetCookie, "y"), Header("z", "w")];
    CookieThenMoreSorted();
    ViewHead(l);
    CookieThenMoreDeleteA();
  }

  /** The example's names in iteration order. */
  lemma CookieThenMoreSorted()
    ensures SortedNames([Header("a", "v"), Header(SetCookie, "x"), Header(SetCookie, "y"), Header("z", "w")])
      == ["a", SetCookie, "z"]
  {
    var l := [Header("a", "v"), Header(SetCookie, "x"), Header(SetCookie, "y"), Header("z", "w")];
    CookieThenMoreOrder();
    assert SortedNames(l[3..]) == ["z"];
    assert SortedNames(l[2..]) == [SetCookie, "z"];
    assert SortedNames(l[1..]) == [SetCookie, "z"];
  }

  /** Deleting `a` from the example removes its first header only. */
  lemma CookieThenMoreDeleteA()
    ensures var l := [Header("a", "v"), Header(SetCookie, "x"), Header(SetCookie, "y"), Header("z", "w")];
      Delete(l, "a") == l[1..]
  {
    var l := [Header("a", "v"), Header(SetCookie, "x"), Header(SetCookie, "y"), Header("z", "w")];
    CookieThenMoreNames();
    DeleteOnlyHead(l, "a");
  }

  /** When only the first header matches, deleting the name drops just that header. */
  lemma DeleteOnlyHead(l: HeaderList, n: string)
    requires |l| > 0 && Matches(l[0], n)
    requires forall i :: 1 <= i < |l| ==> !Matches(l[i], n)
    ensures Delete(l, n) == l[1..]
  {
    assert !Contains(l[1..], n) by {
      forall h | h in l[1..] ensures !Matches(h, n) {
        var i :| 0 <= i < |l[1..]| && l[1..][i] == h;
        assert h == l[i + 1];
      }
    }
    DeleteAbsent(l[1..], n);
  }

  /** Deleting `set-cookie` leaves `z` alone, whose iteration has one entry. */
  lemma CookieThenMoreLast()
    ensures Delete([Header(SetCookie, "x"), Header(SetCookie, "y"), Header("z", "w")], SetCookie) == [Header("z", "w")]
    ensures |View([Header("z", "w")])| == 1
  {
    var l1 := [Header(SetCookie, "x"), Header(SetCookie, "y"), Header("z", "w")];
    var l2 := [Header("z", "w")];
    CookieThenMoreNames();
    CookieThenMoreOrder();
    assert Delete(l1[3..], SetCookie) == [];
    assert Delete(l1[2..], SetCookie) == [l1[2]] + Delete(l1[3..], SetCookie);
    assert SortedNames(l2) == ["z"];
    assert View(l2) == Entries(l2, "z") + ViewOf(l2, []);
  }

  /** The names of the example above are lower-case, in the order `a`, `set-cookie`, `z`. */
  lemma CookieThenMoreOrder()
    ensures Lower("a") == "a" && Lower("z") == "z" && Lower(SetCookie) == SetCookie
    ensures Less("a", SetCookie) && Less(SetCookie, "z")
  {
    SetCookieIsLower();
  }

  /** The names of the example above are distinct. */
  lemma CookieThenMoreNames()
    ensures !SameName(SetCookie, "a") && !SameName("z", "a") && !SameName("z", SetCookie)
  {
    SetCookieIsLower();
    assert Lower(SetCookie)[0] != Lower("a")[0];
    assert Lower("z")[0] != Lower("a")[0];
    assert Lower("z")[0] != Lower(SetCookie)[0];
  }

  /** Once `a` is gone, index 1 of the iteration is the second cookie entry. */
  lemma CookieThenMoreView()
    ensures var l := [Header(SetCookie, "x"), Header(SetCookie, "y"), Header("z", "w")];
      |View(l)| > 1 && View(l)[1].name == SetCookie
  {
    var l := [Header(SetCookie, "x"), Header(SetCookie, "y"), Header("z", "w")];
    CookieThenMoreNames();
    CookieThenMoreOrder();
    assert SortedNames(l[2..]) == ["z"];
    assert SortedNames(l[1..]) == [SetCookie, "z"];
    assert SortedNames(l) == [SetCookie, "z"];
    assert Values(l, SetCookie) == ["x", "y"] by {
      assert Values(l[3..], SetCookie) == [];
      assert Values(l[2..], SetCookie) == [];
      assert Values(l[1..], SetCookie) == ["y"];
    }
    assert CookieEntries(["x", "y"]) == [Header(SetCookie, "x"), Header(SetCookie, "y")] by {
      assert ["x", "y"][1..] == ["y"];
      assert ["y"][1..] == [];
    }
    assert View(l) == Entries(l, SetCookie) + ViewOf(l, ["z"]);
  }
}
