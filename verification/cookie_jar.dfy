/** The cookie jar (src/core/storage.cpp; sections 5.1.3, 5.1.4, 5.3 and 5.4 of RFC 6265). */
module CookieJar {
  import opened Bytes
  import opened Urls

  datatype Cookie = Cookie(name: Str, value: Str, domain: Str, path: Str, secure: bool, httpOnly: bool, hostOnly: bool,
                           expires: Option<int>, sameSite: Str)

  // ----- matching -----

  predicate EndsWith(s: Str, suffix: Str) { |suffix| <= |s| && s[|s| - |suffix|..] == suffix }

  /** `s` is `domain` or ends in a dot and `domain`. */
  predicate IsOrEndsInDotted(s: Str, domain: Str) {
    s == domain || (|s| > |domain| && EndsWith(s, domain) && s[|s| - |domain| - 1] == '.')
  }

  predicate DomainMatches(c: Cookie, host: Str) {
    Lower(c.domain) != []
    && if c.hostOnly then Lower(host) == Lower(c.domain) else IsOrEndsInDotted(Lower(host), Lower(c.domain))
  }

  predicate PathMatches(path: Str, request: Str) {
    path == [] || path == "/"
    || (path <= request && (|request| == |path| || path[|path| - 1] == '/' || request[|path|] == '/'))
  }

  predicate Expired(c: Cookie, now: int) { c.expires.Some? && c.expires.value <= now }

  function RequestPath(origin: Url): Str { if origin.path == [] then "/" else origin.path }

  /** A cookie that goes with a request. */
  predicate Sent(c: Cookie, origin: Url, now: int) {
    !Expired(c, now) && DomainMatches(c, origin.host) && (c.secure ==> origin.scheme == "https")
    && PathMatches(c.path, RequestPath(origin))
  }

  // ----- storing -----

  function DropDots(domain: Str): Str {
    if domain != [] && domain[0] == '.' then DropDots(domain[1..]) else domain
  }

  /** The cookie as it is stored, unless it is refused. */
  function Prepare(origin: Url, cookie: Cookie): Option<Cookie> {
    if cookie.name == [] || origin.host == [] then None
    else
      var c := if cookie.domain == [] then cookie.(domain := Lower(origin.host), hostOnly := true)
               else cookie.(domain := Lower(DropDots(cookie.domain)));
      if cookie.domain != [] && !DomainMatches(c, origin.host) then None
      else if c.path == [] || c.path[0] != '/' then Some(c.(path := "/"))
      else Some(c)
  }

  predicate SameCookie(a: Cookie, b: Cookie) { a.name == b.name && a.domain == b.domain && a.path == b.path }

  function Without(cookies: seq<Cookie>, c: Cookie): seq<Cookie> {
    if cookies == [] then []
    else
      var rest, last := Without(cookies[..|cookies| - 1], c), cookies[|cookies| - 1];
      if SameCookie(last, c) then rest else rest + [last]
  }

  function AfterSet(cookies: seq<Cookie>, origin: Url, cookie: Cookie, now: int): seq<Cookie> {
    match Prepare(origin, cookie)
    case None => cookies
    case Some(c) => Without(cookies, c) + if Expired(c, now) then [] else [c]
  }

  // ----- sending -----

  function AllSent(cookies: seq<Cookie>, origin: Url, now: int): seq<Cookie> {
    if cookies == [] then []
    else
      var rest, last := AllSent(cookies[..|cookies| - 1], origin, now), cookies[|cookies| - 1];
      if Sent(last, origin, now) then rest + [last] else rest
  }

  predicate LongestFirst(cs: seq<Cookie>) { forall i, j :: 0 <= i < j < |cs| ==> |cs[i].path| >= |cs[j].path| }

  function OfLength(cs: seq<Cookie>, n: nat): seq<Cookie> {
    if cs == [] then []
    else (if |cs[0].path| == n then [cs[0]] else []) + OfLength(cs[1..], n)
  }

  /** The outcome of a stable sort: sorted, and unchanged among paths of equal length. */
  ghost predicate StablySorted(cs: seq<Cookie>, sorted: seq<Cookie>) {
    LongestFirst(sorted) && forall n: nat :: OfLength(sorted, n) == OfLength(cs, n)
  }

  /** Puts a cookie behind those whose paths are at least as long. */
  function Insert(sorted: seq<Cookie>, c: Cookie): seq<Cookie> {
    if sorted == [] then [c]
    else if |sorted[|sorted| - 1].path| >= |c.path| then sorted + [c]
    else Insert(sorted[..|sorted| - 1], c) + [sorted[|sorted| - 1]]
  }

  function StableSort(cs: seq<Cookie>): seq<Cookie> {
    if cs == [] then [] else Insert(StableSort(cs[..|cs| - 1]), cs[|cs| - 1])
  }

  function ToSend(cookies: seq<Cookie>, origin: Url, now: int): seq<Cookie> {
    StableSort(AllSent(cookies, origin, now))
  }

  function Header(cs: seq<Cookie>): Str {
    if cs == [] then []
    else
      var last := cs[|cs| - 1];
      Header(cs[..|cs| - 1]) + (if |cs| == 1 then [] else "; ") + last.name + "=" + last.value
  }

  // ----- the sort is the stable one -----

  lemma OfLengthCons(c: Cookie, rest: seq<Cookie>, n: nat)
    ensures OfLength([c] + rest, n) == (if |c.path| == n then [c] else []) + OfLength(rest, n)
  {
    assert ([c] + rest)[1..] == rest;
  }

  lemma {:induction false} OfLengthAppend(a: seq<Cookie>, b: seq<Cookie>, n: nat)
    ensures OfLength(a + b, n) == OfLength(a, n) + OfLength(b, n)
  {
    if a == [] {
      EmptyIsUnit(b);
      EmptyIsUnit(OfLength(b, n));
    } else {
      hide OfLength;
      var first, rest := a[0], a[1..];
      OfLengthAppend(rest, b, n);
      OfLengthCons(first, rest, n);
      OfLengthCons(first, rest + b, n);
      assert a == [first] + rest;
      Associate([first], rest, b);
      Associate(if |first.path| == n then [first] else [], OfLength(rest, n), OfLength(b, n));
    }
  }

  lemma OfLengthOne(c: Cookie, n: nat)
    ensures OfLength([c], n) == if |c.path| == n then [c] else []
  {
    assert [c][1..] == [];
  }

  lemma {:induction false} InsertKeeps(sorted: seq<Cookie>, c: Cookie)
    ensures forall x :: x in Insert(sorted, c) <==> x in sorted || x == c
  {
    if sorted != [] && |sorted[|sorted| - 1].path| < |c.path| {
      var rest, last := sorted[..|sorted| - 1], sorted[|sorted| - 1];
      InsertKeeps(rest, c);
      assert sorted == rest + [last];
    }
  }

  lemma {:induction false} InsertSorts(sorted: seq<Cookie>, c: Cookie)
    requires LongestFirst(sorted)
    ensures LongestFirst(Insert(sorted, c))
  {
    if sorted != [] && |sorted[|sorted| - 1].path| < |c.path| {
      var rest, last := sorted[..|sorted| - 1], sorted[|sorted| - 1];
      InsertSorts(rest, c);
      InsertKeeps(rest, c);
      forall x | x in Insert(rest, c) ensures |x.path| >= |last.path| {
        assert x in rest ==> x in sorted;
      }
      AppendShortest(Insert(rest, c), last);
    }
  }

  lemma AppendShortest(cs: seq<Cookie>, last: Cookie)
    requires LongestFirst(cs) && forall x :: x in cs ==> |x.path| >= |last.path|
    ensures LongestFirst(cs + [last])
  {
  }

  lemma {:induction false} InsertIsStable(sorted: seq<Cookie>, c: Cookie, n: nat)
    ensures OfLength(Insert(sorted, c), n) == OfLength(sorted, n) + OfLength([c], n)
  {
    hide OfLength;
    if sorted == [] {
      OfLengthAppend([], [c], n);
      assert [] + [c] == [c];
    } else if |sorted[|sorted| - 1].path| >= |c.path| {
      OfLengthAppend(sorted, [c], n);
    } else {
      var rest, last := sorted[..|sorted| - 1], sorted[|sorted| - 1];
      InsertIsStable(rest, c, n);
      assert sorted == rest + [last];
      OfLengthAppend(Insert(rest, c), [last], n);
      OfLengthAppend(rest, [last], n);
      OfLengthOne(c, n);
      OfLengthOne(last, n);
      assert OfLength([c], n) == [] || OfLength([last], n) == [];
    }
  }

  /** The sort is stable, and keeps exactly the cookies it was given. */
  lemma {:induction false} SortIsStable(cs: seq<Cookie>)
    ensures StablySorted(cs, StableSort(cs))
    ensures forall x :: x in StableSort(cs) <==> x in cs
  {
    if cs != [] {
      var rest, last := cs[..|cs| - 1], cs[|cs| - 1];
      SortIsStable(rest);
      hide OfLength, Insert;
      assert cs == rest + [last];
      InsertSorts(StableSort(rest), last);
      InsertKeeps(StableSort(rest), last);
      forall n: nat ensures OfLength(StableSort(cs), n) == OfLength(cs, n) {
        InsertIsStable(StableSort(rest), last, n);
        OfLengthAppend(rest, [last], n);
      }
    }
  }

  lemma {:induction false} LongestIsFirst(sorted: seq<Cookie>)
    requires LongestFirst(sorted) && sorted != []
    ensures OfLength(sorted, |sorted[0].path|) != []
    ensures forall n: nat | n > |sorted[0].path| :: OfLength(sorted, n) == []
  {
    forall n: nat | n > |sorted[0].path| ensures OfLength(sorted, n) == [] {
      NoneLonger(sorted, n);
    }
  }

  lemma {:induction false} NoneLonger(cs: seq<Cookie>, n: nat)
    requires forall i :: 0 <= i < |cs| ==> |cs[i].path| < n
    ensures OfLength(cs, n) == []
  {
    if cs != [] {
      NoneLonger(cs[1..], n);
    }
  }

  lemma EmptyTogether(a: seq<Cookie>, b: seq<Cookie>)
    requires LongestFirst(b) && forall n: nat :: OfLength(a, n) == OfLength(b, n)
    ensures a == [] ==> b == []
  {
    if b != [] {
      LongestIsFirst(b);
    }
  }

  /** There is only one stably sorted list: the property fixes the order completely. */
  lemma {:induction false} StableSortIsUnique(a: seq<Cookie>, b: seq<Cookie>)
    requires LongestFirst(a) && LongestFirst(b)
    requires forall n: nat :: OfLength(a, n) == OfLength(b, n)
    ensures a == b
  {
    hide OfLength;
    EmptyTogether(a, b);
    EmptyTogether(b, a);
    if a != [] {
      SameFirst(a, b);
      forall n: nat ensures OfLength(a[1..], n) == OfLength(b[1..], n) {
        assert OfLength(a, n) == OfLength(b, n);
        DropFirst(a, n);
        DropFirst(b, n);
      }
      StableSortIsUnique(a[1..], b[1..]);
      assert a == [a[0]] + a[1..] && b == [b[0]] + b[1..];
    }
  }

  lemma SameFirst(a: seq<Cookie>, b: seq<Cookie>)
    requires LongestFirst(a) && LongestFirst(b) && a != [] && b != []
    requires forall n: nat :: OfLength(a, n) == OfLength(b, n)
    ensures a[0] == b[0]
  {
    FirstOfLength(a);
    FirstOfLength(b);
    hide OfLength;
    LongestIsFirst(a);
    LongestIsFirst(b);
    assert OfLength(a, |a[0].path|) == OfLength(b, |a[0].path|);
    assert OfLength(a, |b[0].path|) == OfLength(b, |b[0].path|);
  }

  lemma FirstOfLength(cs: seq<Cookie>)
    requires cs != []
    ensures var same := OfLength(cs, |cs[0].path|); same != [] && same[0] == cs[0]
  {
  }

  lemma DropFirst(cs: seq<Cookie>, n: nat)
    requires cs != []
    ensures OfLength(cs[1..], n) == if |cs[0].path| == n then OfLength(cs, n)[1..] else OfLength(cs, n)
  {
    assert |cs[0].path| == n ==> ([cs[0]] + OfLength(cs[1..], n))[1..] == OfLength(cs[1..], n);
    assert [] + OfLength(cs[1..], n) == OfLength(cs[1..], n);
  }

  // ----- what is sent -----

  lemma {:induction false} AllSentMembers(cookies: seq<Cookie>, origin: Url, now: int, c: Cookie)
    ensures c in AllSent(cookies, origin, now) <==> c in cookies && Sent(c, origin, now)
  {
    hide Sent;
    if cookies != [] {
      var rest, last := cookies[..|cookies| - 1], cookies[|cookies| - 1];
      assert cookies == rest + [last];
      AllSentMembers(rest, origin, now, c);
    }
  }

  /** The host is the domain, or lies below it. */
  ghost predicate AtOrBelow(host: Str, domain: Str) { host == domain || exists front: Str :: host == front + "." + domain }

  /** The request path is the cookie's path, or lies below it. */
  ghost predicate UnderPath(request: Str, path: Str) {
    request == path || exists rest: Str :: request == path + "/" + rest || (EndsWith(path, "/") && request == path + rest)
  }

  /** What sections 5.3 and 5.4 of RFC 6265 ask of a cookie that goes with a request. */
  ghost predicate GoesWith(c: Cookie, origin: Url, now: int) {
    && (c.expires.Some? ==> now < c.expires.value)
    && (c.secure ==> origin.scheme == "https")
    && c.domain != []
    && (if c.hostOnly then Lower(origin.host) == Lower(c.domain) else AtOrBelow(Lower(origin.host), Lower(c.domain)))
    && (c.path == "" || c.path == "/" || UnderPath(if origin.path == "" then "/" else origin.path, c.path))
  }

  lemma DomainsAgree(host: Str, domain: Str)
    ensures IsOrEndsInDotted(host, domain) <==> AtOrBelow(host, domain)
  {
    var k := |host| - |domain|;
    if host != domain && IsOrEndsInDotted(host, domain) {
      assert host == host[..k - 1] + "." + domain;
    }
    if host != domain && AtOrBelow(host, domain) {
      var front: Str :| host == front + "." + domain;
      assert host[k..] == domain;
    }
  }

  lemma PathsAgree(path: Str, request: Str)
    requires path != []
    ensures path <= request && (|request| == |path| || path[|path| - 1] == '/' || request[|path|] == '/')
            <==> UnderPath(request, path)
  {
    if path <= request && request != path {
      var rest := request[|path|..];
      assert request == path + rest;
      if path[|path| - 1] == '/' {
        assert EndsWith(path, "/");
      } else if request[|path|] == '/' {
        assert request == path + "/" + rest[1..];
      }
    }
  }

  lemma SentIsGoing(c: Cookie, origin: Url, now: int)
    ensures Sent(c, origin, now) <==> GoesWith(c, origin, now)
  {
    DomainsAgree(Lower(origin.host), Lower(c.domain));
    if c.path != [] {
      PathsAgree(c.path, RequestPath(origin));
    }
    hide IsOrEndsInDotted, AtOrBelow, UnderPath;
    assert |Lower(c.domain)| == |c.domain|;
  }

  /**
   * Exactly the cookies that RFC 6265 lets go with the request are sent: not those that have expired, secure ones only
   * over https, none to another domain or path; longest path first, and otherwise in stored order.
   */
  lemma SentExactly(cookies: seq<Cookie>, origin: Url, now: int)
    ensures forall c :: c in ToSend(cookies, origin, now) <==> c in cookies && GoesWith(c, origin, now)
    ensures StablySorted(AllSent(cookies, origin, now), ToSend(cookies, origin, now))
  {
    hide Sent, AllSent, StableSort, StablySorted, GoesWith;
    SortIsStable(AllSent(cookies, origin, now));
    forall c ensures c in AllSent(cookies, origin, now) <==> c in cookies && GoesWith(c, origin, now) {
      AllSentMembers(cookies, origin, now, c);
      SentIsGoing(c, origin, now);
    }
  }

  /** Which cookies go is decided one by one, and keeps their order. */
  lemma {:induction false} SentInOrder(a: seq<Cookie>, b: seq<Cookie>, origin: Url, now: int)
    ensures AllSent(a + b, origin, now) == AllSent(a, origin, now) + AllSent(b, origin, now)
    decreases |b|
  {
    if b == [] {
      EmptyIsUnit(a);
      EmptyIsUnit(AllSent(a, origin, now));
    } else {
      hide Sent;
      var init, last := b[..|b| - 1], b[|b| - 1];
      SentInOrder(a, init, origin, now);
      assert (a + b)[..|a + b| - 1] == a + init;
      Associate(AllSent(a, origin, now), AllSent(init, origin, now), [last]);
    }
  }

  /** The header of two lists is theirs, joined. */
  lemma {:induction false} HeaderJoins(a: seq<Cookie>, b: seq<Cookie>)
    ensures a != [] && b != [] ==> Header(a + b) == Header(a) + "; " + Header(b)
    ensures |a| == 1 ==> Header(a) == a[0].name + "=" + a[0].value
    decreases |b|
  {
    if |a| == 1 {
      assert a[..0] == [];
    }
    if a != [] && b != [] {
      var init, last := b[..|b| - 1], b[|b| - 1];
      var pair := last.name + "=" + last.value;
      assert (a + b)[..|a + b| - 1] == a + init;
      if init == [] {
        assert a + init == a;
        Pieces(Header(a), "; ", last.name, last.value);
        Pieces([], [], last.name, last.value);
        assert Header(b) == pair;
      } else {
        HeaderJoins(a, init);
        Pieces(Header(a + init), "; ", last.name, last.value);
        Pieces(Header(init), "; ", last.name, last.value);
        assert Header(a + b) == Header(a + init) + "; " + pair;
        assert Header(b) == Header(init) + "; " + pair;
        Associate(Header(a) + "; ", Header(init) + "; ", pair);
        Associate(Header(a) + "; ", Header(init), "; ");
      }
    }
  }

  lemma Pieces(before: Str, mark: Str, name: Str, value: Str)
    ensures before + mark + name + "=" + value == before + mark + (name + "=" + value)
  {
  }

  // ----- the jar -----

  predicate CookieOk(c: Cookie) {
    c.name != [] && c.domain != [] && Lower(c.domain) == c.domain && c.path != [] && c.path[0] == '/'
  }

  /** No two cookies share name, domain and path. */
  predicate AllDistinct(cs: seq<Cookie>) { forall i, j :: 0 <= i < j < |cs| ==> !SameCookie(cs[i], cs[j]) }

  ghost predicate JarOk(cs: seq<Cookie>) { AllDistinct(cs) && forall c :: c in cs ==> CookieOk(c) }

  lemma PreparedIsOk(origin: Url, cookie: Cookie)
    ensures Prepare(origin, cookie).Some? ==>
              var c := Prepare(origin, cookie).value;
              CookieOk(c) && DomainMatches(c, origin.host) && c.name == cookie.name && c.value == cookie.value
              && c.expires == cookie.expires && c.secure == cookie.secure
  {
    LowerTwice(origin.host);
    LowerTwice(DropDots(cookie.domain));
    hide Lower, DropDots;
    assert |Lower(origin.host)| == |origin.host|;
  }

  lemma {:induction false} DotsDropped(dots: Str, domain: Str)
    requires (forall i :: 0 <= i < |dots| ==> dots[i] == '.') && (domain != [] ==> domain[0] != '.')
    ensures DropDots(dots + domain) == domain
  {
    if dots == [] {
      EmptyIsUnit(domain);
    } else {
      assert (dots + domain)[1..] == dots[1..] + domain;
      DotsDropped(dots[1..], domain);
    }
  }

  /**
   * A cookie without a domain is stored for its setter's host alone; one with a domain is stored for it, without the
   * dots in front and in lower case, if the setter's host is in it. A path that is not absolute becomes the root.
   */
  lemma StoredAs(origin: Url, cookie: Cookie, dots: Str, domain: Str)
    requires cookie.domain == dots + domain && (forall i :: 0 <= i < |dots| ==> dots[i] == '.')
    requires domain != [] ==> domain[0] != '.'
    ensures var host := Lower(origin.host);
            var path := if cookie.path != [] && cookie.path[0] == '/' then cookie.path else "/";
            Prepare(origin, cookie)
            == if cookie.name == [] || origin.host == [] then None
               else if cookie.domain == [] then Some(cookie.(domain := host, hostOnly := true, path := path))
               else if domain != [] && (if cookie.hostOnly then host == Lower(domain) else AtOrBelow(host, Lower(domain)))
               then Some(cookie.(domain := Lower(domain), path := path))
               else None
  {
    DotsDropped(dots, domain);
    LowerTwice(domain);
    DomainsAgree(Lower(origin.host), Lower(domain));
    hide Lower, DropDots, IsOrEndsInDotted, AtOrBelow;
    assert |Lower(domain)| == |domain|;
  }

  /** What is dropped are the cookies with the same name, domain and path, wherever they are; the others keep their order. */
  lemma {:induction false} WithoutIs(a: seq<Cookie>, b: seq<Cookie>, c: Cookie)
    ensures Without(a + b, c) == Without(a, c) + Without(b, c)
    ensures |a| == 1 ==>
              Without(a, c) == if a[0].name == c.name && a[0].domain == c.domain && a[0].path == c.path then [] else a
    decreases |b|
  {
    if |a| == 1 {
      assert a[..0] == [] && a == [a[0]];
    }
    if b == [] {
      EmptyIsUnit(a);
      EmptyIsUnit(Without(a, c));
    } else {
      hide SameCookie;
      var init, last := b[..|b| - 1], b[|b| - 1];
      WithoutIs(a, init, c);
      assert (a + b)[..|a + b| - 1] == a + init;
      Associate(Without(a, c), Without(init, c), [last]);
    }
  }

  lemma {:induction false} WithoutMembers(cookies: seq<Cookie>, c: Cookie, x: Cookie)
    ensures x in Without(cookies, c) <==> x in cookies && !SameCookie(x, c)
  {
    if cookies != [] {
      var rest, last := cookies[..|cookies| - 1], cookies[|cookies| - 1];
      assert cookies == rest + [last];
      WithoutMembers(rest, c, x);
    }
  }

  lemma {:induction false} WithoutKeepsDistinct(cookies: seq<Cookie>, c: Cookie)
    requires AllDistinct(cookies)
    ensures AllDistinct(Without(cookies, c))
  {
    hide SameCookie;
    if cookies != [] {
      var rest, last := cookies[..|cookies| - 1], cookies[|cookies| - 1];
      WithoutKeepsDistinct(rest, c);
      forall x | x in Without(rest, c) ensures !SameCookie(x, last) {
        WithoutMembers(rest, c, x);
      }
      AppendDistinct(Without(rest, c), last);
    }
  }

  lemma AppendDistinct(cs: seq<Cookie>, last: Cookie)
    requires AllDistinct(cs) && forall x :: x in cs ==> !SameCookie(x, last)
    ensures AllDistinct(cs + [last])
  {
    hide SameCookie;
  }

  /** One `set` keeps the jar's invariant. */
  lemma SetKeepsOk(cookies: seq<Cookie>, origin: Url, cookie: Cookie, now: int)
    requires JarOk(cookies)
    ensures JarOk(AfterSet(cookies, origin, cookie, now))
  {
    hide Prepare, CookieOk, Expired, SameCookie, Without, AllDistinct;
    PreparedIsOk(origin, cookie);
    var prepared := Prepare(origin, cookie);
    if prepared.Some? {
      var c := prepared.value;
      WithoutKeepsDistinct(cookies, c);
      forall x | x in Without(cookies, c) ensures x in cookies && !SameCookie(x, c) {
        WithoutMembers(cookies, c, x);
      }
      AppendDistinct(Without(cookies, c), c);
      assert Without(cookies, c) + [] == Without(cookies, c);
    }
  }

  class InMemoryCookieJar {
    var cookies: seq<Cookie>

    ghost predicate Valid()
      reads this
    {
      JarOk(cookies)
    }

    constructor ()
      ensures Valid() && cookies == []
    {
      cookies := [];
    }

    /** `set`. */
    method Set(origin: Url, cookie0: Cookie, now: int)
      requires Valid()
      modifies this
      ensures Valid() && cookies == AfterSet(old(cookies), origin, cookie0, now)
    {
      hide Lower, DomainMatches, SameCookie, Expired, JarOk;
      SetKeepsOk(cookies, origin, cookie0, now);
      var cookie := cookie0;
      if cookie.name == [] || origin.host == [] { return; }
      if cookie.domain == [] {
        cookie := cookie.(domain := Lower(origin.host), hostOnly := true);
      } else {
        var domain := cookie.domain;
        while domain != [] && domain[0] == '.'
          invariant DropDots(domain) == DropDots(cookie.domain)
          decreases |domain|
        {
          domain := domain[1..];
        }
        cookie := cookie.(domain := Lower(domain));
        if !DomainMatches(cookie, origin.host) { return; }
      }
      if cookie.path == [] || cookie.path[0] != '/' {
        cookie := cookie.(path := "/");
      }
      assert Prepare(origin, cookie0) == Some(cookie);
      Remove(cookie);
      if !Expired(cookie, now) {
        cookies := cookies + [cookie];
      } else {
        assert cookies + [] == cookies;
      }
    }

    /** Erases the cookies with the same name, domain and path. */
    method Remove(cookie: Cookie)
      modifies this
      ensures cookies == Without(old(cookies), cookie)
    {
      hide SameCookie;
      var kept: seq<Cookie> := [];
      for i := 0 to |cookies|
        invariant cookies == old(cookies) && kept == Without(cookies[..i], cookie)
      {
        assert cookies[..i + 1] == cookies[..i] + [cookies[i]];
        assert cookies[..i + 1][..i] == cookies[..i];
        if !SameCookie(cookies[i], cookie) {
          kept := kept + [cookies[i]];
        }
      }
      assert cookies[..|cookies|] == cookies;
      cookies := kept;
    }

    /** `get`. */
    method Get(origin: Url, now: int) returns (result: seq<Cookie>)
      ensures result == ToSend(cookies, origin, now)
    {
      hide Expired, DomainMatches, PathMatches, StableSort;
      result := [];
      for i := 0 to |cookies|
        invariant result == AllSent(cookies[..i], origin, now)
      {
        var cookie := cookies[i];
        assert cookies[..i + 1][..i] == cookies[..i];
        if Expired(cookie, now) { continue; }
        if !DomainMatches(cookie, origin.host) { continue; }
        if cookie.secure && origin.scheme != "https" { continue; }
        if !PathMatches(cookie.path, if origin.path == [] then "/" else origin.path) { continue; }
        result := result + [cookie];
      }
      assert cookies[..|cookies|] == cookies;
      result := StableSort(result);
    }

    /** `cookie_header`. */
    method CookieHeader(origin: Url, now: int) returns (header: Str)
      ensures header == Header(ToSend(cookies, origin, now))
    {
      hide ToSend;
      var sent := Get(origin, now);
      header := [];
      for i := 0 to |sent|
        invariant header == Header(sent[..i]) && (header == [] <==> i == 0)
      {
        assert sent[..i + 1][..i] == sent[..i];
        if header != [] {
          header := header + "; ";
        } else {
          assert header + [] == header;
        }
        header := header + sent[i].name + "=" + sent[i].value;
      }
      assert sent[..|sent|] == sent;
    }

    /** `clear`. */
    method Clear()
      modifies this
      ensures Valid() && cookies == []
    {
      cookies := [];
    }
  }

  // ----- whole runs -----

  datatype Op = SetOp(origin: Url, cookie: Cookie, now: int) | ClearOp

  function AfterOp(cookies: seq<Cookie>, op: Op): seq<Cookie> {
    match op
    case SetOp(origin, cookie, now) => AfterSet(cookies, origin, cookie, now)
    case ClearOp => []
  }

  function Run(cookies: seq<Cookie>, ops: seq<Op>): seq<Cookie>
    decreases |ops|
  {
    if ops == [] then cookies else Run(AfterOp(cookies, ops[0]), ops[1..])
  }

  /** The cookie an operation leaves in the jar. */
  function StoredBy(op: Op): Option<Cookie> {
    match op
    case ClearOp => None
    case SetOp(origin, cookie, now) =>
      var c :- Prepare(origin, cookie);
      if Expired(c, now) then None else Some(c)
  }

  /** An operation that takes a stored cookie out: `clear`, or an accepted `set` of the same cookie. */
  predicate Evicts(op: Op, c: Cookie) {
    match op
    case ClearOp => true
    case SetOp(origin, cookie, _) => Prepare(origin, cookie).Some? && SameCookie(c, Prepare(origin, cookie).value)
  }

  predicate Spared(c: Cookie, ops: seq<Op>) { forall op :: op in ops ==> !Evicts(op, c) }

  function AllSpared(cookies: seq<Cookie>, ops: seq<Op>): seq<Cookie> {
    if cookies == [] then []
    else
      var rest, last := AllSpared(cookies[..|cookies| - 1], ops), cookies[|cookies| - 1];
      if Spared(last, ops) then rest + [last] else rest
  }

  /** What an operation itself leaves in the jar, if nothing evicts it. */
  function Contribution(op: Op, rest: seq<Op>): seq<Cookie> {
    var stored := StoredBy(op);
    if stored.Some? && Spared(stored.value, rest) then [stored.value] else []
  }

  /** The cookies that some operation stored and no later one evicted, in the order in which they were stored. */
  function Survivors(ops: seq<Op>): seq<Cookie> {
    if ops == [] then []
    else Contribution(ops[0], ops[1..]) + Survivors(ops[1..])
  }

  lemma {:induction false} SparedByNone(cookies: seq<Cookie>)
    ensures AllSpared(cookies, []) == cookies
  {
    if cookies != [] {
      SparedByNone(cookies[..|cookies| - 1]);
    }
  }

  lemma {:induction false} ClearSparesNone(cookies: seq<Cookie>, op: Op, ops: seq<Op>)
    requires op.ClearOp?
    ensures AllSpared(cookies, [op] + ops) == []
  {
    if cookies != [] {
      ClearSparesNone(cookies[..|cookies| - 1], op, ops);
      assert op in [op] + ops && Evicts(op, cookies[|cookies| - 1]);
    }
  }

  lemma {:induction false} SetSparesOthers(cookies: seq<Cookie>, op: Op, ops: seq<Op>)
    requires op.SetOp?
    ensures var prepared := Prepare(op.origin, op.cookie);
            AllSpared(cookies, [op] + ops)
            == AllSpared(if prepared.Some? then Without(cookies, prepared.value) else cookies, ops)
  {
    hide Prepare, SameCookie;
    var prepared := Prepare(op.origin, op.cookie);
    if cookies != [] {
      var rest, last := cookies[..|cookies| - 1], cookies[|cookies| - 1];
      SetSparesOthers(rest, op, ops);
      SparedBySetAndRest(last, op, ops);
      if prepared.Some? {
        var kept := Without(rest, prepared.value);
        assert (kept + [last])[..|kept|] == kept;
      }
    }
  }

  lemma SparedBySetAndRest(c: Cookie, op: Op, ops: seq<Op>)
    ensures Spared(c, [op] + ops) <==> !Evicts(op, c) && Spared(c, ops)
  {
    hide Evicts;
    assert op in [op] + ops;
    assert forall x :: x in ops ==> x in [op] + ops;
  }

  lemma AllSparedAppend(cookies: seq<Cookie>, c: Cookie, ops: seq<Op>)
    ensures AllSpared(cookies + [c], ops) == AllSpared(cookies, ops) + if Spared(c, ops) then [c] else []
  {
    hide Spared;
    assert (cookies + [c])[..|cookies|] == cookies;
    assert AllSpared(cookies, ops) + [] == AllSpared(cookies, ops);
  }

  lemma OneOpSplits(cookies: seq<Cookie>, op: Op, rest: seq<Op>)
    ensures AllSpared(AfterOp(cookies, op), rest) == AllSpared(cookies, [op] + rest) + Contribution(op, rest)
  {
    hide Prepare, Spared, AllSpared, Without, Expired;
    NoneSpared(rest);
    if op.ClearOp? {
      ClearSparesNone(cookies, op, rest);
    } else {
      SetSparesOthers(cookies, op, rest);
      var prepared := Prepare(op.origin, op.cookie);
      var others := if prepared.Some? then Without(cookies, prepared.value) else cookies;
      assert others + [] == others && AllSpared(others, rest) + [] == AllSpared(others, rest);
      if prepared.Some? {
        AllSparedAppend(others, prepared.value, rest);
      }
    }
  }

  lemma {:induction false} RunSplits(cookies: seq<Cookie>, ops: seq<Op>)
    ensures Run(cookies, ops) == AllSpared(cookies, ops) + Survivors(ops)
    decreases |ops|
  {
    hide AfterOp, AllSpared, StoredBy, Spared;
    if ops == [] {
      SparedByNone(cookies);
      assert cookies + [] == cookies;
    } else {
      var op, rest := ops[0], ops[1..];
      assert ops == [op] + rest;
      RunSplits(AfterOp(cookies, op), rest);
      OneOpSplits(cookies, op, rest);
      var a, b, c := AllSpared(cookies, ops), Contribution(op, rest), Survivors(rest);
      assert (a + b) + c == a + (b + c);
    }
  }

  lemma NoneSpared(ops: seq<Op>)
    ensures AllSpared([], ops) == []
  {
  }

  /** After any run, the jar holds exactly what was stored and not evicted since, in that order. */
  lemma JarHoldsSurvivors(ops: seq<Op>)
    ensures Run([], ops) == Survivors(ops)
  {
    hide Run, Survivors;
    RunSplits([], ops);
    NoneSpared(ops);
    assert [] + Survivors(ops) == Survivors(ops);
  }

  lemma {:induction false} SurvivorWasStored(ops: seq<Op>, c: Cookie)
    requires c in Survivors(ops)
    ensures exists k :: 0 <= k < |ops| && StoredBy(ops[k]) == Some(c) && Spared(c, ops[k + 1..])
  {
    hide StoredBy, Spared;
    if !(StoredBy(ops[0]) == Some(c) && Spared(c, ops[1..])) {
      SurvivorWasStored(ops[1..], c);
      var k :| 0 <= k < |ops[1..]| && StoredBy(ops[1..][k]) == Some(c) && Spared(c, ops[1..][k + 1..]);
      assert ops[1..][k + 1..] == ops[k + 1 + 1..];
      assert StoredBy(ops[k + 1]) == Some(c);
    }
  }

  /**
   * Over every run no two stored cookies share name, domain and path; every domain is nonempty and in lower case, and
   * matched the host of the operation that stored the cookie.
   */
  lemma RunInvariant(ops: seq<Op>)
    ensures JarOk(Run([], ops))
    ensures forall c :: c in Run([], ops) ==>
              exists op :: op in ops && op.SetOp? && StoredBy(op) == Some(c) && DomainMatches(c, op.origin.host)
  {
    hide Run, StoredBy, DomainMatches, JarOk, Survivors, Spared;
    NothingStored();
    RunKeepsOk([], ops);
    JarHoldsSurvivors(ops);
    forall c | c in Run([], ops)
      ensures exists op :: op in ops && op.SetOp? && StoredBy(op) == Some(c) && DomainMatches(c, op.origin.host)
    {
      SurvivorWasStored(ops, c);
      var k :| 0 <= k < |ops| && StoredBy(ops[k]) == Some(c) && Spared(c, ops[k + 1..]);
      StoredMatches(ops[k]);
      assert ops[k] in ops;
    }
  }

  lemma NothingStored()
    ensures JarOk([])
  {
  }

  lemma StoredMatches(op: Op)
    requires StoredBy(op).Some?
    ensures op.SetOp? && DomainMatches(StoredBy(op).value, op.origin.host)
  {
    hide Prepare, DomainMatches;
    if op.SetOp? {
      PreparedIsOk(op.origin, op.cookie);
    }
  }

  lemma {:induction false} RunKeepsOk(cookies: seq<Cookie>, ops: seq<Op>)
    requires JarOk(cookies)
    ensures JarOk(Run(cookies, ops))
    decreases |ops|
  {
    hide JarOk, AfterSet;
    if ops != [] {
      var op := ops[0];
      if op.SetOp? {
        SetKeepsOk(cookies, op.origin, op.cookie, op.now);
      }
      NothingStored();
      RunKeepsOk(AfterOp(cookies, op), ops[1..]);
    }
  }
}
