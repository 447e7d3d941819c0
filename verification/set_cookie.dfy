/** Set-Cookie headers (src/core/browser.cpp; sections 5.2 and 5.3 of RFC 6265). */
module SetCookie {
  import opened Bytes
  import opened Urls
  import opened CookieJar

  const INT64_MAX: int := 0x7FFF_FFFF_FFFF_FFFF
  const INT64_MIN: int := -0x8000_0000_0000_0000

  predicate IsInt64(n: int) { INT64_MIN <= n <= INT64_MAX }

  /** How dates are read is not part of this model. */
  type DateParser = Str -> Option<int>

  function Trim(s: Str): Str { TrimRight(TrimLeft(s)) }

  // ----- times -----

  predicate AllDigits(s: Str) { forall i :: 0 <= i < |s| ==> IsDigit(s[i]) }

  function DecimalValue(s: Str): nat
    requires AllDigits(s)
  {
    if s == [] then 0 else DecimalValue(s[..|s| - 1]) * 10 + (s[|s| - 1] as int - '0' as int)
  }

  /** `std::from_chars` for a signed 64-bit number that takes up the whole text. */
  function ParseInt64(s: Str): (r: Option<int>)
    ensures r.Some? ==> IsInt64(r.value)
  {
    var negative := s != [] && s[0] == '-';
    var digits := if negative then s[1..] else s;
    if digits == [] || !AllDigits(digits) then None
    else
      var n: int := DecimalValue(digits);
      var value := if negative then -n else n;
      if IsInt64(value) then Some(value) else None
  }

  /** `add_seconds`, with the bounds as the code tests them. */
  function AddSeconds(timestamp: int, seconds: int): int {
    if seconds > 0 && seconds > INT64_MAX - timestamp then INT64_MAX
    else if seconds < 0 && seconds < INT64_MIN + timestamp then INT64_MIN
    else timestamp + seconds
  }

  // ----- attributes -----

  /** The texts between semicolons. */
  function AttributeTexts(s: Str): seq<Str> {
    if s == [] then []
    else
      var n := Find(s, ';', 0);
      [s[..n]] + if n < |s| then AttributeTexts(s[n + 1..]) else []
  }

  /** Name, in lower case, and value. */
  function NameAndValue(text: Str): (Str, Str) {
    var a := Trim(text);
    var n := Find(a, '=', 0);
    (Lower(Trim(a[..n])), if n < |a| then Trim(a[n + 1..]) else [])
  }

  /** What the attributes have said so far. */
  datatype State = State(cookie: Cookie, maxAge: Option<int>, date: Option<int>)

  function Apply(st: State, text: Str, dates: DateParser): State {
    var (name, value) := NameAndValue(text);
    if name == "domain" && value != [] then st.(cookie := st.cookie.(domain := value, hostOnly := false))
    else if name == "path" && value != [] && value[0] == '/' then st.(cookie := st.cookie.(path := value))
    else if name == "secure" then st.(cookie := st.cookie.(secure := true))
    else if name == "httponly" then st.(cookie := st.cookie.(httpOnly := true))
    else if name == "samesite" then st.(cookie := st.cookie.(sameSite := value))
    else if name == "max-age" then if ParseInt64(value).Some? then st.(maxAge := ParseInt64(value)) else st
    else if name == "expires" then if dates(value).Some? then st.(date := dates(value)) else st
    else st
  }

  function ApplyAll(st: State, texts: seq<Str>, dates: DateParser): State
    decreases |texts|
  {
    if texts == [] then st else ApplyAll(Apply(st, texts[0], dates), texts[1..], dates)
  }

  // ----- the header -----

  predicate IsAbsolute(path: Str) { path != [] && path[0] == '/' }

  function DefaultCookiePath(origin: Url): Str {
    var path := RequestPath(origin);
    var slash := FindLast(path, '/');
    if path[0] != '/' || slash <= 0 then "/" else path[..slash]
  }

  /** Name and value of the cookie. */
  function FirstPair(header: Str): Option<(Str, Str)> {
    var first := Trim(header[..Find(header, ';', 0)]);
    var equals := Find(first, '=', 0);
    if equals == |first| || equals == 0 || Trim(first[..equals]) == [] then None
    else Some((Trim(first[..equals]), Trim(first[equals + 1..])))
  }

  function AfterFirst(header: Str): Str {
    var n := Find(header, ';', 0);
    if n < |header| then header[n + 1..] else []
  }

  /** The cookie that the attributes make, unless the origin may not set it. */
  function Finish(st: State, origin: Url, now: int): Option<Cookie> {
    var expires := if st.maxAge.Some? then Some(AddSeconds(now, st.maxAge.value)) else st.date;
    var c := st.cookie.(expires := expires);
    if c.secure && origin.scheme != "https" then None
    else if c.domain == [] then Some(c)
    else
      var domain := Lower(DropDots(c.domain));
      if IsOrEndsInDotted(origin.host, domain) then Some(c.(domain := domain)) else None
  }

  function Fresh(pair: (Str, Str), origin: Url): State {
    State(Cookie(pair.0, pair.1, [], DefaultCookiePath(origin), false, false, true, None, []), None, None)
  }

  function ParseSetCookie(header: Str, origin: Url, now: int, dates: DateParser): Option<Cookie> {
    var pair :- FirstPair(header);
    Finish(ApplyAll(Fresh(pair, origin), AttributeTexts(AfterFirst(header)), dates), origin, now)
  }

  // ----- the code -----

  /** The attribute loop of `parse_set_cookie`. */
  method ReadAttributes(st0: State, header: Str, start0: nat, dates: DateParser) returns (st: State)
    requires start0 <= |header|
    ensures st == ApplyAll(st0, AttributeTexts(header[start0..]), dates)
  {
    hide Apply, Find, AttributeTexts;
    st := st0;
    var start := start0;
    NoTexts();
    while start < |header|
      invariant start <= |header|
      invariant ApplyAll(st, AttributeTexts(header[start..]), dates)
                == ApplyAll(st0, AttributeTexts(header[start0..]), dates)
    {
      var end := Find(header, ';', start);
      NextText(header, start);
      st := Apply(st, header[start..end], dates);
      if end == |header| { return; }
      start := end + 1;
    }
    assert header[start..] == [];
  }

  lemma NoTexts()
    ensures AttributeTexts([]) == []
  {
  }

  lemma FirstText(s: Str)
    requires s != []
    ensures var n, texts := Find(s, ';', 0), AttributeTexts(s);
            texts != [] && texts[0] == s[..n] && texts[1..] == if n < |s| then AttributeTexts(s[n + 1..]) else []
  {
    hide Find;
    var n := Find(s, ';', 0);
    var others := if n < |s| then AttributeTexts(s[n + 1..]) else [];
    assert ([s[..n]] + others)[1..] == others;
  }

  lemma NextText(header: Str, start: nat)
    requires start < |header|
    ensures var end, texts := Find(header, ';', start), AttributeTexts(header[start..]);
            texts != [] && texts[0] == header[start..end]
            && texts[1..] == if end < |header| then AttributeTexts(header[end + 1..]) else []
  {
    hide Find, AttributeTexts;
    FindFrom(header, ';', start);
    var rest, n := header[start..], Find(header, ';', start) - start;
    FirstText(rest);
    assert rest[..n] == header[start..start + n];
    assert start + n < |header| ==> rest[n + 1..] == header[start + n + 1..];
  }

  lemma {:induction false} FindFrom(s: Str, c: Byte, from: nat)
    requires from <= |s|
    ensures Find(s, c, from) == from + Find(s[from..], c, 0)
  {
    var n := Find(s, c, from) - from;
    var t := s[from..];
    assert forall j :: 0 <= j < n ==> t[j] == s[from + j];
    assert n < |t| ==> t[n] == s[from + n];
  }

  /** `parse_set_cookie`. */
  method ReadSetCookie(header: Str, origin: Url, now: int, dates: DateParser) returns (r: Option<Cookie>)
    ensures r == ParseSetCookie(header, origin, now, dates)
  {
    hide Find, Apply, ApplyAll, AttributeTexts, Trim, DefaultCookiePath, Finish;
    var firstSeparator := Find(header, ';', 0);
    var first := Trim(header[..firstSeparator]);
    var equals := Find(first, '=', 0);
    if equals == |first| || equals == 0 { return None; }
    var name := Trim(first[..equals]);
    if name == [] { return None; }
    var value := Trim(first[equals + 1..]);
    var st := Fresh((name, value), origin);
    var start := if firstSeparator == |header| then |header| else firstSeparator + 1;
    assert header[start..] == AfterFirst(header);
    st := ReadAttributes(st, header, start, dates);
    FreshHasNoExpiry((name, value), origin, AttributeTexts(AfterFirst(header)), dates);
    r := FinishCookie(st, origin, now);
  }

  /** The final checks of `parse_set_cookie`. */
  method FinishCookie(st: State, origin: Url, now: int) returns (r: Option<Cookie>)
    requires st.cookie.expires == None
    ensures r == Finish(st, origin, now)
  {
    hide Lower, AddSeconds;
    var cookie := st.cookie;
    if st.maxAge.Some? {
      cookie := cookie.(expires := Some(AddSeconds(now, st.maxAge.value)));
    } else if st.date.Some? {
      cookie := cookie.(expires := st.date);
    }
    if cookie.secure && origin.scheme != "https" { return None; }
    if cookie.domain != [] {
      var domain := cookie.domain;
      while domain != [] && domain[0] == '.'
        invariant DropDots(domain) == DropDots(cookie.domain)
        decreases |domain|
      {
        domain := domain[1..];
      }
      domain := Lower(domain);
      cookie := cookie.(domain := domain);
      if domain != origin.host
         && (|origin.host| <= |domain| || origin.host[|origin.host| - |domain|..] != domain
             || origin.host[|origin.host| - |domain| - 1] != '.')
      {
        return None;
      }
    }
    return Some(cookie);
  }

  lemma FreshHasNoExpiry(pair: (Str, Str), origin: Url, texts: seq<Str>, dates: DateParser)
    ensures ApplyAll(Fresh(pair, origin), texts, dates).cookie.expires == None
  {
    ExpiryUntouched(Fresh(pair, origin), texts, dates);
  }

  lemma {:induction false} ExpiryUntouched(st: State, texts: seq<Str>, dates: DateParser)
    ensures ApplyAll(st, texts, dates).cookie.expires == st.cookie.expires
    decreases |texts|
  {
    hide NameAndValue, ParseInt64;
    if texts != [] {
      ExpiryUntouched(Apply(st, texts[0], dates), texts[1..], dates);
    }
  }

  // ----- which attribute counts -----

  /** What attributes say, field by field; what is not acceptable says nothing. */
  datatype Told = Told(domain: Option<Str>, path: Option<Str>, secure: bool, httpOnly: bool, sameSite: Option<Str>,
                       maxAge: Option<int>, date: Option<int>)

  const NOTHING: Told := Told(None, None, false, false, None, None, None)

  function Telling(text: Str, dates: DateParser): Told {
    var (name, value) := NameAndValue(text);
    Told(if name == "domain" && value != [] then Some(value) else None,
         if name == "path" && value != [] && value[0] == '/' then Some(value) else None,
         name == "secure",
         name == "httponly",
         if name == "samesite" then Some(value) else None,
         if name == "max-age" then ParseInt64(value) else None,
         if name == "expires" then dates(value) else None)
  }

  function Later<T>(later: Option<T>, earlier: Option<T>): Option<T> { if later.Some? then later else earlier }

  /** Field by field, what is said later counts. */
  function Merge(later: Told, earlier: Told): Told {
    Told(Later(later.domain, earlier.domain), Later(later.path, earlier.path), later.secure || earlier.secure,
         later.httpOnly || earlier.httpOnly, Later(later.sameSite, earlier.sameSite),
         Later(later.maxAge, earlier.maxAge), Later(later.date, earlier.date))
  }

  function AllTold(texts: seq<Str>, dates: DateParser): Told {
    if texts == [] then NOTHING else Merge(AllTold(texts[1..], dates), Telling(texts[0], dates))
  }

  function OrElse<T>(a: Option<T>, b: T): T { if a.Some? then a.value else b }

  function Updated(st: State, t: Told): State {
    var c := st.cookie;
    State(c.(domain := OrElse(t.domain, c.domain), hostOnly := c.hostOnly && t.domain.None?, path := OrElse(t.path, c.path),
             secure := c.secure || t.secure, httpOnly := c.httpOnly || t.httpOnly,
             sameSite := OrElse(t.sameSite, c.sameSite)),
          Later(t.maxAge, st.maxAge), Later(t.date, st.date))
  }

  lemma ApplyOne(st: State, text: Str, dates: DateParser)
    ensures Apply(st, text, dates) == Updated(st, Telling(text, dates))
  {
    hide NameAndValue, ParseInt64;
  }

  lemma UpdateTwice(st: State, a: Told, b: Told)
    ensures Updated(Updated(st, a), b) == Updated(st, Merge(b, a))
  {
  }

  /** Of each attribute the last acceptable one counts, in whatever order and however often they come. */
  lemma {:induction false} LastAttributeCounts(st: State, texts: seq<Str>, dates: DateParser)
    ensures ApplyAll(st, texts, dates) == Updated(st, AllTold(texts, dates))
    decreases |texts|
  {
    hide Apply, Telling, Merge;
    if texts != [] {
      ApplyOne(st, texts[0], dates);
      LastAttributeCounts(Apply(st, texts[0], dates), texts[1..], dates);
      UpdateTwice(st, Telling(texts[0], dates), AllTold(texts[1..], dates));
    }
  }

  /** The path told is absolute; it is told exactly when some attribute tells one. */
  lemma {:induction false} ToldPath(texts: seq<Str>, dates: DateParser)
    ensures var path := AllTold(texts, dates).path; path.Some? ==> IsAbsolute(path.value)
    ensures AllTold(texts, dates).path.None? <==> forall text :: text in texts ==> Telling(text, dates).path.None?
  {
    hide NameAndValue, ParseInt64;
    if texts != [] {
      ToldPath(texts[1..], dates);
      assert texts == [texts[0]] + texts[1..];
    }
  }

  // ----- a cookie comes back -----

  /** The path a cookie gets by default matches the path it was set from. */
  lemma DefaultPathMatches(origin: Url)
    ensures PathMatches(DefaultCookiePath(origin), RequestPath(origin)) && IsAbsolute(DefaultCookiePath(origin))
  {
  }

  /** What is known of a cookie that gets through the final checks. */
  ghost predicate Accepted(c: Cookie, origin: Url) {
    c.name != [] && IsAbsolute(c.path) && (c.secure ==> origin.scheme == "https")
    && (c.domain != [] ==> !c.hostOnly && DomainAccepted(c.domain, origin))
  }

  ghost predicate DomainAccepted(domain: Str, origin: Url) {
    IsOrEndsInDotted(origin.host, domain) && DropDots(domain) == domain && Lower(domain) == domain
  }

  lemma FinishAccepts(st: State, origin: Url, now: int)
    requires st.cookie.name != [] && IsAbsolute(st.cookie.path) && (st.cookie.domain != [] ==> !st.cookie.hostOnly)
    ensures Finish(st, origin, now).Some? ==>
              Accepted(Finish(st, origin, now).value, origin) && Finish(st, origin, now).value.path == st.cookie.path
  {
    LoweredDomain(st.cookie.domain);
    hide Lower, DropDots, IsOrEndsInDotted, AddSeconds;
  }

  lemma FirstPairHasName(header: Str)
    ensures FirstPair(header).Some? ==> FirstPair(header).value.0 != []
  {
    hide Trim, Find;
  }

  lemma ParsedCookie(header: Str, origin: Url, now: int, dates: DateParser)
    requires ParseSetCookie(header, origin, now, dates).Some?
    ensures var c := ParseSetCookie(header, origin, now, dates).value;
            Accepted(c, origin)
            && c.path == OrElse(AllTold(AttributeTexts(AfterFirst(header)), dates).path, DefaultCookiePath(origin))
  {
    hide AttributeTexts, ApplyAll, AllTold, DefaultCookiePath, Finish, FirstPair, Accepted;
    var texts, st := AttributeTexts(AfterFirst(header)), Fresh(FirstPair(header).value, origin);
    FirstPairHasName(header);
    LastAttributeCounts(st, texts, dates);
    DefaultPathMatches(origin);
    ToldPath(texts, dates);
    FinishAccepts(ApplyAll(st, texts, dates), origin, now);
  }

  lemma {:induction false} LoweredDomain(domain: Str)
    ensures DropDots(Lower(DropDots(domain))) == Lower(DropDots(domain))
    ensures Lower(Lower(DropDots(domain))) == Lower(DropDots(domain))
  {
    if domain != [] && domain[0] == '.' {
      LoweredDomain(domain[1..]);
    } else {
      LowerTwice(domain);
      LowerKeeps(domain, '.');
    }
  }

  lemma LoweredSuffix(host: Str, domain: Str)
    requires IsOrEndsInDotted(host, domain) && Lower(domain) == domain
    ensures IsOrEndsInDotted(Lower(host), domain)
  {
    var k := |host| - |domain|;
    if host != domain {
      assert host[k..] == domain;
      assert Lower(host)[k..] == Lower(host[k..]);
      LowerKeeps(host, '.');
    }
  }

  /** The jar takes every accepted cookie of an origin with a host. */
  lemma JarAccepts(c: Cookie, origin: Url)
    requires Accepted(c, origin) && origin.host != []
    ensures Prepare(origin, c).Some? && Prepare(origin, c).value.path == c.path
  {
    hide Lower, IsOrEndsInDotted, DropDots;
    if c.domain != [] {
      LoweredSuffix(origin.host, c.domain);
    }
  }

  /**
   * An accepted, unexpired cookie goes with the next request for the same URL exactly when its path matches, whatever
   * the jar held before.
   */
  lemma ComesBackIff(header: Str, origin: Url, now: int, later: int, dates: DateParser, cookies: seq<Cookie>)
    requires ParseSetCookie(header, origin, now, dates).Some? && origin.host != []
    requires now <= later && !Expired(ParseSetCookie(header, origin, now, dates).value, later)
    ensures var c := ParseSetCookie(header, origin, now, dates).value;
            Prepare(origin, c).Some?
            && (Prepare(origin, c).value in ToSend(AfterSet(cookies, origin, c, now), origin, later)
                <==> PathMatches(c.path, RequestPath(origin)))
  {
    var c := ParseSetCookie(header, origin, now, dates).value;
    ParsedCookie(header, origin, now, dates);
    JarAccepts(c, origin);
    hide ParseSetCookie, Prepare, ToSend, PathMatches, DomainMatches, Without, Lower, DropDots, DomainAccepted, GoesWith;
    PreparedIsOk(origin, c);
    SentIsGoing(Prepare(origin, c).value, origin, later);
    SentExactly(AfterSet(cookies, origin, c, now), origin, later);
    WithoutMembers(cookies, Prepare(origin, c).value, Prepare(origin, c).value);
  }

  /** Without a Path attribute, it always does. */
  lemma ComesBackByDefault(header: Str, origin: Url, now: int, later: int, dates: DateParser, cookies: seq<Cookie>)
    requires ParseSetCookie(header, origin, now, dates).Some? && origin.host != []
    requires now <= later && !Expired(ParseSetCookie(header, origin, now, dates).value, later)
    requires forall text :: text in AttributeTexts(AfterFirst(header)) ==> Telling(text, dates).path.None?
    ensures var c := ParseSetCookie(header, origin, now, dates).value;
            Prepare(origin, c).Some?
            && Prepare(origin, c).value in ToSend(AfterSet(cookies, origin, c, now), origin, later)
  {
    hide ParseSetCookie, Prepare, ToSend, PathMatches, AfterSet, AttributeTexts, AllTold, Telling, DefaultCookiePath, Accepted,
         Expired;
    ParsedCookie(header, origin, now, dates);
    ToldPath(AttributeTexts(AfterFirst(header)), dates);
    ComesBackIff(header, origin, now, later, dates, cookies);
    DefaultPathMatches(origin);
  }

  // ----- responses -----

  predicate SameName(a: Str, b: Str) { Lower(a) == Lower(b) }

  /** When a header was parsed, and when its cookie was set. */
  datatype Times = Times(parsing: int, setting: int)

  /** The cookie of one header, if it is a Set-Cookie header that is accepted. */
  function HeaderCookie(header: (Str, Str), origin: Url, parsed: int, dates: DateParser): Option<Cookie> {
    if !SameName(header.0, "Set-Cookie") then None else ParseSetCookie(header.1, origin, parsed, dates)
  }

  /** The jar operation a header asks for, if any. */
  function HeaderOps(header: (Str, Str), origin: Url, times: Times, dates: DateParser): seq<Op> {
    match HeaderCookie(header, origin, times.parsing, dates)
    case None => []
    case Some(c) => [SetOp(origin, c, times.setting)]
  }

  /** The jar operations a response's headers ask for. */
  function CookieOps(headers: seq<(Str, Str)>, origin: Url, times: seq<Times>, dates: DateParser): seq<Op>
    requires |headers| == |times|
  {
    if headers == [] then []
    else
      var n := |headers| - 1;
      CookieOps(headers[..n], origin, times[..n], dates) + HeaderOps(headers[n], origin, times[n], dates)
  }

  /** What listeners are told of a cookie. */
  datatype CookieChange = CookieChange(url: Str, name: Str, domain: Str, path: Str)

  function Change(c: Cookie, origin: Url): CookieChange {
    CookieChange(Print(origin), c.name, if c.domain == [] then origin.host else c.domain, c.path)
  }

  function Changes(ops: seq<Op>): seq<CookieChange> {
    if ops == [] then []
    else
      var n := |ops| - 1;
      Changes(ops[..n]) + if ops[n].SetOp? then [Change(ops[n].cookie, ops[n].origin)] else []
  }

  lemma {:induction false} RunSnoc(cookies: seq<Cookie>, ops: seq<Op>, op: Op)
    ensures Run(cookies, ops + [op]) == AfterOp(Run(cookies, ops), op)
    decreases |ops|
  {
    hide AfterOp;
    if ops == [] {
      assert ([] + [op])[1..] == [];
    } else {
      assert (ops + [op])[1..] == ops[1..] + [op];
      RunSnoc(AfterOp(cookies, ops[0]), ops[1..], op);
    }
  }

  lemma ChangesSnoc(ops: seq<Op>, op: Op)
    requires op.SetOp?
    ensures Changes(ops + [op]) == Changes(ops) + [Change(op.cookie, op.origin)]
  {
    assert (ops + [op])[..|ops|] == ops;
  }

  lemma OpsSnoc(headers: seq<(Str, Str)>, origin: Url, times: seq<Times>, dates: DateParser, i: nat)
    requires |headers| == |times| && i < |headers|
    ensures CookieOps(headers[..i + 1], origin, times[..i + 1], dates)
            == CookieOps(headers[..i], origin, times[..i], dates) + HeaderOps(headers[i], origin, times[i], dates)
  {
    hide HeaderOps;
    assert headers[..i + 1][..i] == headers[..i] && times[..i + 1][..i] == times[..i];
  }

  lemma NoOps(cookies: seq<Cookie>)
    ensures Run(cookies, []) == cookies && Changes([]) == []
  {
  }

  lemma SetStep(cookies: seq<Cookie>, ops: seq<Op>, origin: Url, c: Cookie, now: int)
    ensures Run(cookies, ops + [SetOp(origin, c, now)]) == AfterSet(Run(cookies, ops), origin, c, now)
    ensures Changes(ops + [SetOp(origin, c, now)]) == Changes(ops) + [Change(c, origin)]
  {
    hide Run, AfterSet, Change, Changes;
    RunSnoc(cookies, ops, SetOp(origin, c, now));
    ChangesSnoc(ops, SetOp(origin, c, now));
  }

  /** `apply_response_cookies`, with what it emits to listeners. */
  method ApplyResponseCookies(jar: InMemoryCookieJar, origin: Url, headers: seq<(Str, Str)>, times: seq<Times>,
                              dates: DateParser)
    returns (changes: seq<CookieChange>)
    requires jar.Valid() && |times| == |headers|
    modifies jar
    ensures jar.Valid()
    ensures var ops := CookieOps(headers, origin, times, dates);
            jar.cookies == Run(old(jar.cookies), ops) && changes == Changes(ops)
  {
    hide ParseSetCookie, AfterSet, SameName, JarOk, Change, Changes, Run, CookieOps;
    changes := [];
    NoOps(jar.cookies);
    assert CookieOps(headers[..0], origin, times[..0], dates) == [] by { NoHeaders(headers, origin, times, dates); }
    for i := 0 to |headers|
      invariant jar.Valid()
      invariant var ops := CookieOps(headers[..i], origin, times[..i], dates);
                jar.cookies == Run(old(jar.cookies), ops) && changes == Changes(ops)
    {
      var (name, value) := headers[i];
      ghost var before := CookieOps(headers[..i], origin, times[..i], dates);
      OpsSnoc(headers, origin, times, dates, i);
      EmptyIsUnit(before);
      if !SameName(name, "Set-Cookie") { continue; }
      var cookie := ReadSetCookie(value, origin, times[i].parsing, dates);
      if cookie.None? { continue; }
      SetStep(old(jar.cookies), before, origin, cookie.value, times[i].setting);
      jar.Set(origin, cookie.value, times[i].setting);
      var url := ToString(origin);
      ChangeIs(cookie.value, origin);
      changes := changes + [CookieChange(url, cookie.value.name,
                                         if cookie.value.domain == [] then origin.host else cookie.value.domain,
                                         cookie.value.path)];
    }
    TakeAll(headers);
    TakeAll(times);
  }

  lemma NoHeaders(headers: seq<(Str, Str)>, origin: Url, times: seq<Times>, dates: DateParser)
    requires |headers| == |times|
    ensures CookieOps(headers[..0], origin, times[..0], dates) == []
  {
  }

  lemma ChangeIs(c: Cookie, origin: Url)
    ensures Change(c, origin)
            == CookieChange(Print(origin), c.name, if c.domain == [] then origin.host else c.domain, c.path)
  {
  }
}
