/** Parsing and printing URLs (src/core/url.cpp; section 5.3 of RFC 3986). */
module Urls {
  import opened Bytes
  import opened Slashes

  datatype Url = Url(scheme: Str, userinfo: Str, host: Str, port: Str, path: Str, query: Str, fragment: Str,
                     hasAuthority: bool, hasQuery: bool, hasFragment: bool)

  const NO_URL: Url := Url([], [], [], [], [], [], [], false, false, false)

  // ----- schemes -----

  predicate IsAlpha(c: Byte) { 'a' <= LowerByte(c) <= 'z' }

  predicate IsSchemeByte(c: Byte) { IsAlpha(c) || IsDigit(c) || c in "+-." }

  predicate IsScheme(s: Str) { s != [] && IsAlpha(s[0]) && forall i :: 0 <= i < |s| ==> IsSchemeByte(s[i]) }

  /** Where the scheme ends, if the text starts with one. */
  function SchemeEnd(s: Str): (r: Option<nat>)
    ensures r.Some? ==> r.value < |s| && s[r.value] == ':'
  {
    var colon := Find(s, ':', 0);
    if colon < |s| && IsScheme(s[..colon]) then Some(colon) else None
  }

  // ----- hosts and ports -----

  datatype HostPort = HostPort(host: Str, port: Str)

  /** A bracketed host ends at its first closing bracket, and anything but a port after it is dropped. */
  function ParseHostPort(s: Str): Result<HostPort> {
    if s != [] && s[0] == '[' then
      var close := Find(s, ']', 0);
      if close == |s| then Failure(InvalidUrl)
      else
        var after := close + 1;
        Success(HostPort(Lower(s[..after]), if after < |s| && s[after] == ':' then s[after + 1..] else []))
    else
      var sep := Find(s, ':', 0);
      Success(HostPort(Lower(s[..sep]), if sep < |s| then s[sep + 1..] else []))
  }

  function PrintHostPort(h: HostPort): Str { h.host + if h.port == [] then [] else ":" + h.port }

  /** The hosts that come out of parsing. */
  predicate HostOk(host: Str) {
    Lower(host) == host
    && if host != [] && host[0] == '[' then Find(host, ']', 0) == |host| - 1 else ':' !in host
  }

  lemma PrintedParts(h: HostPort)
    ensures var s, n := PrintHostPort(h), |h.host|;
            n <= |s| && s[..n] == h.host && (forall i :: 0 <= i < n ==> s[i] == h.host[i])
            && if n < |s| then s[n] == ':' && s[n + 1..] == h.port else h.port == []
  {
    var s, n := PrintHostPort(h), |h.host|;
    assert n < |s| ==> s[n + 1..] == h.port;
  }

  lemma HostPortReadsBack(h: HostPort)
    requires HostOk(h.host)
    ensures ParseHostPort(PrintHostPort(h)) == Success(h)
  {
    hide PrintHostPort, Lower, Find;
    PrintedParts(h);
    var s, n := PrintHostPort(h), |h.host|;
    if n > 0 && h.host[0] == '[' {
      assert Find(s, ']', 0) == n - 1;
    } else {
      assert Find(s, ':', 0) == n;
    }
  }

  lemma LowerKeeps(s: Str, c: Byte)
    requires !('A' <= c <= 'Z') && !('a' <= c <= 'z')
    ensures c in Lower(s) <==> c in s
    ensures Lower(Lower(s)) == Lower(s)
    ensures forall i :: 0 <= i < |s| ==> (Lower(s)[i] == c <==> s[i] == c)
  {
    assert forall i :: 0 <= i < |s| ==> (LowerByte(s[i]) == c <==> s[i] == c);
    if c in s {
      var i :| 0 <= i < |s| && s[i] == c;
      assert Lower(s)[i] == c;
    }
  }

  lemma ParsedHostIsOk(s: Str)
    ensures ParseHostPort(s).Success? ==> HostOk(ParseHostPort(s).value.host)
  {
    if s != [] && s[0] == '[' {
      var close := Find(s, ']', 0);
      if close < |s| {
        var host := s[..close + 1];
        LowerKeeps(host, ']');
        LowerKeeps(host, '[');
        assert forall i :: 0 <= i < close ==> host[i] == s[i];
        assert Find(Lower(host), ']', 0) == close;
      }
    } else {
      var host := s[..Find(s, ':', 0)];
      LowerKeeps(host, ':');
      LowerKeeps(host, '[');
      assert forall i :: 0 <= i < |host| ==> host[i] == s[i];
    }
  }

  // ----- authorities -----

  datatype Authority = Authority(userinfo: Str, at: HostPort)

  /** User information ends at the first `@`. */
  function ParseAuthority(s: Str): Result<Authority> {
    var at := Find(s, '@', 0);
    if at < |s| then
      var hp :- ParseHostPort(s[at + 1..]);
      Success(Authority(s[..at], hp))
    else
      var hp :- ParseHostPort(s);
      Success(Authority([], hp))
  }

  /** Empty user information is not printed, not even its `@`. */
  function PrintAuthority(a: Authority): Str {
    (if a.userinfo == [] then [] else a.userinfo + "@") + PrintHostPort(a.at)
  }

  predicate AuthorityOk(a: Authority) { '@' !in a.userinfo && HostOk(a.at.host) }

  /** An `@` that would be taken for the end of user information is not printed. */
  predicate AtHidden(a: Authority) { a.userinfo != [] || ('@' !in a.at.host && '@' !in a.at.port) }

  lemma WithUserinfo(a: Authority)
    requires AuthorityOk(a) && a.userinfo != []
    ensures ParseAuthority(PrintAuthority(a)) == Success(a)
  {
    var s, n := PrintAuthority(a), |a.userinfo|;
    assert forall i :: 0 <= i < n ==> s[i] == a.userinfo[i];
    assert s[n] == '@' && Find(s, '@', 0) == n;
    assert s[..n] == a.userinfo && s[n + 1..] == PrintHostPort(a.at);
    HostPortReadsBack(a.at);
  }

  lemma WithoutAt(a: Authority)
    requires AuthorityOk(a) && a.userinfo == [] && '@' !in a.at.host && '@' !in a.at.port
    ensures ParseAuthority(PrintAuthority(a)) == Success(a)
  {
    EmptyIsUnit(PrintHostPort(a.at));
    HostPortReadsBack(a.at);
    assert '@' !in PrintHostPort(a.at);
  }

  lemma WithoutFirst(h: HostPort)
    requires h.host != [] && ':' !in h.host
    ensures PrintHostPort(h) != [] && Find(PrintHostPort(h)[1..], ':', 0) == |h.host| - 1
  {
    var host, rest := h.host, PrintHostPort(h)[1..];
    assert forall i :: 0 <= i < |host| - 1 ==> rest[i] == host[i + 1];
    assert |host| - 1 < |rest| ==> rest[|host| - 1] == ':';
  }

  lemma ParsedHost(s: Str)
    ensures s != [] && s[0] == '[' && ParseHostPort(s).Success? ==> ParseHostPort(s).value.host[..1] == "["
    ensures !(s != [] && s[0] == '[') ==>
              ParseHostPort(s).Success? && |ParseHostPort(s).value.host| == Find(s, ':', 0)
  {
  }

  lemma FirstIsAt(h: HostPort)
    requires HostOk(h.host) && PrintHostPort(h) != [] && PrintHostPort(h)[0] == '@'
    ensures Find(PrintHostPort(h), '@', 0) == 0
    ensures h.host != [] && h.host[0] == '@' && ':' !in h.host
  {
    PrintedParts(h);
  }

  /** A host that starts with `@` loses it. */
  lemma LeadingAt(a: Authority)
    requires AuthorityOk(a) && a.userinfo == [] && PrintHostPort(a.at) != [] && PrintHostPort(a.at)[0] == '@'
    ensures ParseAuthority(PrintAuthority(a)) != Success(a)
  {
    hide ParseHostPort, PrintHostPort, Find, HostOk;
    EmptyIsUnit(PrintHostPort(a.at));
    FirstIsAt(a.at);
    WithoutFirst(a.at);
    ParsedHost(PrintHostPort(a.at)[1..]);
  }

  /** Text in front of an `@` comes back as user information. */
  lemma InnerAt(a: Authority)
    requires a.userinfo == [] && 0 < Find(PrintHostPort(a.at), '@', 0) < |PrintHostPort(a.at)|
    ensures ParseAuthority(PrintAuthority(a)) != Success(a)
  {
    hide ParseHostPort, PrintHostPort, Find;
    EmptyIsUnit(PrintHostPort(a.at));
  }

  lemma AtInText(h: HostPort)
    ensures '@' in PrintHostPort(h) <==> '@' in h.host || '@' in h.port
  {
  }

  lemma AuthorityReadsBack(a: Authority)
    requires AuthorityOk(a)
    ensures ParseAuthority(PrintAuthority(a)) == Success(a) <==> AtHidden(a)
  {
    hide ParseAuthority, PrintAuthority, AuthorityOk, PrintHostPort;
    AtInText(a.at);
    if a.userinfo != [] {
      WithUserinfo(a);
    } else if '@' !in PrintHostPort(a.at) {
      WithoutAt(a);
    } else if Find(PrintHostPort(a.at), '@', 0) == 0 {
      LeadingAt(a);
    } else {
      InnerAt(a);
    }
  }

  lemma ParsedAuthorityIsOk(s: Str)
    ensures ParseAuthority(s).Success? ==> AuthorityOk(ParseAuthority(s).value)
  {
    hide HostOk, ParseHostPort;
    var at := Find(s, '@', 0);
    assert '@' !in s[..at];
    if at < |s| {
      ParsedHostIsOk(s[at + 1..]);
    } else {
      ParsedHostIsOk(s);
    }
  }

  // ----- path, query and fragment -----

  datatype Tail = Tail(path: Str, query: Str, fragment: Str, hasQuery: bool, hasFragment: bool)

  function ParseTail(s: Str): Tail {
    var hash := Find(s, '#', 0);
    var before := s[..hash];
    var question := Find(before, '?', 0);
    Tail(before[..question],
         if question < hash then before[question + 1..] else [],
         if hash < |s| then s[hash + 1..] else [],
         question < hash, hash < |s|)
  }

  function PrintTail(t: Tail): Str {
    t.path + (if t.hasQuery then "?" + t.query else []) + (if t.hasFragment then "#" + t.fragment else [])
  }

  predicate TailOk(t: Tail) {
    '?' !in t.path && '#' !in t.path && '#' !in t.query
    && (!t.hasQuery ==> t.query == []) && (!t.hasFragment ==> t.fragment == [])
  }

  lemma TailReadsBack(t: Tail)
    requires TailOk(t)
    ensures ParseTail(PrintTail(t)) == t
  {
    hide Find;
    var before := t.path + (if t.hasQuery then "?" + t.query else []);
    var s := PrintTail(t);
    assert '#' !in before;
    assert s[..|before|] == before;
    assert forall i :: 0 <= i < |before| ==> s[i] == before[i];
    assert t.hasFragment ==> s[|before|] == '#' && s[|before| + 1..] == t.fragment;
    assert Find(s, '#', 0) == |before|;
    QueryReadsBack(t.path, t.hasQuery, t.query);
  }

  lemma QueryReadsBack(path: Str, hasQuery: bool, query: Str)
    requires '?' !in path && (!hasQuery ==> query == [])
    ensures var before := path + (if hasQuery then "?" + query else []);
            Find(before, '?', 0) == |path| && before[..|path|] == path
            && (hasQuery <==> |path| < |before|) && (hasQuery ==> before[|path| + 1..] == query)
  {
    var before := path + (if hasQuery then "?" + query else []);
    assert forall i :: 0 <= i < |path| ==> before[i] == path[i];
    assert hasQuery ==> before[|path|] == '?';
  }

  /** A text is what comes before a byte, the byte, and what comes after it. */
  lemma CutAt(s: Str, c: Byte)
    ensures var n := Find(s, c, 0); c !in s[..n] && s == s[..n] + if n < |s| then [c] + s[n + 1..] else []
  {
    hide Find;
    var n := Find(s, c, 0);
    TakeAndDrop(s, n);
    assert s[n..] == if n < |s| then [s[n]] + s[n + 1..] else [];
  }

  lemma PartsWithout(s: Str, n: nat, c: Byte)
    requires n <= |s| && c !in s
    ensures c !in s[..n] && (n < |s| ==> c !in s[n + 1..])
  {
  }

  lemma ParsedTailIsOk(s: Str)
    ensures TailOk(ParseTail(s)) && PrintTail(ParseTail(s)) == s
  {
    hide Find;
    var before := s[..Find(s, '#', 0)];
    CutAt(s, '#');
    CutAt(before, '?');
    PartsWithout(before, Find(before, '?', 0), '#');
  }

  // ----- the whole URL -----

  const DELIMITERS := "/?#"

  function AuthorityOf(u: Url): Authority { Authority(u.userinfo, HostPort(u.host, u.port)) }

  function TailOf(u: Url): Tail { Tail(u.path, u.query, u.fragment, u.hasQuery, u.hasFragment) }

  function Make(scheme: Str, a: Option<Authority>, t: Tail): Url {
    match a
    case None => Url(scheme, [], [], [], t.path, t.query, t.fragment, false, t.hasQuery, t.hasFragment)
    case Some(x) =>
      Url(scheme, x.userinfo, x.at.host, x.at.port, t.path, t.query, t.fragment, true, t.hasQuery, t.hasFragment)
  }

  /** What follows the scheme. */
  function ParseRest(s: Str): Result<(Option<Authority>, Tail)> {
    if "//" <= s then
      var end := FindFirstOf(s[2..], DELIMITERS);
      var a :- ParseAuthority(s[2..][..end]);
      Success((Some(a), ParseTail(s[2..][end..])))
    else Success((None, ParseTail(s)))
  }

  function ParseUrl(s: Str): Result<Url> {
    match SchemeEnd(s)
    case None =>
      var (a, t) :- ParseRest(s);
      Success(Make([], a, t))
    case Some(colon) =>
      var (a, t) :- ParseRest(s[colon + 1..]);
      Success(Make(Lower(s[..colon]), a, t))
  }

  function PrintRest(u: Url): Str {
    (if u.hasAuthority then "//" + PrintAuthority(AuthorityOf(u)) else []) + PrintTail(TailOf(u))
  }

  function Print(u: Url): Str { (if u.scheme == [] then [] else u.scheme + ":") + PrintRest(u) }

  // ----- the code -----

  method AppendAuthority(before: Str, a: Authority) returns (result: Str)
    ensures result == before + PrintAuthority(a)
  {
    hide PrintHostPort;
    result := before;
    if a.userinfo != [] {
      result := result + (a.userinfo + "@");
    } else {
      EmptyIsUnit(result);
    }
    ghost var start := result;
    result := result + a.at.host;
    if a.at.port != [] {
      result := result + (":" + a.at.port);
    }
    AppendedHostPort(start, a.at, result);
    Associate(before, if a.userinfo == [] then [] else a.userinfo + "@", PrintHostPort(a.at));
  }

  lemma AppendedHostPort(start: Str, h: HostPort, result: Str)
    requires result == if h.port == [] then start + h.host else start + h.host + (":" + h.port)
    ensures result == start + PrintHostPort(h)
  {
    Associate(start, h.host, if h.port == [] then [] else ":" + h.port);
    EmptyIsUnit(start + h.host);
  }

  method AppendTail(before: Str, t: Tail) returns (result: Str)
    ensures result == before + PrintTail(t)
  {
    var query := if t.hasQuery then "?" + t.query else [];
    var fragment := if t.hasFragment then "#" + t.fragment else [];
    result := before + t.path;
    Associate(before, t.path, query);
    EmptyIsUnit(result);
    if t.hasQuery {
      result := result + query;
    }
    Associate(before, t.path + query, fragment);
    EmptyIsUnit(result);
    if t.hasFragment {
      result := result + fragment;
    }
  }

  /** `Url::to_string`. */
  method ToString(u: Url) returns (result: Str)
    ensures result == Print(u)
  {
    hide PrintTail, PrintAuthority;
    result := [];
    if u.scheme != [] {
      result := u.scheme + ":";
    }
    var authority := if u.hasAuthority then "//" + PrintAuthority(AuthorityOf(u)) else [];
    Associate(result, authority, PrintTail(TailOf(u)));
    EmptyIsUnit(result);
    if u.hasAuthority {
      Associate(result, "//", PrintAuthority(AuthorityOf(u)));
      result := AppendAuthority(result + "//", AuthorityOf(u));
    }
    result := AppendTail(result, TailOf(u));
  }

  /** The scheme test of `parse_url`, which walks up to the colon. */
  method FindScheme(rest: Str) returns (r: Option<nat>)
    ensures r == SchemeEnd(rest)
  {
    hide IsSchemeByte, IsAlpha;
    var colon := Find(rest, ':', 0);
    if colon == |rest| || colon == 0 || !IsAlpha(rest[0]) { return None; }
    for i := 0 to colon
      invariant forall j :: 0 <= j < i ==> IsSchemeByte(rest[j])
    {
      if !IsSchemeByte(rest[i]) {
        assert rest[i] == rest[..colon][i];
        return None;
      }
    }
    return Some(colon);
  }

  /** The host and the port of an authority. */
  method TakeHostPort(authority: Str) returns (r: Result<HostPort>)
    ensures r == ParseHostPort(authority)
  {
    hide Lower, Find;
    var host: Str, port: Str := [], [];
    if authority != [] && authority[0] == '[' {
      var close := Find(authority, ']', 0);
      if close == |authority| { return Failure(InvalidUrl); }
      var after := close + 1;
      host := authority[..after];
      if after < |authority| && authority[after] == ':' {
        port := authority[after + 1..];
      }
    } else {
      var sep := Find(authority, ':', 0);
      if sep < |authority| {
        host := authority[..sep];
        port := authority[sep + 1..];
      } else {
        host := authority;
      }
      assert host == authority[..sep];
    }
    host := Lower(host);
    return Success(HostPort(host, port));
  }

  /** The authority part of `parse_url`. */
  method TakeAuthority(text: Str) returns (r: Result<Authority>)
    ensures r == ParseAuthority(text)
  {
    hide ParseHostPort, Find;
    var userinfo: Str, authority := [], text;
    var at := Find(authority, '@', 0);
    if at < |authority| {
      userinfo := authority[..at];
      authority := authority[at + 1..];
    }
    var hp :- TakeHostPort(authority);
    return Success(Authority(userinfo, hp));
  }

  /** The path, query and fragment part of `parse_url`. */
  method TakeTail(text: Str) returns (t: Tail)
    ensures t == ParseTail(text)
  {
    hide Find;
    var rest := text;
    t := Tail([], [], [], false, false);
    var hash := Find(rest, '#', 0);
    if hash < |rest| {
      t := t.(fragment := rest[hash + 1..], hasFragment := true);
    }
    rest := rest[..hash];
    var question := Find(rest, '?', 0);
    if question < |rest| {
      t := t.(query := rest[question + 1..], hasQuery := true);
    }
    rest := rest[..question];
    t := t.(path := rest);
  }

  /** `parse_url`. */
  method Parse(input: Str) returns (r: Result<Url>)
    ensures r == ParseUrl(input)
  {
    hide SchemeEnd, ParseAuthority, ParseTail, FindFirstOf;
    var url: Url, rest := NO_URL, input;
    var colon := FindScheme(rest);
    if colon.Some? {
      url := url.(scheme := Lower(rest[..colon.value]));
      rest := rest[colon.value + 1..];
    }
    if "//" <= rest {
      rest := rest[2..];
      var end := FindFirstOf(rest, DELIMITERS);
      var a :- TakeAuthority(rest[..end]);
      url := url.(userinfo := a.userinfo, host := a.at.host, port := a.at.port, hasAuthority := true);
      rest := rest[end..];
    }
    var t := TakeTail(rest);
    url := url.(path := t.path, query := t.query, fragment := t.fragment,
                hasQuery := t.hasQuery, hasFragment := t.hasFragment);
    return Success(url);
  }

  // ----- when a printed URL is read back -----

  predicate NoDelimiters(s: Str) { forall i :: 0 <= i < |s| ==> s[i] !in DELIMITERS }

  /** The records that parsing, resolution and normalization build. */
  predicate UrlOk(u: Url) {
    (u.scheme == [] || (IsScheme(u.scheme) && Lower(u.scheme) == u.scheme))
    && TailOk(TailOf(u))
    && if u.hasAuthority then
         AuthorityOk(AuthorityOf(u)) && NoDelimiters(PrintAuthority(AuthorityOf(u))) && Rooted(u.path)
       else u.userinfo == [] && u.host == [] && u.port == []
  }

  /** No part of the text is taken for another part. */
  predicate Unambiguous(u: Url) {
    if u.hasAuthority then AtHidden(AuthorityOf(u))
    else !("//" <= u.path) && (u.scheme == [] ==> SchemeEnd(PrintTail(TailOf(u))).None?)
  }

  lemma FirstDelimiter(a: Str, t: Tail)
    requires NoDelimiters(a) && Rooted(t.path)
    ensures var s := a + PrintTail(t);
            FindFirstOf(s, DELIMITERS) == |a| && s[..|a|] == a && s[|a|..] == PrintTail(t)
  {
    var s, tail := a + PrintTail(t), PrintTail(t);
    assert tail != [] ==> tail[0] in DELIMITERS;
    assert forall i :: 0 <= i < |a| ==> s[i] == a[i];
    assert tail != [] ==> s[|a|] == tail[0];
    hide PrintTail;
    assert s[..|a|] == a && s[|a|..] == tail;
  }

  lemma TwoSlashes(t: Tail)
    ensures "//" <= PrintTail(t) <==> "//" <= t.path
  {
    var s := PrintTail(t);
    assert |t.path| >= 2 ==> s[..2] == t.path[..2];
    assert |t.path| == 1 && |s| > 1 ==> s[1] != '/';
    assert |t.path| == 0 && |s| > 0 ==> s[0] != '/';
  }

  lemma RestReadsBack(u: Url)
    requires UrlOk(u)
    ensures ParseRest(PrintRest(u)) == Success((if u.hasAuthority then Some(AuthorityOf(u)) else None, TailOf(u)))
            <==> if u.hasAuthority then AtHidden(AuthorityOf(u)) else !("//" <= u.path)
  {
    hide ParseAuthority, PrintAuthority, ParseTail, PrintTail, NoDelimiters, AuthorityOk, TailOk, AtHidden;
    var t := TailOf(u);
    TailReadsBack(t);
    if u.hasAuthority {
      var a := PrintAuthority(AuthorityOf(u));
      Associate("//", a, PrintTail(t));
      assert PrintRest(u)[..2] == "//" && PrintRest(u)[2..] == a + PrintTail(t);
      FirstDelimiter(a, t);
      AuthorityReadsBack(AuthorityOf(u));
    } else {
      EmptyIsUnit(PrintTail(t));
      TwoSlashes(t);
    }
  }

  lemma SchemeReadsBack(scheme: Str, rest: Str)
    requires IsScheme(scheme)
    ensures var s := scheme + ":" + rest;
            SchemeEnd(s) == Some(|scheme|) && s[..|scheme|] == scheme && s[|scheme| + 1..] == rest
  {
    var s, n := scheme + ":" + rest, |scheme|;
    assert s[..n] == scheme && s[n + 1..] == rest && s[n] == ':';
    assert forall i :: 0 <= i < n ==> s[i] == scheme[i] && s[i] != ':';
    assert Find(s, ':', 0) == n;
  }

  lemma SlashIsNoScheme(s: Str)
    requires s != [] && s[0] == '/'
    ensures SchemeEnd(s) == None
  {
  }

  lemma MakeOfParts(u: Url)
    requires UrlOk(u)
    ensures u == Make(u.scheme, if u.hasAuthority then Some(AuthorityOf(u)) else None, TailOf(u))
  {
  }

  /** A well-formed record is what its text parses to exactly when the text is unambiguous. */
  lemma ReadsBackIff(u: Url)
    requires UrlOk(u)
    ensures ParseUrl(Print(u)) == Success(u) <==> Unambiguous(u)
  {
    hide ParseRest, PrintRest, PrintTail, AtHidden, SchemeEnd, IsScheme, Make, AuthorityOk, TailOk, NoDelimiters;
    RestReadsBack(u);
    MakeOfParts(u);
    var rest := PrintRest(u);
    if u.scheme != [] {
      SchemeReadsBack(u.scheme, rest);
      SamePartsIff(u, u.scheme, ParseRest(rest));
    } else {
      EmptyIsUnit(rest);
      RestWithoutScheme(u);
      if SchemeEnd(rest).None? {
        SamePartsIff(u, [], ParseRest(rest));
      } else {
        SchemeIsKept(rest);
      }
    }
  }

  /** Equal records have equal parts, and the other way round. */
  lemma SamePartsIff(u: Url, scheme: Str, parts: Result<(Option<Authority>, Tail)>)
    requires UrlOk(u) && scheme == u.scheme
    ensures parts == Success((if u.hasAuthority then Some(AuthorityOf(u)) else None, TailOf(u)))
            <==> parts.Success? && Make(scheme, parts.value.0, parts.value.1) == u
  {
    hide UrlOk;
    MakeOfParts(u);
  }

  lemma RestWithoutScheme(u: Url)
    requires UrlOk(u)
    ensures u.hasAuthority ==> SchemeEnd(PrintRest(u)).None?
    ensures !u.hasAuthority ==> PrintRest(u) == PrintTail(TailOf(u))
  {
    hide SchemeEnd, PrintTail, PrintAuthority, UrlOk;
    if u.hasAuthority {
      assert PrintRest(u)[0] == '/';
      SlashIsNoScheme(PrintRest(u));
    } else {
      EmptyIsUnit(PrintTail(TailOf(u)));
    }
  }

  lemma SchemeIsKept(s: Str)
    requires SchemeEnd(s).Some?
    ensures ParseUrl(s).Success? ==> ParseUrl(s).value.scheme != []
  {
    hide ParseRest;
    assert Lower(s[..SchemeEnd(s).value]) != [];
  }

  // ----- what parsing builds -----

  lemma LowerScheme(s: Str)
    requires IsScheme(s)
    ensures IsScheme(Lower(s)) && Lower(Lower(s)) == Lower(s)
  {
  }

  lemma HostPortWithout(s: Str, c: Byte)
    requires c !in s && c in DELIMITERS
    ensures ParseHostPort(s).Success? ==>
              c !in ParseHostPort(s).value.host && c !in ParseHostPort(s).value.port
  {
    if s != [] && s[0] == '[' {
      var close := Find(s, ']', 0);
      if close < |s| {
        LowerKeeps(s[..close + 1], c);
      }
    } else {
      LowerKeeps(s[..Find(s, ':', 0)], c);
    }
  }

  lemma AuthorityWithout(s: Str, c: Byte)
    requires c !in s && c in DELIMITERS
    ensures ParseAuthority(s).Success? ==> c !in PrintAuthority(ParseAuthority(s).value)
  {
    hide ParseHostPort;
    var at := Find(s, '@', 0);
    HostPortWithout(if at < |s| then s[at + 1..] else s, c);
  }

  lemma ParsedAuthorityHasNoDelimiters(s: Str)
    requires NoDelimiters(s)
    ensures ParseAuthority(s).Success? ==> NoDelimiters(PrintAuthority(ParseAuthority(s).value))
  {
    hide ParseAuthority, PrintAuthority;
    assert '/' !in s && '?' !in s && '#' !in s;
    AuthorityWithout(s, '/');
    AuthorityWithout(s, '?');
    AuthorityWithout(s, '#');
  }

  lemma TailIsRooted(s: Str)
    requires s == [] || s[0] in DELIMITERS
    ensures Rooted(ParseTail(s).path)
  {
    var hash := Find(s, '#', 0);
    var question := Find(s[..hash], '?', 0);
    assert question > 0 ==> s[0] == s[..hash][0] && s[0] != '#' && s[..hash][0] != '?';
  }

  lemma PartsAreOk(s: Str)
    ensures ParseRest(s).Success? ==>
              var (a, t) := ParseRest(s).value;
              TailOk(t)
              && (a.Some? ==> AuthorityOk(a.value) && NoDelimiters(PrintAuthority(a.value)) && Rooted(t.path))
              && (a.None? ==> !("//" <= t.path) && PrintTail(t) == s)
  {
    hide ParseAuthority, PrintAuthority, AuthorityOk, TailOk, ParseTail, PrintTail;
    if "//" <= s {
      var rest := s[2..];
      var end := FindFirstOf(rest, DELIMITERS);
      ParsedAuthorityIsOk(rest[..end]);
      ParsedAuthorityHasNoDelimiters(rest[..end]);
      ParsedTailIsOk(rest[end..]);
      TailIsRooted(rest[end..]);
    } else {
      ParsedTailIsOk(s);
      TwoSlashes(ParseTail(s));
    }
  }

  lemma MadeOfOkParts(scheme: Str, a: Option<Authority>, t: Tail)
    requires scheme == [] || (IsScheme(scheme) && Lower(scheme) == scheme)
    requires TailOk(t)
    requires a.Some? ==> AuthorityOk(a.value) && NoDelimiters(PrintAuthority(a.value)) && Rooted(t.path)
    requires a.None? ==> !("//" <= t.path) && (scheme == [] ==> SchemeEnd(PrintTail(t)).None?)
    ensures var u := Make(scheme, a, t); UrlOk(u) && (!u.hasAuthority ==> Unambiguous(u))
  {
    hide SchemeEnd, AuthorityOk, TailOk, NoDelimiters, PrintAuthority, PrintTail, IsScheme, Lower;
    assert TailOf(Make(scheme, a, t)) == t;
    assert a.Some? ==> AuthorityOf(Make(scheme, a, t)) == a.value;
  }

  /** Parsing builds well-formed records; without an authority their text is unambiguous. */
  lemma ParsedIsOk(s: Str)
    ensures ParseUrl(s).Success? ==>
              var u := ParseUrl(s).value; UrlOk(u) && (!u.hasAuthority ==> Unambiguous(u))
  {
    hide ParseRest, SchemeEnd, AuthorityOk, TailOk, NoDelimiters, PrintAuthority, PrintTail, IsScheme, Lower, Make,
         UrlOk, Unambiguous;
    var colon := SchemeEnd(s);
    var scheme := if colon.None? then [] else Lower(s[..colon.value]);
    var rest := if colon.None? then s else s[colon.value + 1..];
    PartsAreOk(rest);
    if colon.Some? {
      SchemeTextIsScheme(s);
      LowerScheme(s[..colon.value]);
      SchemeIsNonempty(scheme);
    }
    if ParseRest(rest).Success? {
      MadeOfOkParts(scheme, ParseRest(rest).value.0, ParseRest(rest).value.1);
    }
  }

  lemma SchemeTextIsScheme(s: Str)
    requires SchemeEnd(s).Some?
    ensures IsScheme(s[..SchemeEnd(s).value])
  {
  }

  lemma SchemeIsNonempty(s: Str)
    requires IsScheme(s)
    ensures s != []
  {
  }

  /**
   * Printing a parsed URL and parsing it again gives the same record exactly when user information was there or no `@`
   * is left in host or port.
   */
  lemma RoundTrip(s: Str)
    requires ParseUrl(s).Success?
    ensures var u := ParseUrl(s).value;
            ParseUrl(Print(u)) == Success(u) <==> (u.hasAuthority ==> AtHidden(AuthorityOf(u)))
  {
    hide ParseUrl, Print, UrlOk, AtHidden;
    ParsedIsOk(s);
    ReadsBackIff(ParseUrl(s).value);
  }

  lemma RestOfAuthority(a: Str, t: Tail)
    requires NoDelimiters(a) && Rooted(t.path) && TailOk(t)
    ensures ParseRest("//" + (a + PrintTail(t)))
            == match ParseAuthority(a) case Failure(e) => Failure(e) case Success(x) => Success((Some(x), t))
  {
    hide ParseAuthority, NoDelimiters, ParseTail, PrintTail, TailOk, FindFirstOf, Rooted;
    var text := a + PrintTail(t);
    FirstDelimiter(a, t);
    TailReadsBack(t);
    assert ("//" + text)[2..] == text;
  }

  /** A text made of an authority and a path, and of nothing else. */
  lemma AuthorityAndPath(a: Str, path: Str)
    requires NoDelimiters(a) && Rooted(path) && '?' !in path && '#' !in path
    ensures ParseUrl("//" + a + path)
            == match ParseAuthority(a)
               case Failure(e) => Failure(e)
               case Success(x) => Success(Make([], Some(x), Tail(path, [], [], false, false)))
  {
    hide ParseAuthority, NoDelimiters, SchemeEnd, ParseRest, PrintTail, TailOk, Rooted;
    PlainTail(path);
    RestOfAuthority(a, Tail(path, [], [], false, false));
    Associate("//", a, path);
    SlashIsNoScheme("//" + a + path);
  }

  lemma PlainTail(path: Str)
    requires '?' !in path && '#' !in path
    ensures var t := Tail(path, [], [], false, false); TailOk(t) && PrintTail(t) == path
  {
  }

  lemma PlainHost(host: Str)
    requires '@' !in host && ':' !in host && (host != [] ==> host[0] != '[')
    ensures ParseAuthority(host) == Success(Authority([], HostPort(Lower(host), [])))
  {
    hide Lower;
    assert host[..|host|] == host;
  }

  /** An `@` in front of a plain host marks empty user information. */
  lemma AtInFront(rest: Str)
    ensures ParseAuthority("@" + rest)
            == match ParseHostPort(rest)
               case Failure(e) => Failure(e)
               case Success(h) => Success(Authority([], h))
  {
    hide ParseHostPort;
    assert ("@" + rest)[0] == '@' && ("@" + rest)[1..] == rest && ("@" + rest)[..0] == [];
  }

  /** A second `@` after empty user information is taken for its end. */
  lemma SecondAt()
    ensures ParseUrl("//@@b") == Success(NO_URL.(host := "@b", hasAuthority := true))
    ensures ParseUrl(Print(ParseUrl("//@@b").value)) != ParseUrl("//@@b")
  {
    hide ParseUrl, ParseAuthority, Print, Find;
    assert "//@@b" == "//" + ("@" + "@b") + [];
    AuthorityAndPath("@" + "@b", []);
    AtInFront("@b");
    assert ParseHostPort("@b") == Success(HostPort("@b", [])) by {
      assert Find("@b", ':', 0) == 2 && "@b"[..2] == "@b" && Lower("@b") == "@b";
    }
    RoundTrip("//@@b");
  }
}
