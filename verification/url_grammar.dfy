/** Which texts are which URLs, said on the texts alone (appendix B of RFC 3986; `parse_url` in src/core/url.cpp). */
module UrlGrammar {
  import opened Bytes
  import opened Slashes
  import opened Urls

  // ----- the parts of a text -----

  /** A host and a port, or what is between the first brackets and whatever stands behind them. */
  datatype HostText = Plain(host: Str, port: Option<Str>) | Bracketed(inside: Str, behind: Str)

  datatype AuthorityText = AuthorityText(user: Option<Str>, at: HostText)

  datatype Parts = Parts(scheme: Option<Str>, authority: Option<AuthorityText>, path: Str, query: Option<Str>,
                         fragment: Option<Str>)

  function Before(part: Option<Str>, mark: Str): Str { if part.None? then [] else part.value + mark }

  function Behind(mark: Str, part: Option<Str>): Str { if part.None? then [] else mark + part.value }

  function OrEmpty(part: Option<Str>): Str { if part.None? then [] else part.value }

  function HostPortText(h: HostText): Str {
    match h
    case Plain(host, port) => host + Behind(":", port)
    case Bracketed(inside, behind) => "[" + inside + "]" + behind
  }

  function TextOfAuthority(a: AuthorityText): Str { Before(a.user, "@") + HostPortText(a.at) }

  function AuthorityPart(p: Parts): Str { if p.authority.None? then [] else "//" + TextOfAuthority(p.authority.value) }

  function TailText(p: Parts): Str { p.path + Behind("?", p.query) + Behind("#", p.fragment) }

  function Text(p: Parts): Str { Before(p.scheme, ":") + (AuthorityPart(p) + TailText(p)) }

  // ----- which parts can be told apart -----

  predicate IsLetter(c: Byte) { 'a' <= c <= 'z' || 'A' <= c <= 'Z' }

  /** Section 3.1 of RFC 3986. */
  predicate IsSchemeName(s: Str) {
    s != [] && IsLetter(s[0]) && forall i :: 0 <= i < |s| ==> IsLetter(s[i]) || '0' <= s[i] <= '9' || s[i] in "+-."
  }

  predicate StartsWithScheme(s: Str) { exists k :: 0 <= k < |s| && s[k] == ':' && IsSchemeName(s[..k]) }

  predicate HostTextOk(h: HostText) {
    match h
    case Plain(host, port) => ':' !in host && (host != [] ==> host[0] != '[')
    case Bracketed(inside, behind) => ']' !in inside
  }

  predicate AuthorityTextOk(a: AuthorityText) {
    && HostTextOk(a.at) && (if a.user.Some? then '@' !in a.user.value else '@' !in HostPortText(a.at))
    && forall c :: c in TextOfAuthority(a) ==> c !in "/?#"
  }

  predicate PartsOk(p: Parts) {
    && (if p.scheme.Some? then IsSchemeName(p.scheme.value) else !StartsWithScheme(Text(p)))
    && (if p.authority.Some? then AuthorityTextOk(p.authority.value) && Rooted(p.path) else !("//" <= p.path))
    && '?' !in p.path && '#' !in p.path && (p.query.Some? ==> '#' !in p.query.value)
  }

  // ----- what they mean -----

  function HostMeant(h: HostText): HostPort {
    match h
    case Plain(host, port) => HostPort(Lower(host), OrEmpty(port))
    case Bracketed(inside, behind) =>
      HostPort(Lower("[" + inside + "]"), if behind != [] && behind[0] == ':' then behind[1..] else [])
  }

  function Meant(p: Parts): Url {
    var (user, host) := match p.authority
      case None => ([], HostPort([], []))
      case Some(a) => (OrEmpty(a.user), HostMeant(a.at));
    Url(Lower(OrEmpty(p.scheme)), user, host.host, host.port, p.path, OrEmpty(p.query), OrEmpty(p.fragment),
        p.authority.Some?, p.query.Some?, p.fragment.Some?)
  }

  predicate Spells(s: Str, u: Url, p: Parts) { PartsOk(p) && Text(p) == s && Meant(p) == u }

  ghost predicate Denotes(s: Str, u: Url) { exists p: Parts :: Spells(s, u, p) }

  // ----- what is in parts is read as them -----

  lemma FirstOf(s: Str, c: Byte, n: nat)
    requires n <= |s| && c !in s[..n] && (n < |s| ==> s[n] == c)
    ensures Find(s, c, 0) == n
  {
    assert forall j :: 0 <= j < n ==> s[..n][j] == s[j];
  }

  lemma FirstMark(part: Str, c: Byte, rest: Option<Str>)
    requires c !in part
    ensures var s := part + Behind([c], rest);
            Find(s, c, 0) == |part| && s[..|part|] == part && (|part| < |s| <==> rest.Some?)
            && (rest.Some? ==> s[|part| + 1..] == rest.value)
  {
    var s := part + Behind([c], rest);
    assert s[..|part|] == part;
    FirstOf(s, c, |part|);
  }

  lemma PlainRead(host: Str, port: Option<Str>)
    requires ':' !in host && (host != [] ==> host[0] != '[')
    ensures ParseHostPort(host + Behind(":", port)) == Success(HostPort(Lower(host), OrEmpty(port)))
  {
    hide Lower, Find;
    var s := host + Behind(":", port);
    FirstMark(host, ':', port);
    assert host != [] ==> s[0] == host[0];
  }

  lemma BracketedRead(inside: Str, behind: Str)
    requires ']' !in inside
    ensures var h := Bracketed(inside, behind); ParseHostPort(HostPortText(h)) == Success(HostMeant(h))
  {
    hide Lower, Find;
    var s, n := "[" + inside + "]" + behind, |inside| + 1;
    assert s[..n] == "[" + inside && s[..n + 1] == "[" + inside + "]" && s[n + 1..] == behind;
    FirstOf(s, ']', n);
    assert behind != [] ==> s[n + 1] == behind[0] && s[n + 2..] == behind[1..];
  }

  lemma HostRead(h: HostText)
    requires HostTextOk(h)
    ensures ParseHostPort(HostPortText(h)) == Success(HostMeant(h))
  {
    hide ParseHostPort, Lower, Behind, OrEmpty;
    match h
    case Plain(host, port) => PlainRead(host, port);
    case Bracketed(inside, behind) => BracketedRead(inside, behind);
  }

  lemma AuthorityRead(a: AuthorityText)
    requires AuthorityTextOk(a)
    ensures ParseAuthority(TextOfAuthority(a)) == Success(Authority(OrEmpty(a.user), HostMeant(a.at)))
  {
    hide ParseHostPort, HostTextOk, HostMeant, HostPortText, Find;
    HostRead(a.at);
    var s, host := TextOfAuthority(a), HostPortText(a.at);
    match a.user
    case None =>
      EmptyIsUnit(host);
      assert s == host && s[..|s|] == s;
      FirstOf(s, '@', |s|);
    case Some(user) =>
      assert s[..|user|] == user && s[|user| + 1..] == host;
      FirstOf(s, '@', |user|);
  }

  function TailMeant(p: Parts): Tail {
    Tail(p.path, OrEmpty(p.query), OrEmpty(p.fragment), p.query.Some?, p.fragment.Some?)
  }

  lemma TailRead(p: Parts)
    requires PartsOk(p)
    ensures ParseTail(TailText(p)) == TailMeant(p) && TailOk(TailMeant(p)) && PrintTail(TailMeant(p)) == TailText(p)
  {
    TailReadsBack(TailMeant(p));
    hide ParseTail, Rooted, AuthorityTextOk, StartsWithScheme, IsSchemeName;
  }

  lemma RestRead(p: Parts)
    requires PartsOk(p)
    ensures ParseRest(AuthorityPart(p) + TailText(p))
            == Success((match p.authority
                        case None => None
                        case Some(a) => Some(Authority(OrEmpty(a.user), HostMeant(a.at))),
                        TailMeant(p)))
  {
    hide ParseAuthority, ParseTail, TailText, TailMeant, TextOfAuthority, HostTextOk, HostMeant, PrintTail, TailOk;
    hide StartsWithScheme, IsSchemeName, FindFirstOf;
    TailRead(p);
    var t := TailText(p);
    match p.authority
    case None =>
      EmptyIsUnit(t);
      TwoSlashes(TailMeant(p));
      PathOfMeant(p);
    case Some(a) =>
      var text := TextOfAuthority(a);
      Associate("//", text, t);
      PathOfMeant(p);
      NoneInside(text);
      RestOfAuthority(text, TailMeant(p));
      AuthorityRead(a);
  }

  lemma PathOfMeant(p: Parts)
    ensures TailMeant(p).path == p.path
  {
  }

  lemma NoneInside(s: Str)
    requires forall c :: c in s ==> c !in "/?#"
    ensures NoDelimiters(s)
  {
    forall i | 0 <= i < |s| ensures s[i] !in DELIMITERS {
      assert s[i] in s;
    }
  }

  lemma SameSchemes(s: Str)
    ensures IsSchemeName(s) <==> IsScheme(s)
  {
    forall i | 0 <= i < |s| ensures IsLetter(s[i]) <==> IsAlpha(s[i]) {
    }
    hide LowerByte, IsLetter, IsAlpha;
  }

  lemma SchemeFound(s: Str)
    ensures SchemeEnd(s).Some? <==> StartsWithScheme(s)
  {
    var k := Find(s, ':', 0);
    if SchemeEnd(s).Some? {
      SameSchemes(s[..k]);
    }
    if StartsWithScheme(s) {
      var j :| 0 <= j < |s| && s[j] == ':' && IsSchemeName(s[..j]);
      assert forall i :: 0 <= i < j ==> s[..j][i] != ':' && s[..j][i] == s[i];
      FirstOf(s, ':', j);
      SameSchemes(s[..j]);
    }
  }

  lemma MadeOfMeant(p: Parts)
    ensures Meant(p)
            == Make(Lower(OrEmpty(p.scheme)),
                    match p.authority
                    case None => None
                    case Some(a) => Some(Authority(OrEmpty(a.user), HostMeant(a.at))),
                    TailMeant(p))
  {
  }

  lemma PartsAreRead(p: Parts)
    requires PartsOk(p)
    ensures ParseUrl(Text(p)) == Success(Meant(p))
  {
    hide ParseRest, Meant, Make, TailMeant, IsSchemeName, SchemeEnd, AuthorityPart, TailText, StartsWithScheme;
    RestRead(p);
    MadeOfMeant(p);
    var rest := AuthorityPart(p) + TailText(p);
    match p.scheme
    case None =>
      EmptyIsUnit(rest);
      SchemeFound(Text(p));
      LowerOfNothing();
    case Some(scheme) =>
      SameSchemes(scheme);
      SchemeReadsBack(scheme, rest);
  }

  lemma LowerOfNothing()
    ensures Lower([]) == []
  {
  }

  // ----- what is read is in parts -----

  /** The text behind a byte, if the byte occurs. */
  function PartBehind(s: Str, n: nat): Option<Str>
    requires n <= |s|
  {
    if n < |s| then Some(s[n + 1..]) else None
  }

  lemma CutOff(s: Str, c: Byte)
    ensures var n := Find(s, c, 0); c !in s[..n] && s == s[..n] + Behind([c], PartBehind(s, n))
  {
    hide Find;
    CutAt(s, c);
  }

  lemma BracketsInParts(s: Str) returns (h: HostText)
    requires s != [] && s[0] == '[' && ParseHostPort(s).Success?
    ensures HostTextOk(h) && HostPortText(h) == s && HostMeant(h) == ParseHostPort(s).value
  {
    hide Lower, Find;
    var n := Find(s, ']', 0);
    InBrackets(s, n);
    h := Bracketed(s[1..n], s[n + 1..]);
  }

  lemma InBrackets(s: Str, n: nat)
    requires 0 < n < |s| && s[0] == '[' && s[n] == ']' && forall i :: 0 <= i < n ==> s[i] != ']'
    ensures "[" + s[1..n] + "]" == s[..n + 1] && s[..n + 1] + s[n + 1..] == s && ']' !in s[1..n]
    ensures n + 1 < |s| ==> s[n + 1..][0] == s[n + 1] && s[n + 1..][1..] == s[n + 2..]
  {
  }

  lemma HostInParts(s: Str) returns (h: HostText)
    requires ParseHostPort(s).Success?
    ensures HostTextOk(h) && HostPortText(h) == s && HostMeant(h) == ParseHostPort(s).value
  {
    hide Lower, Find;
    if s != [] && s[0] == '[' {
      h := BracketsInParts(s);
    } else {
      var n := Find(s, ':', 0);
      CutOff(s, ':');
      h := Plain(s[..n], PartBehind(s, n));
    }
  }

  lemma AuthorityInParts(s: Str) returns (a: AuthorityText)
    requires ParseAuthority(s).Success? && NoDelimiters(s)
    ensures AuthorityTextOk(a) && TextOfAuthority(a) == s
    ensures ParseAuthority(s).value == Authority(OrEmpty(a.user), HostMeant(a.at))
  {
    hide ParseHostPort, HostTextOk, HostMeant, HostPortText, Find;
    var n := Find(s, '@', 0);
    CutOff(s, '@');
    if n < |s| {
      var h := HostInParts(s[n + 1..]);
      a := AuthorityText(Some(s[..n]), h);
      Associate(s[..n], "@", s[n + 1..]);
    } else {
      var h := HostInParts(s);
      a := AuthorityText(None, h);
      EmptyIsUnit(s);
      assert s[..|s|] == s;
    }
    assert forall c :: c in s ==> c !in "/?#";
  }

  /** The text of a path, a query and a fragment. */
  function TailParts(s: Str): Parts {
    var hash := Find(s, '#', 0);
    var question := Find(s[..hash], '?', 0);
    Parts(None, None, s[..hash][..question], PartBehind(s[..hash], question), PartBehind(s, hash))
  }

  lemma TailInParts(s: Str)
    ensures var p := TailParts(s);
            && TailText(p) == s && TailMeant(p) == ParseTail(s)
            && '?' !in p.path && '#' !in p.path && (p.query.Some? ==> '#' !in p.query.value)
  {
    hide Find;
    var hash := Find(s, '#', 0);
    CutOff(s, '#');
    CutOff(s[..hash], '?');
    PartsWithout(s[..hash], Find(s[..hash], '?', 0), '#');
  }

  /** Everything but the scheme. */
  lemma RestInParts(s: Str) returns (p: Parts)
    requires ParseRest(s).Success?
    ensures p.scheme.None? && AuthorityPart(p) + TailText(p) == s
    ensures if p.authority.Some? then AuthorityTextOk(p.authority.value) && Rooted(p.path) else !("//" <= p.path)
    ensures '?' !in p.path && '#' !in p.path && (p.query.Some? ==> '#' !in p.query.value)
    ensures ParseRest(s).value.1 == TailMeant(p)
    ensures ParseRest(s).value.0
            == match p.authority
               case None => None
               case Some(a) => Some(Authority(OrEmpty(a.user), HostMeant(a.at)))
  {
    hide ParseAuthority, ParseTail, AuthorityTextOk, HostMeant, TailText, TailMeant, TailParts, FindFirstOf, Rooted;
    if "//" <= s {
      var rest := s[2..];
      var end := FindFirstOf(rest, DELIMITERS);
      FrontHasNone(rest);
      var a := AuthorityInParts(rest[..end]);
      TailInParts(rest[end..]);
      TailIsRooted(rest[end..]);
      var t := TailParts(rest[end..]);
      p := t.(authority := Some(a), scheme := None);
      SameTail(t, p);
      PathOfMeant(p);
      Associate("//", rest[..end], rest[end..]);
      TakeAndDrop(rest, end);
      assert s == "//" + rest;
    } else {
      TailInParts(s);
      p := TailParts(s);
      NoAuthority(s);
      EmptyIsUnit(s);
    }
  }

  lemma FrontHasNone(rest: Str)
    ensures var end := FindFirstOf(rest, DELIMITERS);
            NoDelimiters(rest[..end]) && (rest[end..] == [] || rest[end..][0] in DELIMITERS)
  {
  }

  lemma SameTail(t: Parts, p: Parts)
    requires t.path == p.path && t.query == p.query && t.fragment == p.fragment
    ensures TailText(t) == TailText(p) && TailMeant(t) == TailMeant(p)
  {
  }

  lemma NoAuthority(s: Str)
    requires !("//" <= s)
    ensures var p := TailParts(s); p.scheme.None? && p.authority.None? && !("//" <= p.path)
  {
    TailInParts(s);
    hide Find;
    var p := TailParts(s);
    assert p.path <= s;
  }

  lemma UrlInParts(s: Str) returns (p: Parts)
    requires ParseUrl(s).Success?
    ensures Spells(s, ParseUrl(s).value, p)
  {
    hide ParseRest, Make, TailText, TailMeant, AuthorityPart, AuthorityTextOk, IsSchemeName, StartsWithScheme, Lower,
         SchemeEnd, Meant;
    SchemeFound(s);
    LowerOfNothing();
    match SchemeEnd(s)
    case None =>
      p := RestInParts(s);
      EmptyIsUnit(s);
      MadeOfMeant(p);
    case Some(colon) =>
      var rest := s[colon + 1..];
      var t := RestInParts(rest);
      p := t.(scheme := Some(s[..colon]));
      SameTail(t, p);
      SameAuthority(t, p);
      SchemeTextIsScheme(s);
      SameSchemes(s[..colon]);
      MadeOfMeant(p);
      assert s == s[..colon] + ":" + rest;
  }

  lemma SameAuthority(t: Parts, p: Parts)
    requires t.authority == p.authority
    ensures AuthorityPart(t) == AuthorityPart(p)
  {
  }

  /** A text parses to a URL exactly when it can be told apart into parts that mean it. */
  lemma ParsesExactly(s: Str, u: Url)
    ensures ParseUrl(s) == Success(u) <==> Denotes(s, u)
  {
    hide ParseUrl, PartsOk, Text, Meant;
    if ParseUrl(s) == Success(u) {
      var p := UrlInParts(s);
      assert Spells(s, u, p);
    }
    if Denotes(s, u) {
      var p :| Spells(s, u, p);
      PartsAreRead(p);
    }
  }

  // ----- and printed -----

  function NonEmpty(part: Str): Option<Str> { if part == [] then None else Some(part) }

  function If(has: bool, part: Str): Option<Str> { if has then Some(part) else None }

  /** The parts of a record: empty ones left out, except a query or fragment that is there. */
  function PartsOf(u: Url): Parts {
    Parts(NonEmpty(u.scheme),
          if u.hasAuthority then Some(AuthorityText(NonEmpty(u.userinfo), Plain(u.host, NonEmpty(u.port)))) else None,
          u.path, If(u.hasQuery, u.query), If(u.hasFragment, u.fragment))
  }

  lemma PrintsParts(u: Url)
    ensures Print(u) == Text(PartsOf(u))
  {
    AuthorityPrinted(u);
    TailPrinted(u);
    hide AuthorityPart, TailText, PrintAuthority, PrintTail;
  }

  lemma AuthorityPrinted(u: Url)
    ensures AuthorityPart(PartsOf(u)) == if u.hasAuthority then "//" + PrintAuthority(AuthorityOf(u)) else []
  {
  }

  lemma TailPrinted(u: Url)
    ensures TailText(PartsOf(u)) == PrintTail(TailOf(u))
  {
  }
}
