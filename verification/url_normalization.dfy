/** Normalizing URLs (src/core/url.cpp; section 6.2 of RFC 3986). */
module UrlNormalization {
  import opened Bytes
  import opened Slashes
  import opened DotSegments
  import opened Urls
  import opened UrlResolution
  import opened UrlGrammar

  predicate IsDefaultPort(scheme: Str, port: Str) {
    (scheme == "http" && port == "80") || (scheme == "https" && port == "443")
  }

  function Normal(u: Url): Url {
    var scheme := Lower(u.scheme);
    RootPath(u.(scheme := scheme, host := Lower(u.host), path := RemoveDots(u.path),
                port := if IsDefaultPort(scheme, u.port) then [] else u.port))
  }

  function Normalize(s: Str): Result<Str> {
    var u :- ParseUrl(s);
    Success(Print(Normal(u)))
  }

  // ----- the code -----

  /** `normalize_url`. */
  method NormalizeUrl(input: Str) returns (r: Result<Str>)
    ensures r == Normalize(input)
  {
    hide ParseUrl, RemoveDots, Print, Lower;
    var url :- Parse(input);
    url := url.(scheme := Lower(url.scheme));
    url := url.(host := Lower(url.host));
    var path := RemoveDotSegments(url.path);
    url := url.(path := path);
    if (url.scheme == "http" && url.port == "80") || (url.scheme == "https" && url.port == "443") {
      url := url.(port := []);
    }
    if url.hasAuthority && url.path == [] {
      url := url.(path := "/");
    }
    var text := ToString(url);
    return Success(text);
  }

  // ----- normal records -----

  lemma NormalIsOk(u: Url)
    requires UrlOk(u)
    ensures UrlOk(Normal(u))
    ensures Normal(Normal(u)) == Normal(u)
    ensures u.hasAuthority ==> (AtHidden(AuthorityOf(Normal(u))) <==> AtHidden(AuthorityOf(u)))
  {
    hide RemoveDots, IsScheme, Lower, NoDelimiters, Find;
    RemovalKeepsTail(u.path);
    Idempotent(u.path);
    RootIsDotFree();
    if u.hasAuthority {
      WithoutPort(AuthorityOf(u));
    }
  }

  /**
   * The normal text of a URL, part by part: the default port of its scheme and every dot segment gone, and a root path
   * where an authority has none; scheme and host are in lower case since parsing.
   */
  lemma NormalizesParts(s: Str, u: Url)
    requires Denotes(s, u)
    ensures var port := if u.port == (if u.scheme == "http" then "80" else if u.scheme == "https" then "443" else [])
                        then [] else u.port;
            var path := if u.hasAuthority && RemoveDots(u.path) == [] then "/" else RemoveDots(u.path);
            && Normalize(s) == Success(Text(PartsOf(u.(port := port, path := path))))
            && Lower(u.scheme) == u.scheme && Lower(u.host) == u.host
  {
    ParsesExactly(s, u);
    ParsedIsOk(s);
    LowerOfNothing();
    PrintsParts(Normal(u));
    hide ParseUrl, Denotes, Print, RemoveDots, Text, PartsOf, Lower, IsScheme, NoDelimiters, Find, PrintAuthority;
  }

  lemma RootIsDotFree()
    ensures RemoveDots("/") == "/"
  {
    KeptIffDotFree("/");
    assert Split("/") == [[], []];
  }

  lemma WithoutPort(a: Authority)
    requires NoDelimiters(PrintAuthority(a))
    ensures NoDelimiters(PrintAuthority(a.(at := a.at.(port := []))))
  {
    var b := a.(at := a.at.(port := []));
    assert PrintAuthority(b) <= PrintAuthority(a);
  }

  /** A normalized URL is what its text parses to exactly when that text is unambiguous. */
  lemma NormalReadsBack(s: Str)
    requires ParseUrl(s).Success?
    ensures var n := Normal(ParseUrl(s).value);
            ParseUrl(Print(n)) == Success(n) <==> Unambiguous(n)
  {
    hide ParseUrl, Print, Normal, UrlOk, Unambiguous;
    ParsedIsOk(s);
    NormalIsOk(ParseUrl(s).value);
    ReadsBackIff(Normal(ParseUrl(s).value));
  }

  /** Normalization is idempotent where its result is unambiguous. */
  lemma NormalizeTwice(s: Str)
    requires ParseUrl(s).Success? && Unambiguous(Normal(ParseUrl(s).value))
    ensures Normalize(Normalize(s).value) == Normalize(s)
  {
    hide ParseUrl, Print, Normal, UrlOk, Unambiguous;
    ParsedIsOk(s);
    NormalIsOk(ParseUrl(s).value);
    NormalReadsBack(s);
  }

  // ----- exactly when normalization is idempotent, for URLs with an authority -----

  function NormalPort(scheme: Str, h: HostPort): HostPort {
    if IsDefaultPort(scheme, h.port) then h.(port := []) else h
  }

  /** A lower-case host, and after it nothing or a port that is neither empty nor the default. */
  predicate IsNormalHostPort(scheme: Str, s: Str) {
    var bracket := s != [] && s[0] == '[';
    var n := if bracket then Find(s, ']', 0) + 1 else Find(s, ':', 0);
    n <= |s| && Lower(s[..n]) == s[..n]
    && (n < |s| ==> s[n] == ':' && n + 1 < |s| && !IsDefaultPort(scheme, s[n + 1..]))
  }

  /** What parsing, dropping the default port and printing leave alone. */
  lemma NormalHostPortIff(scheme: Str, s: Str)
    ensures IsNormalHostPort(scheme, s)
            <==> ParseHostPort(s).Success? && PrintHostPort(NormalPort(scheme, ParseHostPort(s).value)) == s
  {
    var n := if s != [] && s[0] == '[' then Find(s, ']', 0) + 1 else Find(s, ':', 0);
    hide Lower, Find;
    if n <= |s| {
      var host := Lower(s[..n]);
      var port := if n < |s| && s[n] == ':' then s[n + 1..] else [];
      assert ParseHostPort(s) == Success(HostPort(host, port));
      hide ParseHostPort, IsDefaultPort;
      var kept := if IsDefaultPort(scheme, port) then [] else port;
      HostAndRest(s, n, host, kept);
    }
  }

  lemma HostAndRest(s: Str, n: nat, host: Str, port: Str)
    requires n <= |s| && |host| == n
    ensures PrintHostPort(HostPort(host, port)) == s
            <==> host == s[..n] && if port == [] then n == |s| else n < |s| && s[n] == ':' && port == s[n + 1..]
  {
    var t := PrintHostPort(HostPort(host, port));
    PrintedParts(HostPort(host, port));
    assert |t| == n <==> port == [];
    hide PrintHostPort;
    assert s == s[..n] + s[n..] && t == t[..n] + t[n..];
    assert n < |s| ==> s[n..] == [s[n]] + s[n + 1..];
    assert n < |t| ==> t[n..] == [t[n]] + t[n + 1..];
  }

  /** A stray `@` with text in front of it, and a host and port behind it that are normal already. */
  predicate StrayAtIsKept(scheme: Str, hostPort: Str) {
    var at := Find(hostPort, '@', 0);
    0 < at < |hostPort| && IsNormalHostPort(scheme, hostPort[at + 1..])
  }

  lemma NeverLonger(scheme: Str, s: Str)
    ensures ParseHostPort(s).Success? ==> |PrintHostPort(NormalPort(scheme, ParseHostPort(s).value))| <= |s|
  {
  }

  /** Parsing and printing an authority text again. */
  lemma StrayAtIff(scheme: Str, s: Str)
    requires Find(s, '@', 0) < |s|
    ensures StrayAtIsKept(scheme, s)
            <==> ParseAuthority(s).Success?
                 && var a := ParseAuthority(s).value; PrintAuthority(a.(at := NormalPort(scheme, a.at))) == s
  {
    hide ParseHostPort, PrintHostPort, NormalPort, IsNormalHostPort, Find;
    var at := Find(s, '@', 0);
    var user, rest := s[..at], s[at + 1..];
    NeverLonger(scheme, rest);
    NormalHostPortIff(scheme, rest);
    assert s[at] == '@' by {
      FindsByte(s, '@');
    }
    assert s == user + "@" + rest;
    if ParseHostPort(rest).Success? {
      var text := PrintHostPort(NormalPort(scheme, ParseHostPort(rest).value));
      EmptyIsUnit(text);
      CancelPrefix(user + "@", text, rest);
    }
  }

  lemma FindsByte(s: Str, c: Byte)
    requires Find(s, c, 0) < |s|
    ensures s[Find(s, c, 0)] == c
  {
  }

  lemma CancelPrefix(a: Str, b: Str, c: Str)
    ensures a + b == a + c <==> b == c
  {
    assert (a + b)[|a|..] == b && (a + c)[|a|..] == c;
  }

  lemma AuthorityRestParses(u: Url)
    requires UrlOk(u) && u.hasAuthority
    ensures PrintRest(u) != [] && PrintRest(u)[0] == '/'
    ensures ParseRest(PrintRest(u)) == match ParseAuthority(PrintAuthority(AuthorityOf(u)))
                                       case Failure(e) => Failure(e)
                                       case Success(a) => Success((Some(a), TailOf(u)))
  {
    hide ParseAuthority, PrintAuthority, ParseTail, PrintTail, NoDelimiters, AuthorityOk, TailOk, IsScheme;
    var a, t := PrintAuthority(AuthorityOf(u)), TailOf(u);
    TailReadsBack(t);
    Associate("//", a, PrintTail(t));
    var rest := PrintRest(u);
    assert rest[..2] == "//" && rest[2..] == a + PrintTail(t);
    FirstDelimiter(a, t);
  }

  /** What the text of a well-formed URL with an authority parses to. */
  lemma AuthorityTextParses(u: Url)
    requires UrlOk(u) && u.hasAuthority
    ensures ParseUrl(Print(u)) == match ParseAuthority(PrintAuthority(AuthorityOf(u)))
                                  case Failure(e) => Failure(e)
                                  case Success(a) => Success(Make(u.scheme, Some(a), TailOf(u)))
  {
    hide ParseAuthority, PrintAuthority, ParseRest, PrintRest, NoDelimiters, AuthorityOk, TailOk, IsScheme, SchemeEnd, Lower,
         Make;
    AuthorityRestParses(u);
    var rest := PrintRest(u);
    if u.scheme == [] {
      EmptyIsUnit(rest);
      SlashIsNoScheme(rest);
    } else {
      SchemeReadsBack(u.scheme, rest);
    }
  }

  lemma SameTextIff(u: Url, v: Url)
    requires u.hasAuthority && v.hasAuthority && u.scheme == v.scheme && TailOf(u) == TailOf(v)
    ensures Print(u) == Print(v) <==> PrintAuthority(AuthorityOf(u)) == PrintAuthority(AuthorityOf(v))
  {
    hide PrintAuthority, PrintTail;
    var a, b, tail := PrintAuthority(AuthorityOf(u)), PrintAuthority(AuthorityOf(v)), PrintTail(TailOf(u));
    var front := (if u.scheme == [] then [] else u.scheme + ":");
    CancelPrefix(front, PrintRest(u), PrintRest(v));
    Associate("//", a, tail);
    Associate("//", b, tail);
    CancelPrefix("//", a + tail, b + tail);
    CancelSuffix(a, b, tail);
  }

  lemma CancelSuffix(a: Str, b: Str, c: Str)
    ensures a + c == b + c <==> a == b
  {
    if a + c == b + c {
      assert |a| == |b|;
      assert (a + c)[..|a|] == a && (b + c)[..|b|] == b;
    }
  }

  /** Normalizing changes only the port of a URL whose other parts are normal. */
  lemma NormalOfParsed(n: Url, a: Authority)
    requires UrlOk(n) && n.hasAuthority && Normal(n) == n && HostOk(a.at.host)
    ensures Normal(Make(n.scheme, Some(a), TailOf(n)))
            == Make(n.scheme, Some(a.(at := NormalPort(n.scheme, a.at))), TailOf(n))
  {
    hide RemoveDots, Lower;
  }

  /**
   * For a URL with an authority, normalization is idempotent exactly when no `@` is left in host and port, or there was
   * user information, or a stray `@` is neither first nor followed by something normalization would change.
   */
  lemma NormalizeAuthorityIff(s: Str)
    requires ParseUrl(s).Success? && ParseUrl(s).value.hasAuthority
    ensures var a := AuthorityOf(Normal(ParseUrl(s).value));
            Normalize(Normalize(s).value) == Normalize(s)
            <==> AtHidden(a) || StrayAtIsKept(Lower(ParseUrl(s).value.scheme), PrintHostPort(a.at))
  {
    hide ParseUrl, Print, UrlOk, ParseAuthority, PrintAuthority, StrayAtIsKept, AtHidden, Normal, PrintHostPort;
    var n := Normal(ParseUrl(s).value);
    ParsedIsOk(s);
    NormalIsOk(ParseUrl(s).value);
    NormalKeeps(ParseUrl(s).value);
    if AtHidden(AuthorityOf(n)) {
      NormalizeTwice(s);
    } else {
      StrayInText(AuthorityOf(n));
      StrayAtIff(n.scheme, PrintHostPort(AuthorityOf(n).at));
      AuthorityTextParses(n);
      var parsed := ParseAuthority(PrintAuthority(AuthorityOf(n)));
      if parsed.Success? {
        ParsedAuthorityIsOk(PrintAuthority(AuthorityOf(n)));
        NormalOfParsed(n, parsed.value);
        SameTextIff(Normal(Make(n.scheme, Some(parsed.value), TailOf(n))), n);
      }
    }
  }

  lemma NormalKeeps(u: Url)
    ensures Normal(u).hasAuthority == u.hasAuthority && Normal(u).scheme == Lower(u.scheme)
  {
  }

  lemma StrayInText(a: Authority)
    requires !AtHidden(a)
    ensures PrintAuthority(a) == PrintHostPort(a.at) && Find(PrintHostPort(a.at), '@', 0) < |PrintHostPort(a.at)|
  {
    hide PrintHostPort;
    EmptyIsUnit(PrintHostPort(a.at));
    AtInText(a.at);
  }

  // ----- and for URLs without one -----

  /** An authority text that is its own normal form. */
  predicate AuthorityIsKept(scheme: Str, text: Str) {
    if '@' in text then StrayAtIsKept(scheme, text) else IsNormalHostPort(scheme, text)
  }

  lemma AuthorityKeptIff(scheme: Str, text: Str)
    ensures AuthorityIsKept(scheme, text)
            <==> ParseAuthority(text).Success?
                 && var a := ParseAuthority(text).value; PrintAuthority(a.(at := NormalPort(scheme, a.at))) == text
  {
    hide StrayAtIsKept, IsNormalHostPort, ParseHostPort, PrintHostPort, NormalPort;
    if '@' in text {
      StrayAtIff(scheme, text);
    } else {
      NormalHostPortIff(scheme, text);
      if ParseHostPort(text).Success? {
        EmptyIsUnit(PrintHostPort(NormalPort(scheme, ParseHostPort(text).value)));
      }
    }
  }

  /** Two slashes in front make the text up to the next one an authority, and what follows its path. */
  function UncoveredText(path: Str): Str
    requires "//" <= path
  {
    path[2..][..Find(path[2..], '/', 0)]
  }

  function UncoveredPath(path: Str): Str
    requires "//" <= path
  {
    path[2..][Find(path[2..], '/', 0)..]
  }

  /** Such a path survives normalization: it leaves a path, and the authority is normal. */
  predicate UncoveredIsKept(scheme: Str, path: Str)
    requires "//" <= path
  {
    UncoveredPath(path) != [] && AuthorityIsKept(scheme, UncoveredText(path))
  }

  /** Whether printing a normal record and normalizing the text gives the text again. */
  predicate Settled(n: Url) {
    if n.hasAuthority then AtHidden(AuthorityOf(n)) || StrayAtIsKept(n.scheme, PrintHostPort(AuthorityOf(n).at))
    else if "//" <= n.path then UncoveredIsKept(n.scheme, n.path)
    else
      var colon := if n.scheme == [] then SchemeEnd(n.path) else None;
      colon.Some? ==>
        var scheme, path := n.path[..colon.value], n.path[colon.value + 1..];
        Lower(scheme) == scheme && if "//" <= path then UncoveredIsKept(scheme, path) else DotFree(path)
  }

  lemma UncoveredParts(path: Str)
    requires "//" <= path
    ensures path == "//" + UncoveredText(path) + UncoveredPath(path)
    ensures '/' !in UncoveredText(path) && Rooted(UncoveredPath(path))
  {
    var r, n := path[2..], Find(path[2..], '/', 0);
    assert '/' !in r[..n];
    hide Find;
    assert path == path[..2] + r && r == r[..n] + r[n..];
    Associate("//", r[..n], r[n..]);
  }

  lemma UncoveredPlain(path: Str)
    requires "//" <= path && '?' !in path && '#' !in path
    ensures NoDelimiters(UncoveredText(path)) && '?' !in UncoveredPath(path) && '#' !in UncoveredPath(path)
  {
    UncoveredParts(path);
    hide UncoveredText, UncoveredPath;
    var a := UncoveredText(path);
    assert forall c :: c in a || c in UncoveredPath(path) ==> c in path;
    assert forall i :: 0 <= i < |a| ==> a[i] in a;
  }

  /** What a rest that starts with two slashes parses to. */
  lemma UncoveredParses(t: Tail)
    requires TailOk(t) && "//" <= t.path
    ensures "//" <= PrintTail(t)
    ensures PrintTail(t) == "//" + UncoveredText(t.path) + PrintTail(t.(path := UncoveredPath(t.path)))
    ensures ParseRest(PrintTail(t))
            == match ParseAuthority(UncoveredText(t.path))
               case Failure(e) => Failure(e)
               case Success(a) => Success((Some(a), t.(path := UncoveredPath(t.path))))
  {
    var a, t' := UncoveredText(t.path), t.(path := UncoveredPath(t.path));
    UncoveredParts(t.path);
    UncoveredPlain(t.path);
    TailFront(t, "//" + a, UncoveredPath(t.path));
    TailReadsBack(t');
    FirstDelimiter(a, t');
    hide PrintTail, ParseTail, ParseAuthority, UncoveredText, UncoveredPath, NoDelimiters;
    Associate("//", a, PrintTail(t'));
    var s := PrintTail(t);
    assert s[..2] == "//" && s[2..] == a + PrintTail(t');
  }

  /** Cutting the path in two cuts the text in two. */
  lemma TailFront(t: Tail, front: Str, path: Str)
    requires t.path == front + path
    ensures PrintTail(t) == front + PrintTail(t.(path := path))
  {
    var query := if t.hasQuery then "?" + t.query else [];
    var fragment := if t.hasFragment then "#" + t.fragment else [];
    Associate(front, path, query);
    Associate(front, path + query, fragment);
  }

  lemma NormalWithAuthority(scheme: Str, a: Authority, t: Tail)
    requires Lower(scheme) == scheme && HostOk(a.at.host) && Rooted(t.path) && RemoveDots(t.path) == t.path
    ensures Normal(Make(scheme, Some(a), t))
            == Make(scheme, Some(a.(at := NormalPort(scheme, a.at))), if t.path == [] then t.(path := "/") else t)
  {
    hide RemoveDots, Lower;
  }

  function SchemeText(scheme: Str): Str { if scheme == [] then [] else scheme + ":" }

  lemma PrintMade(scheme: Str, a: Authority, t: Tail)
    ensures Print(Make(scheme, Some(a), t)) == SchemeText(scheme) + ("//" + PrintAuthority(a) + PrintTail(t))
  {
    hide PrintAuthority, PrintTail;
    assert TailOf(Make(scheme, Some(a), t)) == t && AuthorityOf(Make(scheme, Some(a), t)) == a;
  }

  /** What an uncovered authority is printed as after normalization, against what it was. */
  lemma UncoveredIff(scheme: Str, t: Tail)
    requires Lower(scheme) == scheme && TailOk(t) && "//" <= t.path
    requires RemoveDots(UncoveredPath(t.path)) == UncoveredPath(t.path)
    ensures UncoveredIsKept(scheme, t.path)
            <==> ParseRest(PrintTail(t)).Success?
                 && var (a, t') := ParseRest(PrintTail(t)).value;
                    Print(Normal(Make(scheme, a, t'))) == SchemeText(scheme) + PrintTail(t)
  {
    hide ParseRest, PrintTail, ParseAuthority, PrintAuthority, Normal, Print, Lower, RemoveDots, AuthorityIsKept, NormalPort,
         HostOk, Make, UncoveredText, UncoveredPath, TailOk, SchemeText;
    var text, t' := UncoveredText(t.path), t.(path := UncoveredPath(t.path));
    UncoveredParses(t);
    UncoveredParts(t.path);
    AuthorityKeptIff(scheme, text);
    if ParseAuthority(text).Success? {
      ParsedAuthorityIsOk(text);
      var a := ParseAuthority(text).value;
      NormalWithAuthority(scheme, a, t');
      var b := a.(at := NormalPort(scheme, a.at));
      PrintMade(scheme, b, if t'.path == [] then t'.(path := "/") else t');
      SameFrontIff(SchemeText(scheme), PrintAuthority(b), text, t');
    }
  }

  /** The added root path shows; otherwise the authority decides. */
  lemma SameFrontIff(front: Str, a: Str, b: Str, t: Tail)
    requires '/' !in b
    ensures front + ("//" + a + PrintTail(if t.path == [] then t.(path := "/") else t)) == front + ("//" + b + PrintTail(t))
            <==> t.path != [] && a == b
  {
    hide PrintTail;
    var tail := PrintTail(t);
    if t.path == [] {
      EmptyIsUnit("/");
      TailFront(t.(path := "/"), "/", []);
      assert t.(path := "/").(path := []) == t;
      SlashShows(front, a, b, tail);
    } else {
      Associate("//", a, tail);
      Associate("//", b, tail);
      CancelPrefix(front, "//" + (a + tail), "//" + (b + tail));
      CancelPrefix("//", a + tail, b + tail);
      CancelSuffix(a, b, tail);
    }
  }

  lemma SlashShows(front: Str, a: Str, b: Str, tail: Str)
    requires '/' !in b
    ensures front + ("//" + a + ("/" + tail)) != front + ("//" + b + tail)
  {
    CancelPrefix(front, "//" + a + ("/" + tail), "//" + b + tail);
    assert "//" + a + ("/" + tail) == "//" + ((a + "/") + tail) && "//" + b + tail == "//" + (b + tail);
    CancelPrefix("//", (a + "/") + tail, b + tail);
    CancelSuffix(a + "/", b, tail);
    assert '/' in a + "/" by {
      assert (a + "/")[|a|] == '/';
    }
  }

  // ----- no dot segments behind what is uncovered -----

  lemma RootedDotFree(path: Str)
    requires Rooted(path)
    ensures DotFree(path) <==> NoDots(Segments(path))
  {
    hide Segments, Split;
    SplitRooted(path);
    assert forall seg :: seg in [[]] + Segments(path) <==> seg == [] || seg in Segments(path);
  }

  lemma UncoveredDotFree(path: Str)
    requires "//" <= path && NoDots(Segments(path))
    ensures DotFree(UncoveredPath(path))
  {
    hide Segments, UncoveredText, UncoveredPath;
    UncoveredParts(path);
    var a, p := UncoveredText(path), UncoveredPath(path);
    SegmentsCons(a, p);
    SegmentsCons([], "/" + a + p);
    assert path == "/" + [] + ("/" + a + p);
    assert forall seg :: seg in Segments(p) ==> seg in [[]] + ([a] + Segments(p));
    RootedDotFree(p);
  }

  lemma SchemeDotFree(path: Str, colon: nat)
    requires SchemeEnd(path) == Some(colon) && DotFree(path) && Rooted(path[colon + 1..])
    ensures NoDots(Segments(path[colon + 1..]))
  {
    SchemeTextIsScheme(path);
    var head := path[..colon + 1];
    assert '/' !in head by {
      assert head == path[..colon] + ":";
    }
    hide Segments, IsScheme;
    FindAfter(head, path[colon + 1..]);
    assert path == head + path[colon + 1..];
    assert forall seg :: seg in Segments(path[colon + 1..]) ==> seg in Split(path);
  }

  // ----- the text that is normalized again -----

  lemma MarkIsNoScheme(s: Str, i: nat)
    requires i < |s| && (s[i] == '?' || s[i] == '#')
    ensures !IsScheme(s)
  {
  }

  /** What comes after the path starts with its mark. */
  lemma PathFirst(t: Tail)
    ensures var s, n := PrintTail(t), |t.path|;
            n <= |s| && s[..n] == t.path && (forall i :: 0 <= i < n ==> s[i] == t.path[i])
            && (n < |s| ==> s[n] == '?' || s[n] == '#')
  {
  }

  /** The scheme test looks at the path alone. */
  lemma SchemeInPath(t: Tail)
    ensures SchemeEnd(PrintTail(t)) == SchemeEnd(t.path)
  {
    hide PrintTail, IsScheme, Find;
    PathFirst(t);
    var s, n := PrintTail(t), |t.path|;
    var colon := Find(s, ':', 0);
    if colon < n {
      assert Find(t.path, ':', 0) == colon && s[..colon] == t.path[..colon];
    } else {
      assert Find(t.path, ':', 0) == n;
      if n < colon {
        assert s[..colon][n] == s[n];
        MarkIsNoScheme(s[..colon], n);
      }
    }
  }

  lemma PlainPrint(n: Url)
    requires !n.hasAuthority
    ensures Print(n) == SchemeText(n.scheme) + PrintTail(TailOf(n))
  {
    hide PrintTail;
    EmptyIsUnit(PrintTail(TailOf(n)));
  }

  /** Normalizing a text whose scheme is known. */
  lemma NormalizeKnown(scheme: Str, rest: Str)
    requires scheme == [] ==> SchemeEnd(rest).None?
    requires scheme != [] ==> IsScheme(scheme)
    ensures Normalize(SchemeText(scheme) + rest)
            == match ParseRest(rest)
               case Failure(e) => Failure(e)
               case Success((a, t)) => Success(Print(Normal(Make(Lower(scheme), a, t))))
  {
    hide SchemeEnd, ParseRest, Print, Normal, Make, IsScheme, Lower;
    if scheme == [] {
      EmptyIsUnit(rest);
      LowerNothing();
    } else {
      SchemeReadsBack(scheme, rest);
    }
  }

  lemma LowerNothing()
    ensures Lower([]) == []
  {
  }

  /** A scheme that is not in lower case does not survive. */
  lemma SchemeShows(u: Url, scheme: Str, rest: Str)
    requires u.scheme == Lower(scheme) && scheme != []
    ensures Print(u) == SchemeText(scheme) + rest ==> Lower(scheme) == scheme
  {
    hide PrintRest, Lower;
    assert u.scheme != [];
    var n := |scheme|;
    assert Print(u)[..n] == Lower(scheme) && (SchemeText(scheme) + rest)[..n] == scheme;
  }

  lemma PathShows(t: Tail, path: Str)
    requires TailOk(t) && '?' !in path && '#' !in path
    ensures PrintTail(t.(path := path)) == PrintTail(t) <==> path == t.path
  {
    hide PrintTail, ParseTail;
    TailReadsBack(t);
    TailReadsBack(t.(path := path));
  }

  /** A rest without two slashes in front is normalized in its path. */
  lemma PlainRestIff(scheme: Str, t: Tail)
    requires scheme != [] && Lower(scheme) == scheme && TailOk(t) && !("//" <= t.path)
    ensures ParseRest(PrintTail(t)) == Success((None, t))
    ensures Print(Normal(Make(scheme, None, t))) == SchemeText(scheme) + PrintTail(t) <==> DotFree(t.path)
  {
    TwoSlashes(t);
    TailReadsBack(t);
    var u := Make(scheme, None, t);
    assert Normal(u) == Make(scheme, None, t.(path := RemoveDots(t.path))) by {
      hide RemoveDots;
      LowerNothing();
    }
    hide PrintTail, ParseTail, RemoveDots, DotFree, Normal, TailOk;
    PlainPrint(Normal(u));
    CancelPrefix(SchemeText(scheme), PrintTail(TailOf(Normal(u))), PrintTail(t));
    RemovalKeepsTail(t.path);
    PathLacks(t);
    PathShows(t, RemoveDots(t.path));
    KeptIffDotFree(t.path);
  }

  lemma PathLacks(t: Tail)
    requires TailOk(t)
    ensures '?' !in t.path && '#' !in t.path
  {
  }

  /** One more normalization of a record without an authority, given its scheme and what follows. */
  lemma RestIff(scheme: Str, t: Tail)
    requires scheme == [] || IsScheme(scheme)
    requires TailOk(t) && (scheme == [] ==> "//" <= t.path)
    requires "//" <= t.path ==> NoDots(Segments(t.path))
    ensures var s := SchemeText(scheme) + PrintTail(t);
            Normalize(s) == Success(s)
            <==> Lower(scheme) == scheme && if "//" <= t.path then UncoveredIsKept(scheme, t.path) else DotFree(t.path)
  {
    hide ParseRest, PrintTail, Print, Normal, Make, UncoveredIsKept, UncoveredPath, DotFree, RemoveDots, Segments, TailOk,
         IsScheme, Lower, SchemeEnd, SchemeText, Normalize, NoDots;
    LowerNothing();
    if scheme == [] {
      UncoveredParses(t);
      SlashIsNoScheme(PrintTail(t));
    } else {
      SchemeIsNonempty(scheme);
    }
    NormalizeKnown(scheme, PrintTail(t));
    LowerTwice(scheme);
    if Lower(scheme) != scheme {
      if ParseRest(PrintTail(t)).Success? {
        var (a, t') := ParseRest(PrintTail(t)).value;
        MadeScheme(Lower(scheme), a, t');
        SchemeShows(Normal(Make(Lower(scheme), a, t')), scheme, PrintTail(t));
      }
    } else if "//" <= t.path {
      UncoveredDotFree(t.path);
      KeptIffDotFree(UncoveredPath(t.path));
      UncoveredIff(scheme, t);
    } else {
      PlainRestIff(scheme, t);
    }
  }

  lemma MadeScheme(scheme: Str, a: Option<Authority>, t: Tail)
    ensures Normal(Make(scheme, a, t)).scheme == Lower(scheme)
  {
    hide RemoveDots, Lower;
  }

  /** A scheme found in the path of a normal record takes the rest of it along. */
  lemma PathSchemeIff(t: Tail, colon: nat)
    requires TailOk(t) && DotFree(t.path) && SchemeEnd(t.path) == Some(colon)
    ensures var scheme, path, s := t.path[..colon], t.path[colon + 1..], PrintTail(t);
            Normalize(s) == Success(s)
            <==> Lower(scheme) == scheme && if "//" <= path then UncoveredIsKept(scheme, path) else DotFree(path)
  {
    var scheme, path := t.path[..colon], t.path[colon + 1..];
    var t' := t.(path := path);
    SchemeTextIsScheme(t.path);
    SchemeIsNonempty(scheme);
    assert t.path == (scheme + ":") + path;
    TailFront(t, scheme + ":", path);
    assert TailOk(t') by {
      assert forall c :: c in path ==> c in t.path;
    }
    if "//" <= path {
      SchemeDotFree(t.path, colon);
    }
    hide PrintTail, DotFree, UncoveredIsKept, TailOk, Segments, NoDots, Normalize, IsScheme, SchemeEnd, Lower;
    RestIff(scheme, t');
  }

  /** For every URL, normalizing twice is normalizing once exactly when the normal record is settled. */
  lemma NormalizeIff(s: Str)
    requires ParseUrl(s).Success?
    ensures Normalize(Normalize(s).value) == Normalize(s) <==> Settled(Normal(ParseUrl(s).value))
  {
    hide ParseUrl, Print, UrlOk, Normal, AtHidden, StrayAtIsKept, UncoveredIsKept, PrintHostPort, TailOk, DotFree, SchemeEnd,
         PrintTail, SchemeText;
    var u := ParseUrl(s).value;
    var n := Normal(u);
    ParsedIsOk(s);
    NormalIsOk(u);
    NormalKeeps(u);
    if n.hasAuthority {
      NormalizeAuthorityIff(s);
    } else {
      PlainNormal(n, u);
      PlainPrint(n);
      SchemeInPath(TailOf(n));
      if "//" <= n.path {
        RootedDotFree(n.path);
        RestIff(n.scheme, TailOf(n));
      } else if n.scheme == [] && SchemeEnd(n.path).Some? {
        PathSchemeIff(TailOf(n), SchemeEnd(n.path).value);
      } else {
        NormalizeTwice(s);
      }
    }
  }

  lemma PlainNormal(n: Url, u: Url)
    requires UrlOk(u) && n == Normal(u) && !n.hasAuthority && UrlOk(n)
    ensures TailOk(TailOf(n)) && DotFree(n.path) && Lower(n.scheme) == n.scheme
    ensures n.scheme == [] || IsScheme(n.scheme)
    ensures n.scheme == [] ==> SchemeText(n.scheme) + PrintTail(TailOf(n)) == PrintTail(TailOf(n))
  {
    hide RemoveDots, DotFree, PrintTail, IsScheme, TailOk;
    OutputIsDotFree(u.path);
    EmptyIsUnit(PrintTail(TailOf(n)));
    LowerTwice(u.scheme);
    LowerNothing();
  }

  /** With at most one `@` in the authority, nothing is stray. */
  lemma OneAtIsHidden(text: Str)
    requires forall i, j :: 0 <= i < j < |text| && text[i] == '@' ==> text[j] != '@'
    ensures ParseAuthority(text).Success? ==> AtHidden(ParseAuthority(text).value)
  {
    hide Lower;
    var at := Find(text, '@', 0);
    var rest := if at < |text| then text[at + 1..] else text;
    assert at < |text| ==> forall j :: 0 <= j < |rest| ==> rest[j] == text[at + 1 + j];
    assert '@' !in rest;
    hide ParseHostPort;
    HostPortWithoutAt(rest);
  }

  lemma HostPortWithoutAt(s: Str)
    requires '@' !in s
    ensures ParseHostPort(s).Success? ==>
              '@' !in ParseHostPort(s).value.host && '@' !in ParseHostPort(s).value.port
  {
    if s != [] && s[0] == '[' {
      var close := Find(s, ']', 0);
      if close < |s| {
        LowerKeeps(s[..close + 1], '@');
      }
    } else {
      LowerKeeps(s[..Find(s, ':', 0)], '@');
    }
  }

  lemma UncoveredParse()
    ensures ParseUrl("//a") == Success(NO_URL.(host := "a", hasAuthority := true))
  {
    hide ParseUrl, ParseAuthority;
    assert "//a" == "//" + "a" + [];
    AuthorityAndPath("a", []);
    PlainHost("a");
    assert Lower("a") == "a";
  }

  lemma CoveredParse()
    ensures ParseUrl("/.//a") == Success(NO_URL.(path := "/.//a"))
  {
    hide ParseAuthority, SchemeEnd;
    SlashIsNoScheme("/.//a");
    assert "/.//a"[1] == '.';
    assert ParseTail("/.//a").path == "/.//a";
  }

  /** With an authority, a stray `@` in front is dropped the second time. */
  lemma StrayAtNotIdempotent()
    ensures Normalize("//@@b") == Success("//@b/") && Normalize("//@b/") == Success("//b/")
  {
    hide ParseUrl, RemoveDots;
    StrayParses();
    RootIsDotFree();
    RootedHead([]);
    LowerNothing();
    assert Lower("@b") == "@b" && Lower("b") == "b";
    var u, v := NO_URL.(host := "@b", hasAuthority := true, path := "/"), NO_URL.(host := "b", hasAuthority := true, path := "/");
    assert Normal(NO_URL.(host := "@b", hasAuthority := true)) == u && Normal(v) == v;
    hide Normal;
    assert Print(u) == "//@b/" && Print(v) == "//b/";
  }

  lemma StrayParses()
    ensures ParseUrl("//@@b") == Success(NO_URL.(host := "@b", hasAuthority := true))
    ensures ParseUrl("//@b/") == Success(NO_URL.(host := "b", hasAuthority := true, path := "/"))
  {
    SecondAt();
    hide ParseUrl, ParseAuthority, Find;
    assert "//@b/" == "//" + ("@" + "b") + "/";
    AuthorityAndPath("@" + "b", "/");
    AtInFront("b");
    assert ParseHostPort("b") == Success(HostPort("b", [])) by {
      assert Find("b", ':', 0) == 1 && "b"[..1] == "b" && Lower("b") == "b";
    }
  }

  /** Without an authority, removing dot segments can uncover one. */
  lemma NormalizeNotIdempotent()
    ensures Normalize("/.//a") == Success("//a") && Normalize("//a") == Success("//a/")
  {
    hide RemoveDots, ParseUrl;
    CoveredParse();
    UncoveredParse();
    DotsUncover();
    RootedHead([]);
    assert Lower([]) == [] && Lower("a") == "a";
    var u, v := NO_URL.(path := "//a"), NO_URL.(host := "a", hasAuthority := true, path := "/");
    assert Normal(NO_URL.(path := "/.//a")) == u && Normal(NO_URL.(host := "a", hasAuthority := true)) == v;
    hide Normal;
    assert Print(u) == "//a" && Print(v) == "//a/";
  }

  lemma UncoveredIsDotFree()
    ensures DotFree("//a")
  {
    FirstSegment("//a", 1);
    FirstSegment("/a", 2);
    hide Segments;
    assert "//a"[..0] == [] && "//a"[1..1] == [] && "//a"[1..] == "/a" && "/a"[1..2] == "a" && "/a"[2..] == [];
    assert Split("//a") == [[], [], "a"];
  }

  lemma DotsUncover()
    ensures RemoveDots("/.//a") == "//a"
  {
    hide RemoveDots, Segments, Fold, Step, Render;
    var o := Stack([], []);
    RootedHead("/.//a");
    assert "/.//a"[1..2] == "." && "/.//a"[2..] == "//a";
    FoldFirst(o, "/.//a", 2);
    StepDot(o);
    UncoveredIsDotFree();
    DotFreeIsKept("//a");
    RootedHead("//a");
  }
}
