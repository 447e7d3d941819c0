/** Resolving URLs (src/core/url.cpp; section 5.2 of RFC 3986). */
module UrlResolution {
  import opened Bytes
  import opened DotSegments
  import opened DotLaws
  import opened Slashes
  import opened Urls

  // ----- resolution -----

  function MergePaths(base: Url, path: Str): Str {
    if base.hasAuthority && base.path == [] then "/" + path
    else
      var slash := FindLast(base.path, '/');
      if slash < 0 then path else base.path[..slash + 1] + path
  }

  /** The path and query of a reference that has neither scheme nor authority. */
  function RelativeTail(base: Url, ref: Url): Tail {
    if ref.path == [] then
      Tail(base.path, if ref.hasQuery then ref.query else base.query, ref.fragment,
           ref.hasQuery || base.hasQuery, ref.hasFragment)
    else
      var path := if ref.path[0] == '/' then ref.path else MergePaths(base, ref.path);
      Tail(RemoveDots(path), ref.query, ref.fragment, ref.hasQuery, ref.hasFragment)
  }

  /** The target of a parsed reference. */
  function Resolve(base: Url, ref: Url): Url {
    if ref.scheme != [] then ref.(path := RemoveDots(ref.path))
    else if ref.hasAuthority then ref.(scheme := base.scheme, path := RemoveDots(ref.path))
    else
      var t := RelativeTail(base, ref);
      base.(path := t.path, query := t.query, fragment := t.fragment, hasQuery := t.hasQuery, hasFragment := t.hasFragment)
  }

  /** An empty path after an authority is the root. */
  function RootPath(u: Url): Url { if u.hasAuthority && u.path == [] then u.(path := "/") else u }

  /** Text in, text out: removes dot segments once more. */
  function ResolveText(base: Str, reference: Str): Result<Str> {
    var b :- ParseUrl(base);
    var ref :- ParseUrl(reference);
    var target := Resolve(b, ref);
    Success(Print(RootPath(target.(path := RemoveDots(target.path)))))
  }

  // ----- the code -----

  /** `resolve_url` on a parsed base. */
  method ResolveUrl(base: Url, reference: Str) returns (r: Result<Url>)
    ensures r == match ParseUrl(reference) case Failure(e) => Failure(e) case Success(ref) => Success(Resolve(base, ref))
  {
    hide ParseUrl, RemoveDots, MergePaths;
    var ref :- Parse(reference);
    var target := NO_URL;
    if ref.scheme != [] {
      target := ref;
      var path := RemoveDotSegments(ref.path);
      target := target.(path := path);
      return Success(target);
    }
    target := target.(scheme := base.scheme);
    if ref.hasAuthority {
      var path := RemoveDotSegments(ref.path);
      target := target.(hasAuthority := true, userinfo := ref.userinfo, host := ref.host, port := ref.port, path := path,
                        query := ref.query, hasQuery := ref.hasQuery);
    } else {
      target := target.(hasAuthority := base.hasAuthority, userinfo := base.userinfo, host := base.host, port := base.port);
      if ref.path == [] {
        target := target.(path := base.path, query := if ref.hasQuery then ref.query else base.query,
                          hasQuery := if ref.hasQuery then true else base.hasQuery);
      } else {
        var path;
        if ref.path[0] == '/' {
          path := RemoveDotSegments(ref.path);
        } else {
          path := RemoveDotSegments(MergePaths(base, ref.path));
        }
        target := target.(path := path, query := ref.query, hasQuery := ref.hasQuery);
      }
    }
    target := target.(fragment := ref.fragment, hasFragment := ref.hasFragment);
    return Success(target);
  }

  /** `resolve_url` on texts. */
  method ResolveTexts(base: Str, reference: Str) returns (r: Result<Str>)
    ensures r == ResolveText(base, reference)
  {
    hide ParseUrl, RemoveDots, Resolve, Print;
    var baseUrl :- Parse(base);
    var target :- ResolveUrl(baseUrl, reference);
    var path := RemoveDotSegments(target.path);
    var normalized := target.(path := path);
    if normalized.hasAuthority && normalized.path == [] {
      normalized := normalized.(path := "/");
    }
    var text := ToString(normalized);
    return Success(text);
  }

  // ----- the second removal -----

  /** The text resolver's second removal changes nothing exactly when the reference brings a scheme, an authority or a
      path, or the base path has no dot segments. */
  lemma SecondRemovalIff(base: Url, ref: Url)
    ensures RemoveDots(Resolve(base, ref).path) == Resolve(base, ref).path
            <==> ref.scheme != [] || ref.hasAuthority || ref.path != [] || DotFree(base.path)
  {
    hide RemoveDots, DotFree, MergePaths;
    Idempotent(ref.path);
    Idempotent(MergePaths(base, ref.path));
    KeptIffDotFree(base.path);
  }

  /** A query alone leaves the dot segments of the base path for the second removal. */
  lemma SecondRemovalNeeded()
    ensures ParseUrl("//h/a/../b").Success? && ParseUrl("?q").Success?
    ensures var target := Resolve(ParseUrl("//h/a/../b").value, ParseUrl("?q").value);
            target.path == "/a/../b" && RemoveDots(target.path) != target.path
  {
    hide ParseUrl, RemoveDots, DotFree;
    DotsInBase();
    QueryAlone();
    SecondRemovalIff(ParseUrl("//h/a/../b").value, ParseUrl("?q").value);
    DotsInside();
  }

  lemma DotsInside()
    ensures !DotFree("/a/../b")
  {
    hide Segments;
    var last: Str := "/b";
    SegmentsCons("..", last);
    SegmentsCons("a", "/" + ".." + last);
    var path: Str := "/a/../b";
    assert path == "/" + "a" + ("/" + ".." + last);
    SplitRooted(path);
    assert [[]] + (["a"] + ([".."] + Segments(last))) == [[], "a", ".."] + Segments(last);
    assert Split(path)[2] == ".." && Split(path)[2] in Split(path);
  }

  lemma DotsInBase()
    ensures ParseUrl("//h/a/../b") == Success(NO_URL.(host := "h", hasAuthority := true, path := "/a/../b"))
  {
    hide ParseUrl, ParseAuthority;
    assert "//h/a/../b" == "//" + "h" + "/a/../b";
    AuthorityAndPath("h", "/a/../b");
    PlainHost("h");
    assert Lower("h") == "h";
  }

  lemma QueryAlone()
    ensures ParseUrl("?q") == Success(NO_URL.(query := "q", hasQuery := true))
  {
    assert SchemeEnd("?q") == None;
    assert Find("?q", '#', 0) == 2 && "?q"[..2] == "?q" && Find("?q", '?', 0) == 0 && "?q"[..0] == [] && "?q"[1..] == "q";
  }

  // ----- well-formed records stay well-formed -----

  lemma RemovalKeepsTail(path: Str)
    ensures forall c :: c !in path ==> c !in RemoveDots(path)
    ensures Rooted(path) ==> Rooted(RemoveDots(path))
  {
    hide RemoveDots;
    var bytes := set c | c in path;
    OutputWithin(path, bytes);
    RootedHead([]);
    if path != [] && path[0] == '/' {
      StaysAbsolute(path);
    }
  }

  lemma MergeKeepsTail(base: Url, path: Str)
    ensures forall c :: c != '/' && c !in base.path && c !in path ==> c !in MergePaths(base, path)
    ensures base.hasAuthority && Rooted(base.path) ==> Rooted(MergePaths(base, path))
  {
  }

  lemma RelativeTailIsOk(base: Url, ref: Url)
    requires TailOk(TailOf(base)) && TailOk(TailOf(ref))
    ensures TailOk(RelativeTail(base, ref))
    ensures base.hasAuthority && Rooted(base.path) ==> Rooted(RelativeTail(base, ref).path)
  {
    hide RemoveDots, MergePaths;
    MergeKeepsTail(base, ref.path);
    RemovalKeepsTail(ref.path);
    RemovalKeepsTail(MergePaths(base, ref.path));
  }

  lemma ResolvedIsOk(base: Url, ref: Url)
    requires UrlOk(base) && UrlOk(ref)
    ensures UrlOk(Resolve(base, ref))
  {
    hide RemoveDots, RelativeTail, AuthorityOk, NoDelimiters, PrintAuthority, IsScheme, Lower;
    RemovalKeepsTail(ref.path);
    RelativeTailIsOk(base, ref);
  }

  /** A resolved URL is what its text parses to exactly when that text is unambiguous. */
  lemma ResolvedReadsBack(base: Str, reference: Str)
    requires ParseUrl(base).Success? && ParseUrl(reference).Success?
    ensures var target := Resolve(ParseUrl(base).value, ParseUrl(reference).value);
            ParseUrl(Print(target)) == Success(target) <==> Unambiguous(target)
  {
    hide ParseUrl, Print, Resolve, UrlOk, Unambiguous;
    ParsedIsOk(base);
    ParsedIsOk(reference);
    ResolvedIsOk(ParseUrl(base).value, ParseUrl(reference).value);
    ReadsBackIff(Resolve(ParseUrl(base).value, ParseUrl(reference).value));
  }

  /** An absolute URL without dot segments resolves to itself against any base. */
  lemma AbsoluteResolvesToItself(base: Url, u: Url)
    requires UrlOk(u) && Unambiguous(u) && u.scheme != [] && DotFree(u.path)
    ensures ParseUrl(Print(u)) == Success(u) && Resolve(base, u) == u
  {
    hide ParseUrl, Print, UrlOk, Unambiguous, DotFree, RemoveDots;
    ReadsBackIff(u);
    KeptIffDotFree(u.path);
  }

  /**
   * Each part of the target (section 5.2.2 of RFC 3986): what the reference has before its path is its own and everything
   * behind it as well; what it does not have comes from the base. The fragment is always that of the reference.
   */
  lemma TargetParts(base: Url, ref: Url)
    ensures var t, absolute, rooted := Resolve(base, ref), ref.scheme != [], ref.scheme != [] || ref.hasAuthority;
            && t.scheme == (if absolute then ref.scheme else base.scheme)
            && (t.hasAuthority, AuthorityOf(t)) == (if rooted then (ref.hasAuthority, AuthorityOf(ref))
                                                    else (base.hasAuthority, AuthorityOf(base)))
            && (t.query, t.hasQuery) == (if rooted || ref.path != [] || ref.hasQuery then (ref.query, ref.hasQuery)
                                         else (base.query, base.hasQuery))
            && (t.fragment, t.hasFragment) == (ref.fragment, ref.hasFragment)
            && (rooted || (ref.path != [] && ref.path[0] == '/') ==> t.path == RemoveDots(ref.path))
            && (!rooted && ref.path == [] ==> t.path == base.path)
  {
    hide RemoveDots;
  }

  /**
   * A relative path stands behind the base path up to its last slash, or alone where there is none; against an authority
   * without a path it is rooted.
   */
  lemma PathIsMerged(base: Url, ref: Url, directory: Str, last: Str)
    requires ref.scheme == [] && !ref.hasAuthority && ref.path != [] && ref.path[0] != '/' && '/' !in last
    ensures base.path == directory + "/" + last ==> Resolve(base, ref).path == RemoveDots(directory + "/" + ref.path)
    ensures '/' !in base.path ==>
              Resolve(base, ref).path
              == RemoveDots(if base.hasAuthority && base.path == [] then "/" + ref.path else ref.path)
  {
    hide RemoveDots, FindLast;
    CutAfterSlash(directory, last, ref.path);
    Associate(directory, "/", ref.path);
  }

  // ----- relative references are walked from the directory of the base -----

  /** The segments of the base path but the last. */
  function Directory(base: Url): seq<Str>
    requires Rooted(base.path)
  {
    var segs := Segments(base.path);
    if segs == [] then [] else segs[..|segs| - 1]
  }

  lemma MergeIsAppend(base: Url, path: Str)
    requires Rooted(base.path) && (base.hasAuthority || base.path != [])
    ensures MergePaths(base, path) == Slashed(Directory(base)) + ("/" + path)
  {
    if base.path == [] {
      EmptyIsUnit("/" + path);
    } else {
      var segs := Segments(base.path);
      var before, last := Slashed(segs[..|segs| - 1]), segs[|segs| - 1];
      SlashedSegments(base.path);
      assert last in segs;
      hide Segments, Slashed;
      CutAfterSlash(before, last, path);
    }
  }

  lemma CutAfterSlash(before: Str, last: Str, path: Str)
    requires '/' !in last
    ensures var s := before + "/" + last;
            var slash := FindLast(s, '/');
            slash >= 0 && s[..slash + 1] + path == before + ("/" + path)
  {
    hide FindLast;
    LastSlashAfter(before, last);
    var s := before + "/" + last;
    assert s[..|before| + 1] == before + "/";
    Associate(before, "/", path);
  }

  /**
   * A relative path is walked from the directory of the base: the target is what removal, which `DotLaws` pins down, makes
   * of the base's segments but the last, and the reference behind them. Against a base with neither authority nor path
   * the reference stands alone.
   */
  lemma WalkedFromBase(base: Url, ref: Url)
    requires Rooted(base.path)
    requires ref.scheme == [] && !ref.hasAuthority && ref.path != [] && ref.path[0] != '/'
    ensures Resolve(base, ref).path
            == RemoveDots(if base.hasAuthority || base.path != [] then Below(Slashed(Directory(base)), ref.path)
                          else ref.path)
  {
    hide RemoveDots, Slashed, Directory;
    if base.hasAuthority || base.path != [] {
      MergeIsAppend(base, ref.path);
      Associate(Slashed(Directory(base)), "/", ref.path);
    }
  }

  /** Two dots in front of a reference go up from the directory of the base, though not above the root. */
  lemma DotsLeadUp(base: Url, ref: Url, q: Str)
    requires Rooted(base.path) && (base.hasAuthority || base.path != [])
    requires ref.scheme == [] && !ref.hasAuthority && ref.path == Below("..", q)
    ensures var dirs := Directory(base);
            dirs == [] ==> Resolve(base, ref).path == RemoveDots(Below([], q))
    ensures var dirs := Directory(base);
            dirs != [] && !IsDots(dirs[|dirs| - 1]) ==>
              Resolve(base, ref).path == RemoveDots(Below(Slashed(dirs[..|dirs| - 1]), q))
  {
    hide RemoveDots, Directory, IsDots, Slashed;
    var dirs := Directory(base);
    DirectoryHasNoSlash(base);
    WalkedFromBase(base, ref);
    SlashedIsPlain([]);
    if dirs == [] {
      StopHolds([], q);
    } else if !IsDots(dirs[|dirs| - 1]) {
      var up, last := dirs[..|dirs| - 1], dirs[|dirs| - 1];
      assert last in dirs;
      SlashedIsPlain(up);
      UpHolds(Slashed(up), last, q);
      Unsnoc(dirs);
      SlashedSnoc(up, last);
      BelowBelow(Slashed(up), last, Below("..", q));
    }
  }

  lemma SlashedIsPlain(dirs: seq<Str>)
    ensures PlainFront(Slashed(dirs)) && !IsDots([])
  {
    var p := Slashed(dirs);
    assert p != [] ==> p[0] == '/' && Find(p, '/', 0) == 0;
    assert p[..0] == [];
  }

  lemma DirectoryHasNoSlash(base: Url)
    requires Rooted(base.path)
    ensures NoSlash(Directory(base))
  {
  }
}
