/** The rewriting laws of dot-segment removal (section 5.2.4 of RFC 3986), which leave only one function. */
module DotLaws {
  import opened Bytes
  import opened Slashes
  import opened DotSegments

  /** What stands in front of the first slash is no dot segment; so for every path that starts with a slash. */
  predicate PlainFront(path: Str) { !IsDots(path[..Find(path, '/', 0)]) }

  predicate PlainName(x: Str) { '/' !in x && !IsDots(x) }

  ghost predicate KeepsDotFree(f: Str -> Str) { forall path :: DotFree(path) ==> f(path) == path }

  /** Dot segments in front of a relative path vanish. */
  ghost predicate DropsFront(f: Str -> Str) {
    f(".") == [] && f("..") == []
    && (forall q: Str :: f(Below(".", q)) == f(q)) && (forall q: Str :: f(Below("..", q)) == f(q))
  }

  /** A dot inside a path stays where it is: `p/./q` is `p/q`, and `p/.` is `p/`. */
  ghost predicate DotStays(f: Str -> Str) {
    (forall p: Str, q: Str :: PlainFront(p) ==> f(Below(p, Below(".", q))) == f(Below(p, q)))
    && (forall p: Str :: PlainFront(p) ==> f(Below(p, ".")) == f(Below(p, [])))
  }

  /** Two dots take the segment in front of them away: `p/x/../q` is `p/q`, and `p/x/..` is `p/`. */
  ghost predicate DotsGoUp(f: Str -> Str) {
    (forall p: Str, x: Str, q: Str :: PlainFront(p) && PlainName(x) ==>
       f(Below(p, Below(x, Below("..", q)))) == f(Below(p, q)))
    && (forall p: Str, x: Str :: PlainFront(p) && PlainName(x) ==> f(Below(p, Below(x, ".."))) == f(Below(p, [])))
  }

  /** At the root, or after one relative segment, they lead to the root: `x/../q` is `/q`, and `x/..` is `/`. */
  ghost predicate DotsStopAtRoot(f: Str -> Str) {
    (forall x: Str, q: Str :: PlainName(x) ==> f(Below(x, Below("..", q))) == f(Below([], q)))
    && (forall x: Str :: PlainName(x) ==> f(Below(x, "..")) == f(Below([], [])))
  }

  ghost predicate Removes(f: Str -> Str) {
    KeepsDotFree(f) && DropsFront(f) && DotStays(f) && DotsGoUp(f) && DotsStopAtRoot(f)
  }

  // ----- removal obeys the laws -----

  /** The stack after segments none of which is the last. */
  function Walk(o: Stack, segs: seq<Str>): Stack
    decreases |segs|
  {
    if segs == [] then o else Walk(Step(o, segs[0], false), segs[1..])
  }

  lemma {:induction false} FoldAppend(o: Stack, a: seq<Str>, b: seq<Str>)
    requires b != []
    ensures Fold(o, a + b) == Fold(Walk(o, a), b)
    decreases |a|
  {
    hide Step;
    if a == [] {
      EmptyIsUnit(b);
    } else {
      assert (a + b)[0] == a[0] && (a + b)[1..] == a[1..] + b;
      FoldAppend(Step(o, a[0], false), a[1..], b);
    }
  }

  /** The segments of what follows a first segment. */
  function Rest(q: Str): (segs: seq<Str>)
    ensures segs != []
  {
    Segments("/" + q)
  }

  lemma {:induction false} SegmentsJoin(p: Str, q: Str)
    requires Rooted(p)
    ensures Rooted(p + ("/" + q)) && Segments(p + ("/" + q)) == Segments(p) + Rest(q)
    decreases |p|
  {
    hide Segments;
    if p == [] {
      EmptyIsUnit("/" + q);
      NoSegments();
      EmptyIsUnit(Rest(q));
    } else {
      var n := Find(p, '/', 1);
      assert p[n..] == [] || p[n..][0] == '/';
      SegmentsJoin(p[n..], q);
      var all := p + ("/" + q);
      assert all[1..n] == p[1..n] && all[n..] == p[n..] + ("/" + q);
      assert '/' !in p[1..n];
      FirstSegment(p, n);
      FirstSegment(all, n);
      Associate([p[1..n]], Segments(p[n..]), Rest(q));
    }
  }

  lemma NoSegments()
    ensures Segments([]) == []
  {
  }

  /** The stack that a path with a plain front leads to. */
  function Base(p: Str): Stack {
    var n := Find(p, '/', 0);
    Walk(Stack(p[..n], []), Segments(p[n..]))
  }

  lemma RemovalFrom(p: Str, q: Str)
    requires PlainFront(p)
    ensures RemoveDots(Below(p, q)) == Render(Fold(Base(p), Rest(q)))
  {
    hide Segments, Fold, Render, IsDots, Walk, Rest;
    var n, all := Find(p, '/', 0), p + ("/" + q);
    assert Below(p, q) == all;
    assert all[..n] == p[..n] && all[n..] == p[n..] + ("/" + q);
    FrontOfBelow(p, q);
    SegmentsJoin(p[n..], q);
    FoldAppend(Stack(p[..n], []), Segments(p[n..]), Rest(q));
  }

  lemma FrontOfBelow(p: Str, q: Str)
    ensures Find(Below(p, q), '/', 0) == Find(p, '/', 0)
    ensures PlainFront(Below(p, q)) <==> PlainFront(p)
  {
    var n, all := Find(p, '/', 0), Below(p, q);
    assert forall j :: 0 <= j < n ==> all[j] == p[j];
    assert all[n] == '/' && all[..n] == p[..n];
  }

  /** One more segment that is not the last. */
  lemma FoldInFront(o: Stack, x: Str, q: Str)
    requires '/' !in x
    ensures Fold(o, Rest(Below(x, q))) == Fold(Step(o, x, false), Rest(q))
  {
    hide Segments, Step, Below;
    SegmentsCons(x, "/" + q);
    BelowText(x, q);
    assert ([x] + Rest(q))[1..] == Rest(q);
  }

  lemma BelowText(x: Str, q: Str)
    ensures "/" + Below(x, q) == "/" + x + ("/" + q)
  {
  }

  /** A last dot segment is worth a trailing slash. */
  lemma FoldLast(o: Stack)
    ensures Fold(o, Rest(".")) == Fold(o, Rest([])) && Fold(o, Rest("..")) == Fold(Step(o, "..", false), Rest([]))
  {
    hide Fold, Segments;
    LastDots(o, "/.");
    LastDots(o, "/..");
    assert "/" + "." == "/." && "/" + ".." == "/..";
    EmptyIsUnit("/");
  }

  lemma StepBack(o: Stack, x: Str)
    requires !IsDots(x)
    ensures Step(Step(o, x, false), "..", false) == o && Step(o, ".", false) == o
  {
    assert (o.segs + [x])[..|o.segs|] == o.segs;
  }

  lemma DotHolds(p: Str, q: Str)
    requires PlainFront(p)
    ensures RemoveDots(Below(p, Below(".", q))) == RemoveDots(Below(p, q))
    ensures RemoveDots(Below(p, ".")) == RemoveDots(Below(p, []))
  {
    hide *;
    RemovalFrom(p, Below(".", q));
    RemovalFrom(p, q);
    FoldInFront(Base(p), ".", q);
    StepDot(Base(p));
    RemovalFrom(p, ".");
    RemovalFrom(p, []);
    FoldLast(Base(p));
  }

  lemma UpHolds(p: Str, x: Str, q: Str)
    requires PlainFront(p) && PlainName(x)
    ensures RemoveDots(Below(p, Below(x, Below("..", q)))) == RemoveDots(Below(p, q))
    ensures RemoveDots(Below(p, Below(x, ".."))) == RemoveDots(Below(p, []))
  {
    hide Segments, Fold, Render, Step, Base, RemoveDots, IsDots, PlainFront, Rest, Below, Walk;
    var o := Base(p);
    RemovalFrom(p, Below(x, Below("..", q)));
    RemovalFrom(p, q);
    FoldInFront(o, x, Below("..", q));
    FoldInFront(Step(o, x, false), "..", q);
    StepBack(o, x);
    RemovalFrom(p, Below(x, ".."));
    RemovalFrom(p, []);
    FoldInFront(o, x, "..");
    FoldLast(Step(o, x, false));
  }

  lemma OneSegment(x: Str)
    requires PlainName(x)
    ensures PlainFront(x) && Base(x) == Stack(x, []) && Step(Base(x), "..", false) == Stack([], [])
  {
    assert Find(x, '/', 0) == |x| && x[..|x|] == x && x[|x|..] == [];
  }

  lemma StopHolds(x: Str, q: Str)
    requires PlainName(x)
    ensures RemoveDots(Below(x, Below("..", q))) == RemoveDots(Below([], q))
    ensures RemoveDots(Below(x, "..")) == RemoveDots(Below([], []))
  {
    hide *;
    OneSegment(x);
    RemovalFrom(x, Below("..", q));
    FoldInFront(Base(x), "..", q);
    RemovalFrom(x, "..");
    FoldLast(Base(x));
    FromRoot(q);
    FromRoot([]);
  }

  lemma FromRoot(q: Str)
    ensures RemoveDots(Below([], q)) == Render(Fold(Stack([], []), Rest(q)))
  {
    EmptyIsUnit("/");
    RootedHead("/" + q);
  }

  lemma FrontHolds(q: Str)
    ensures RemoveDots(".") == [] && RemoveDots("..") == []
    ensures RemoveDots(Below(".", q)) == RemoveDots(q) && RemoveDots(Below("..", q)) == RemoveDots(q)
  {
    hide RemoveDots;
    DotsInFront(".");
    DotsInFront("..");
    DotsInFront(Below(".", q));
    DotsInFront(Below("..", q));
    assert Below(".", q)[..2] == "./" && Below("..", q)[..3] == "../";
    assert Below(".", q)[2..] == q && Below("..", q)[3..] == q;
  }

  /** Removal obeys every law. */
  lemma RemovalObeys()
    ensures Removes(RemoveDots)
  {
    hide DotFree, RemoveDots, PlainFront, PlainName, Below;
    forall path | DotFree(path) ensures RemoveDots(path) == path { KeptIffDotFree(path); }
    forall q: Str ensures RemoveDots(Below(".", q)) == RemoveDots(q) && RemoveDots(Below("..", q)) == RemoveDots(q) {
      FrontHolds(q);
    }
    FrontHolds([]);
    forall p: Str, q: Str | PlainFront(p) ensures RemoveDots(Below(p, Below(".", q))) == RemoveDots(Below(p, q)) {
      DotHolds(p, q);
    }
    forall p: Str | PlainFront(p) ensures RemoveDots(Below(p, ".")) == RemoveDots(Below(p, [])) { DotHolds(p, []); }
    forall p: Str, x: Str, q: Str | PlainFront(p) && PlainName(x)
      ensures RemoveDots(Below(p, Below(x, Below("..", q)))) == RemoveDots(Below(p, q)) { UpHolds(p, x, q); }
    forall p: Str, x: Str | PlainFront(p) && PlainName(x)
      ensures RemoveDots(Below(p, Below(x, ".."))) == RemoveDots(Below(p, [])) { UpHolds(p, x, []); }
    forall x: Str, q: Str | PlainName(x) ensures RemoveDots(Below(x, Below("..", q))) == RemoveDots(Below([], q)) {
      StopHolds(x, q);
    }
    forall x: Str | PlainName(x) ensures RemoveDots(Below(x, "..")) == RemoveDots(Below([], [])) { StopHolds(x, []); }
  }

  // ----- and nothing else does -----

  /** The path down to segment `x`, below `above` if there is anything above it. */
  function Down(above: Option<Str>, x: Str): Str { if above.None? then x else Below(above.value, x) }

  predicate PlainDown(above: Option<Str>, x: Str) { PlainName(x) && (above.Some? ==> PlainFront(above.value)) }

  lemma DownIsPlain(above: Option<Str>, x: Str)
    requires PlainDown(above, x)
    ensures PlainFront(Down(above, x))
  {
    hide PlainFront;
    if above.None? {
      OneSegment(x);
    } else {
      FrontOfBelow(above.value, x);
    }
  }

  /** The first dot segment of a path, and the segment in front of it. */
  lemma {:induction false} FirstDots(above: Option<Str>, x: Str, rest: Str)
    returns (above': Option<Str>, x': Str, dots: Str, tail: Str)
    requires PlainDown(above, x) && Rooted(rest) && !NoDots(Segments(rest))
    ensures PlainDown(above', x') && IsDots(dots) && Rooted(tail)
    ensures Down(above, x) + rest == Below(Down(above', x'), dots) + tail
    decreases |rest|
  {
    hide PlainFront, IsDots;
    var n := Find(rest, '/', 1);
    var seg, more := rest[1..n], rest[n..];
    assert rest == "/" + seg + more && '/' !in seg;
    SegmentsCons(seg, more);
    assert Down(above, x) + rest == Below(Down(above, x), seg) + more;
    if IsDots(seg) {
      above', x', dots, tail := above, x, seg, more;
    } else {
      DownIsPlain(above, x);
      SomeDots(seg, Segments(more));
      above', x', dots, tail := FirstDots(Some(Down(above, x)), seg, more);
    }
  }

  lemma SomeDots(seg: Str, segs: seq<Str>)
    requires !IsDots(seg) && !NoDots([seg] + segs)
    ensures !NoDots(segs)
  {
  }

  /** The path after its first inner dot segment has been taken out. */
  function Shorter(above: Option<Str>, x: Str, dots: Str, q: Str): Str {
    if dots == "." then Below(Down(above, x), q)
    else if above.None? then Below([], q)
    else Below(above.value, q)
  }

  lemma DotLaw(f: Str -> Str, p: Str, q: Str)
    requires Removes(f) && PlainFront(p)
    ensures f(Below(p, Below(".", q))) == f(Below(p, q)) && f(Below(p, ".")) == f(Below(p, []))
  {
    hide DotFree, PlainFront, DropsFront, DotsGoUp, DotsStopAtRoot, Below;
  }

  lemma UpLaw(f: Str -> Str, p: Str, x: Str, q: Str)
    requires Removes(f) && PlainFront(p) && PlainName(x)
    ensures f(Below(p, Below(x, Below("..", q)))) == f(Below(p, q)) && f(Below(p, Below(x, ".."))) == f(Below(p, []))
  {
    hide DotFree, PlainFront, PlainName, DropsFront, DotStays, DotsStopAtRoot, Below;
  }

  lemma StopLaw(f: Str -> Str, x: Str, q: Str)
    requires Removes(f) && PlainName(x)
    ensures f(Below(x, Below("..", q))) == f(Below([], q)) && f(Below(x, "..")) == f(Below([], []))
  {
    hide DotFree, PlainName, DropsFront, DotStays, DotsGoUp, Below;
  }

  lemma FrontLaw(f: Str -> Str, q: Str)
    requires Removes(f)
    ensures f(".") == [] && f("..") == [] && f(Below(".", q)) == f(q) && f(Below("..", q)) == f(q)
  {
    hide DotFree, DotStays, DotsGoUp, DotsStopAtRoot, Below;
  }

  lemma BelowBelow(p: Str, x: Str, q: Str)
    ensures Below(p, Below(x, q)) == Below(Below(p, x), q) && |Below(p, q)| == |p| + 1 + |q|
  {
  }

  lemma InnerLast(f: Str -> Str, above: Option<Str>, x: Str, dots: Str)
    requires Removes(f) && PlainDown(above, x) && IsDots(dots)
    ensures f(Below(Down(above, x), dots)) == f(Shorter(above, x, dots, []))
    ensures |Shorter(above, x, dots, [])| < |Below(Down(above, x), dots)|
  {
    hide PlainFront, PlainName, Removes, Below;
    DownIsPlain(above, x);
    BelowBelow(Down(above, x), dots, []);
    BelowBelow(Down(above, x), [], dots);
    BelowBelow([], [], []);
    if dots == "." {
      DotLaw(f, Down(above, x), []);
    } else if above.None? {
      StopLaw(f, x, []);
    } else {
      UpLaw(f, above.value, x, []);
      BelowBelow(above.value, x, dots);
      BelowBelow(above.value, [], x);
      BelowBelow(above.value, [], []);
    }
  }

  lemma InnerCase(f: Str -> Str, above: Option<Str>, x: Str, dots: Str, q: Str)
    requires Removes(f) && PlainDown(above, x) && IsDots(dots)
    ensures f(Below(Below(Down(above, x), dots), q)) == f(Shorter(above, x, dots, q))
    ensures |Shorter(above, x, dots, q)| < |Below(Below(Down(above, x), dots), q)|
  {
    hide PlainFront, PlainName, Removes, Below;
    var p := Down(above, x);
    DownIsPlain(above, x);
    BelowBelow(p, dots, q);
    BelowBelow(Below(p, dots), [], q);
    BelowBelow(p, [], dots);
    BelowBelow(p, [], q);
    BelowBelow([], [], q);
    if dots == "." {
      DotLaw(f, p, q);
    } else if above.None? {
      StopLaw(f, x, q);
    } else {
      UpLaw(f, above.value, x, q);
      BelowBelow(above.value, x, Below(dots, q));
      BelowBelow(above.value, [], x);
      BelowBelow(above.value, [], q);
    }
  }

  lemma FrontShape(path: Str)
    requires !PlainFront(path)
    ensures var n := Find(path, '/', 0);
            if n == |path| then path == "." || path == ".."
            else path == Below(".", path[n + 1..]) || path == Below("..", path[n + 1..])
  {
    hide Find, Below;
    var n := Find(path, '/', 0);
    if n < |path| {
      SplitAtSlash(path, n);
    } else {
      TakeAll(path);
    }
  }

  lemma SplitAtSlash(path: Str, n: nat)
    requires n < |path| && path[n] == '/'
    ensures path == Below(path[..n], path[n + 1..])
  {
  }

  lemma FrontCase(f: Str -> Str, path: Str)
    requires Removes(f) && !PlainFront(path)
    ensures var n := Find(path, '/', 0); f(path) == if n == |path| then [] else f(path[n + 1..])
  {
    hide *;
    FrontShape(path);
    var n := Find(path, '/', 0);
    FrontLaw(f, if n == |path| then [] else path[n + 1..]);
  }

  lemma RestHasDots(path: Str)
    requires PlainFront(path) && !DotFree(path)
    ensures var n := Find(path, '/', 0); PlainName(path[..n]) && Rooted(path[n..]) && !NoDots(Segments(path[n..]))
  {
    var n := Find(path, '/', 0);
    SomeDots(path[..n], Segments(path[n..]));
  }

  lemma KeptByBoth(f: Str -> Str, g: Str -> Str, path: Str)
    requires Removes(f) && Removes(g) && DotFree(path)
    ensures f(path) == g(path)
  {
    hide DotFree, DropsFront, DotStays, DotsGoUp, DotsStopAtRoot;
  }

  /** Two functions that obey the laws are the same function. */
  lemma {:induction false} LawsDetermine(f: Str -> Str, g: Str -> Str, path: Str)
    requires Removes(f) && Removes(g)
    ensures f(path) == g(path)
    decreases |path|
  {
    hide IsDots, PlainFront, Segments, NoDots, Removes, DotFree, PlainName, Below, Shorter, Find;
    var n := Find(path, '/', 0);
    if !PlainFront(path) {
      FrontCase(f, path);
      FrontCase(g, path);
      if n < |path| { LawsDetermine(f, g, path[n + 1..]); }
    } else if DotFree(path) {
      KeptByBoth(f, g, path);
    } else {
      TakeAndDrop(path, n);
      RestHasDots(path);
      var above, x, dots, tail := FirstDots(None, path[..n], path[n..]);
      if tail == [] {
        EmptyIsUnit(Below(Down(above, x), dots));
        InnerLast(f, above, x, dots);
        InnerLast(g, above, x, dots);
        LawsDetermine(f, g, Shorter(above, x, dots, []));
      } else {
        TailIsBelow(Below(Down(above, x), dots), tail);
        InnerCase(f, above, x, dots, tail[1..]);
        InnerCase(g, above, x, dots, tail[1..]);
        LawsDetermine(f, g, Shorter(above, x, dots, tail[1..]));
      }
    }
  }

  lemma TailIsBelow(p: Str, tail: Str)
    requires Rooted(tail) && tail != []
    ensures p + tail == Below(p, tail[1..])
  {
    assert tail == "/" + tail[1..];
  }

  /** So removal is the one function that obeys them. */
  lemma OnlyRemovalObeys(f: Str -> Str)
    requires Removes(f)
    ensures forall path: Str :: f(path) == RemoveDots(path)
  {
    hide Removes, RemoveDots;
    RemovalObeys();
    forall path: Str ensures f(path) == RemoveDots(path) { LawsDetermine(f, RemoveDots, path); }
  }
}
