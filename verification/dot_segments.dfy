/** Dot-segment removal (`remove_dot_segments` in src/core/url.cpp; section 5.2.4 of RFC 3986). */
module DotSegments {
  import opened Bytes
  import opened Slashes

  /** The slash-separated segments of a rooted path. */
  function Segments(path: Str): (segs: seq<Str>)
    requires Rooted(path)
    ensures NoSlash(segs)
    ensures segs == [] <==> path == []
  {
    if path == [] then []
    else
      var n := Find(path, '/', 1);
      [path[1..n]] + Segments(path[n..])
  }

  // ----- the stack -----

  /** A first segment that no slash precedes, and the segments after it. */
  datatype Stack = Stack(head: Str, segs: seq<Str>)

  function Render(o: Stack): Str { o.head + Slashed(o.segs) }

  function Push(o: Stack, seg: Str): Stack { o.(segs := o.segs + [seg]) }

  /** Popping the first segment leaves nothing; popping nothing changes nothing. */
  function Pop(o: Stack): Stack {
    if o.segs == [] then Stack([], []) else o.(segs := o.segs[..|o.segs| - 1])
  }

  predicate IsDots(seg: Str) { seg == "." || seg == ".." }

  /** One segment; a dot segment that comes last leaves a trailing slash. */
  function Step(o: Stack, seg: Str, last: bool): Stack {
    var p := if seg == ".." then Pop(o) else o;
    if IsDots(seg) then if last then Push(p, []) else p else Push(p, seg)
  }

  function Fold(o: Stack, segs: seq<Str>): Stack
    decreases |segs|
  {
    if segs == [] then o else Fold(Step(o, segs[0], |segs| == 1), segs[1..])
  }

  /** Dot segments in front of a relative path vanish; the rest is folded onto the stack. */
  function RemoveDots(path: Str): Str
    decreases |path|
  {
    var n := Find(path, '/', 0);
    if !IsDots(path[..n]) then Render(Fold(Stack(path[..n], []), Segments(path[n..])))
    else if n == |path| then []
    else RemoveDots(path[n + 1..])
  }

  // ----- the code, which rewrites strings -----

  /** What erasing from the last slash does to the output. */
  function CutLast(output: Str): Str {
    var slash := FindLast(output, '/');
    if slash < 0 then [] else output[..slash]
  }

  lemma CutLastPops(o: Stack)
    requires '/' !in o.head && NoSlash(o.segs)
    ensures CutLast(Render(o)) == Render(Pop(o))
    ensures '/' !in Pop(o).head && NoSlash(Pop(o).segs)
  {
    if o.segs == [] {
      EmptyIsUnit(o.head);
    } else {
      var k := |o.segs| - 1;
      var before, last := o.head + Slashed(o.segs[..k]), o.segs[k];
      assert last in o.segs;
      Associate(o.head, Slashed(o.segs[..k]) + "/", last);
      Associate(o.head, Slashed(o.segs[..k]), "/");
      LastSlashAfter(before, last);
    }
  }

  lemma RenderPush(o: Stack, seg: Str)
    ensures Render(Push(o, seg)) == Render(o) + ("/" + seg)
  {
    assert (o.segs + [seg])[..|o.segs|] == o.segs;
    Associate(o.head, Slashed(o.segs), "/" + seg);
  }

  /** Taking the first segment off a rooted path. */
  lemma FirstSegment(path: Str, n: nat)
    requires Rooted(path) && path != [] && 1 <= n <= |path|
    requires '/' !in path[1..n] && Rooted(path[n..])
    ensures Segments(path) == [path[1..n]] + Segments(path[n..])
  {
    forall j | 1 <= j < n ensures path[j] != '/' {
      assert path[j] == path[1..n][j - 1];
    }
    assert n < |path| ==> path[n] == path[n..][0];
    assert Find(path, '/', 1) == n;
  }

  lemma FoldFirst(o: Stack, path: Str, n: nat)
    requires Rooted(path) && path != [] && 1 <= n <= |path|
    requires '/' !in path[1..n] && Rooted(path[n..])
    ensures Fold(o, Segments(path)) == Fold(Step(o, path[1..n], n == |path|), Segments(path[n..]))
  {
    FirstSegment(path, n);
    hide Segments, Step;
    assert ([path[1..n]] + Segments(path[n..]))[1..] == Segments(path[n..]);
  }

  /** A last dot segment is worth a trailing slash. */
  lemma LastDots(o: Stack, path: Str)
    requires path == "/." || path == "/.."
    ensures Fold(o, Segments(path)) == Fold(if path == "/." then o else Pop(o), Segments("/"))
  {
    FoldFirst(o, path, |path|);
    var p := if path == "/." then o else Pop(o);
    FoldFirst(p, "/", 1);
    hide Fold, Pop;
    assert path[1..|path|] == if path == "/." then "." else "..";
    assert "/"[1..1] == [];
  }

  lemma DotsInFront(path: Str)
    ensures "../" <= path ==> RemoveDots(path) == RemoveDots(path[3..])
    ensures "./" <= path ==> RemoveDots(path) == RemoveDots(path[2..])
    ensures IsDots(path) ==> RemoveDots(path) == []
  {
    hide RemoveDots;
    if "../" <= path {
      HeadOf(path, 2);
    } else if "./" <= path {
      HeadOf(path, 1);
    } else if IsDots(path) {
      HeadOf(path, |path|);
    }
  }

  lemma HeadOf(path: Str, n: nat)
    requires n <= |path| && '/' !in path[..n] && (n < |path| ==> path[n] == '/')
    ensures Find(path, '/', 0) == n
    ensures RemoveDots(path)
            == if !IsDots(path[..n]) then Render(Fold(Stack(path[..n], []), Segments(path[n..])))
               else if n == |path| then []
               else RemoveDots(path[n + 1..])
  {
    forall j | 0 <= j < n ensures path[j] != '/' {
      assert path[j] == path[..n][j];
    }
    hide Render, Fold, Segments, IsDots;
  }

  lemma RootedHead(path: Str)
    requires Rooted(path)
    ensures RemoveDots(path) == Render(Fold(Stack([], []), Segments(path)))
    ensures path == [] ==> RemoveDots(path) == []
  {
    HeadOf(path, 0);
    hide RemoveDots, Segments;
    assert path[..0] == [] && path[0..] == path;
  }

  lemma NotDots(path: Str, n: nat)
    requires n <= |path| && (n < |path| ==> path[n] == '/')
    requires !("../" <= path) && !("./" <= path) && !IsDots(path)
    ensures !IsDots(path[..n])
  {
    assert n < |path| ==> path[..n + 1] == path[..n] + "/";
    assert n == |path| ==> path[..n] == path;
  }

  /** The first segment of a relative path, when no dot segment is in front. */
  lemma PlainHead(path: Str, n: nat)
    requires path != [] && path[0] != '/' && n == Find(path, '/', 0)
    requires !("../" <= path) && !("./" <= path) && !IsDots(path)
    ensures RemoveDots(path) == Render(Fold(Stack(path[..n], []), Segments(path[n..])))
    ensures '/' !in path[..n] && Rooted(path[n..])
  {
    hide RemoveDots, Render, Fold, Segments, IsDots;
    NotDots(path, n);
    HeadOf(path, n);
  }

  /** `remove_dot_segments`. */
  method RemoveDotSegments(input: Str) returns (output: Str)
    ensures output == RemoveDots(input)
  {
    hide Step, Pop, Render, CutLast, Segments, Fold, RemoveDots;
    output := [];
    var path: Str := input;
    ghost var o := Stack([], []);
    ghost var started := false;
    EmptyRender();
    while path != []
      invariant started ==> Rooted(path)
      invariant output == Render(o) && '/' !in o.head && NoSlash(o.segs)
      invariant !started ==> o == Stack([], []) && RemoveDots(path) == RemoveDots(input)
      invariant started ==> Render(Fold(o, Segments(path))) == RemoveDots(input)
      decreases |path|
    {
      if path[0] == '/' {
        RootedHead(path);
        started := true;
      }
      DotsInFront(path);
      if "../" <= path {
        path := path[3..];
      } else if "./" <= path {
        path := path[2..];
      } else if "/./" <= path {
        FoldFirst(o, path, 2);
        assert path[1..2] == ".";
        StepDot(o);
        path := path[2..];
      } else if path == "/." {
        LastDots(o, path);
        path := "/";
      } else if "/../" <= path {
        FoldFirst(o, path, 3);
        assert path[1..3] == "..";
        StepDotDot(o);
        CutLastPops(o);
        path := path[3..];
        output, o := CutLast(output), Pop(o);
      } else if path == "/.." {
        LastDots(o, path);
        CutLastPops(o);
        path := "/";
        output, o := CutLast(output), Pop(o);
      } else if path == "." || path == ".." {
        RootedHead([]);
        path := [];
      } else {
        var start := if path[0] == '/' then 1 else 0;
        var next := Find(path, '/', start);
        if start == 1 {
          PlainSegment(o, path, next);
          o := Push(o, path[1..next]);
        } else {
          PlainHead(path, next);
          EmptySlashes(path[..next]);
          o := Stack(path[..next], []);
          started := true;
        }
        output := output + path[..next];
        path := path[next..];
      }
    }
    RootedHead(path);
    FoldNothing(o);
  }

  lemma FoldNothing(o: Stack)
    ensures Fold(o, Segments([])) == o
  {
  }

  /** Moving a segment that is no dot segment from the path to the output. */
  lemma PlainSegment(o: Stack, path: Str, next: nat)
    requires path != [] && path[0] == '/' && next == Find(path, '/', 1)
    requires !("/./" <= path) && path != "/." && !("/../" <= path) && path != "/.."
    ensures 1 <= next && '/' !in path[1..next] && Rooted(path[next..])
    ensures Fold(o, Segments(path)) == Fold(Push(o, path[1..next]), Segments(path[next..]))
    ensures Render(Push(o, path[1..next])) == Render(o) + path[..next]
  {
    hide Render, Fold, Segments, Step;
    forall j | 0 <= j < next - 1 ensures path[1..next][j] != '/' {
      assert path[1..next][j] == path[j + 1];
    }
    FoldFirst(o, path, next);
    assert next < |path| ==> path[..next + 1] == "/" + path[1..next] + "/";
    assert path[..next] == "/" + path[1..next];
    TakeAll(path);
    StepPlain(o, path[1..next], next == |path|);
    RenderPush(o, path[1..next]);
  }

  lemma EmptyRender()
    ensures Render(Stack([], [])) == []
  {
  }

  lemma EmptySlashes(head: Str)
    ensures Render(Stack(head, [])) == head && [] + head == head
  {
  }

  lemma StepDot(o: Stack)
    ensures Step(o, ".", false) == o
  {
  }

  lemma StepDotDot(o: Stack)
    ensures Step(o, "..", false) == Pop(o)
  {
  }

  lemma StepPlain(o: Stack, seg: Str, last: bool)
    requires !IsDots(seg)
    ensures Step(o, seg, last) == Push(o, seg)
  {
  }

  // ----- what the result looks like -----

  /** All segments of a path: the one no slash precedes, then the others. */
  function Split(path: Str): (segs: seq<Str>)
    ensures NoSlash(segs) && segs != []
  {
    var n := Find(path, '/', 0);
    assert '/' !in path[..n];
    [path[..n]] + Segments(path[n..])
  }

  lemma SplitRooted(path: Str)
    requires Rooted(path)
    ensures Split(path) == [[]] + Segments(path)
  {
    hide Segments;
    assert Find(path, '/', 0) == 0 && path[..0] == [] && path[0..] == path;
  }

  predicate NoDots(segs: seq<Str>) { forall seg :: seg in segs ==> !IsDots(seg) }

  predicate DotFree(path: Str) { NoDots(Split(path)) }

  lemma SegmentsCons(seg: Str, path: Str)
    requires '/' !in seg && Rooted(path)
    ensures Segments("/" + seg + path) == [seg] + Segments(path)
  {
    hide Segments;
    var all := "/" + seg + path;
    assert all[1..1 + |seg|] == seg && all[1 + |seg|..] == path;
    FirstSegment(all, 1 + |seg|);
  }

  lemma {:induction false} SegmentsOfSlashed(segs: seq<Str>)
    requires NoSlash(segs)
    ensures Segments(Slashed(segs)) == segs
  {
    if segs != [] {
      var seg, rest := segs[0], segs[1..];
      assert segs == [seg] + rest && seg in segs;
      SlashedCons(seg, rest);
      SegmentsOfSlashed(rest);
      hide Slashed, Segments;
      SegmentsCons(seg, Slashed(rest));
    }
  }

  lemma {:induction false} SlashedSegments(path: Str)
    requires Rooted(path)
    ensures Slashed(Segments(path)) == path
  {
    if path != [] {
      var n := Find(path, '/', 1);
      SlashedSegments(path[n..]);
      SlashedCons(path[1..n], Segments(path[n..]));
      assert path == "/" + path[1..n] + path[n..];
    }
  }

  ghost predicate Clean(o: Stack) { '/' !in o.head && NoSlash(o.segs) && !IsDots(o.head) && NoDots(o.segs) }

  lemma RenderSplits(o: Stack)
    requires '/' !in o.head && NoSlash(o.segs)
    ensures Split(Render(o)) == [o.head] + o.segs
  {
    var n := |o.head|;
    SegmentsOfSlashed(o.segs);
    hide Slashed, Segments;
    assert Render(o)[..n] == o.head && Render(o)[n..] == Slashed(o.segs);
    FindAfter(o.head, Slashed(o.segs));
  }

  lemma FindAfter(head: Str, path: Str)
    requires '/' !in head && Rooted(path)
    ensures Find(head + path, '/', 0) == |head|
  {
    var s := head + path;
    assert forall j :: 0 <= j < |head| ==> s[j] == head[j];
    assert path != [] ==> s[|head|] == '/';
  }

  lemma StepClean(o: Stack, seg: Str, last: bool)
    requires Clean(o) && '/' !in seg
    ensures Clean(Step(o, seg, last))
    ensures last ==> Step(o, seg, last).segs != []
  {
  }

  lemma {:induction false} FoldClean(o: Stack, segs: seq<Str>)
    requires Clean(o) && NoSlash(segs)
    ensures Clean(Fold(o, segs))
    ensures segs != [] ==> Fold(o, segs).segs != []
    decreases |segs|
  {
    hide Step, Clean;
    if segs != [] {
      assert segs[0] in segs;
      StepClean(o, segs[0], |segs| == 1);
      FoldClean(Step(o, segs[0], |segs| == 1), segs[1..]);
    }
  }

  lemma {:induction false} FoldPlain(o: Stack, segs: seq<Str>)
    requires NoDots(segs)
    ensures Fold(o, segs) == o.(segs := o.segs + segs)
    decreases |segs|
  {
    if segs == [] {
      assert o.segs + [] == o.segs;
    } else {
      assert segs[0] in segs;
      StepPlain(o, segs[0], |segs| == 1);
      FoldPlain(Push(o, segs[0]), segs[1..]);
      assert o.segs + [segs[0]] + segs[1..] == o.segs + segs;
    }
  }

  lemma {:induction false} OutputIsDotFree(path: Str)
    ensures DotFree(RemoveDots(path))
    decreases |path|
  {
    var n := Find(path, '/', 0);
    HeadOf(path, n);
    if !IsDots(path[..n]) {
      var o := Stack(path[..n], []);
      FoldClean(o, Segments(path[n..]));
      RenderSplits(Fold(o, Segments(path[n..])));
    } else if n < |path| {
      OutputIsDotFree(path[n + 1..]);
    } else {
      assert Split([]) == [[]];
    }
  }

  lemma DotFreeIsKept(path: Str)
    requires DotFree(path)
    ensures RemoveDots(path) == path
  {
    hide Segments, Slashed, Fold, RemoveDots;
    var n := Find(path, '/', 0);
    var head, rest := path[..n], Segments(path[n..]);
    HeadOf(path, n);
    assert Split(path) == [head] + rest;
    assert head in Split(path) && forall seg :: seg in rest ==> seg in Split(path);
    FoldPlain(Stack(head, []), rest);
    assert [] + rest == rest;
    SlashedSegments(path[n..]);
  }

  /** The paths that removal leaves alone are exactly those without dot segments. */
  lemma KeptIffDotFree(path: Str)
    ensures RemoveDots(path) == path <==> DotFree(path)
  {
    hide RemoveDots, DotFree;
    OutputIsDotFree(path);
    if DotFree(path) {
      DotFreeIsKept(path);
    }
  }

  lemma Idempotent(path: Str)
    ensures RemoveDots(RemoveDots(path)) == RemoveDots(path)
  {
    hide RemoveDots, DotFree;
    OutputIsDotFree(path);
    DotFreeIsKept(RemoveDots(path));
  }

  lemma StaysAbsolute(path: Str)
    requires path != [] && path[0] == '/'
    ensures RemoveDots(path) != [] && RemoveDots(path)[0] == '/'
  {
    hide RemoveDots;
    RootedHead(path);
    FoldClean(Stack([], []), Segments(path));
    FoldEmptyHead(Stack([], []), Segments(path));
  }

  lemma {:induction false} FoldEmptyHead(o: Stack, segs: seq<Str>)
    requires o.head == []
    ensures Fold(o, segs).head == []
    decreases |segs|
  {
    if segs != [] {
      FoldEmptyHead(Step(o, segs[0], |segs| == 1), segs[1..]);
    }
  }

  // ----- removal makes nothing up -----

  ghost predicate Within(s: Str, bytes: set<Byte>) { forall c :: c in s ==> c in bytes }

  ghost predicate AllWithin(segs: seq<Str>, bytes: set<Byte>) { forall seg :: seg in segs ==> Within(seg, bytes) }

  lemma {:induction false} SlashedWithin(segs: seq<Str>, bytes: set<Byte>)
    requires AllWithin(segs, bytes) && (segs != [] ==> '/' in bytes)
    ensures Within(Slashed(segs), bytes)
  {
    if segs != [] {
      SlashedWithin(segs[..|segs| - 1], bytes);
      assert segs[|segs| - 1] in segs;
    }
  }

  lemma {:induction false} SegmentsWithin(path: Str, bytes: set<Byte>)
    requires Rooted(path) && Within(path, bytes)
    ensures AllWithin(Segments(path), bytes)
  {
    if path != [] {
      SegmentsWithin(path[Find(path, '/', 1)..], bytes);
    }
  }

  lemma {:induction false} FoldWithin(o: Stack, segs: seq<Str>, bytes: set<Byte>)
    requires Within(o.head, bytes) && AllWithin(o.segs, bytes) && AllWithin(segs, bytes)
    ensures Within(Fold(o, segs).head, bytes) && AllWithin(Fold(o, segs).segs, bytes)
    decreases |segs|
  {
    if segs != [] {
      assert segs[0] in segs;
      FoldWithin(Step(o, segs[0], |segs| == 1), segs[1..], bytes);
    }
  }

  /** Every byte of the result was in the path. */
  lemma {:induction false} OutputWithin(path: Str, bytes: set<Byte>)
    requires Within(path, bytes)
    ensures Within(RemoveDots(path), bytes)
    decreases |path|
  {
    var n := Find(path, '/', 0);
    HeadOf(path, n);
    if !IsDots(path[..n]) {
      var o := Stack(path[..n], []);
      SegmentsWithin(path[n..], bytes);
      FoldWithin(o, Segments(path[n..]), bytes);
      assert n < |path| ==> path[n] in bytes;
      SlashedWithin(Fold(o, Segments(path[n..])).segs, bytes);
    } else if n < |path| {
      OutputWithin(path[n + 1..], bytes);
    }
  }
}
