/** Selecting subtrees by climbing path strings (src/core/ir_filter.cpp). */
module IrFilter {
  import opened Bytes
  import opened Dom
  import opened Layout
  import opened Slashes
  import opened LayoutPaths
  import opened EventStream
  import opened IrModel

  // ----- the climb -----

  /** `scope.compare(slash + 1, 7, "text()[") == 0`. */
  predicate TextSuffixAt(scope: Str, slash: nat)
    requires slash < |scope|
  {
    scope[slash + 1..Min(slash + 8, |scope|)] == "text()["
  }

  predicate IndexedSegmentAt(scope: Str, slash: nat)
    requires slash < |scope|
  {
    slash + 1 <= FindLast(scope, '[') && scope[|scope| - 1] == ']'
  }

  /** Whether the climb from `scope` meets a selected path. */
  predicate Climb(scope: Str, selected: set<Str>)
    decreases |scope|
  {
    || scope in selected
    || (var slash := FindLast(scope, '/');
        && slash >= 0
        && (TextSuffixAt(scope, slash) || (IndexedSegmentAt(scope, slash) && scope[..slash] != []))
        && Climb(scope[..slash], selected))
  }

  function Filter(events: seq<Event>, selected: set<Str>): seq<Event> {
    if events == [] then []
    else
      var last := events[|events| - 1];
      Filter(events[..|events| - 1], selected) + if Climb(last.xpath, selected) then [last] else []
  }

  method ClimbFrom(xpath: Str, selected: set<Str>) returns (keep: bool)
    ensures keep <==> Climb(xpath, selected)
  {
    var scope := xpath;
    while true
      invariant Climb(xpath, selected) <==> Climb(scope, selected)
      decreases |scope|
    {
      if scope in selected { return true; }
      var slash := FindLast(scope, '/');
      if slash == -1 { return false; }
      if TextSuffixAt(scope, slash) {
        scope := scope[..slash];
        continue;
      }
      var bracket := FindLast(scope, '[');
      if bracket == -1 || bracket < slash + 1 || scope[|scope| - 1] != ']' { return false; }
      scope := scope[..slash];
      if scope == [] { return false; }
    }
  }

  function SelectedPaths(root: Node, matches: seq<Pos>): set<Str> {
    set p | p in matches && Visited(root, p) :: PathAt(root, p)
  }

  method CollectPaths(root: Node, ir: IrBuild, matches: seq<Pos>) returns (selected: set<Str>)
    requires forall p :: p in ir.nodePaths <==> Visited(root, p)
    requires forall p :: p in ir.nodePaths ==> ir.nodePaths[p] == PathAt(root, p)
    ensures selected == SelectedPaths(root, matches)
  {
    hide Visited, PathAt;
    selected := {};
    for i := 0 to |matches|
      invariant selected == SelectedPaths(root, matches[..i])
    {
      var node := matches[i];
      assert matches[..i + 1] == matches[..i] + [node];
      if node in ir.nodePaths { selected := selected + {ir.nodePaths[node]}; }
    }
    assert matches[..|matches|] == matches;
  }

  method FilterEvents(events: seq<Event>, selected: set<Str>) returns (filtered: seq<Event>)
    ensures filtered == Filter(events, selected)
  {
    filtered := [];
    for i := 0 to |events|
      invariant filtered == Filter(events[..i], selected)
    {
      assert events[..i + 1][..i] == events[..i];
      var keep := ClimbFrom(events[i].xpath, selected);
      if keep { filtered := filtered + [events[i]]; }
    }
    assert events[..|events|] == events;
  }

  /** `filter_prowse_xas`. `matches` is what evaluating the XPath gave: `None` for an exception or no node set. */
  method FilterXas(root: Node, expression: Str, matches: Option<seq<Pos>>) returns (r: Result<seq<Event>>)
    ensures expression == [] ==> r == Success([])
    ensures expression != [] ==>
              r == if !Lowers(root) then Failure(ResourceLimit)
                   else if matches.None? then Success([])
                   else Success(Filter(DocumentEvents(root), SelectedPaths(root, matches.value)))
  {
    hide Filter, SelectedPaths, DocumentEvents, Lowers, Visited, PathOf;
    if expression == [] { return Success([]); }
    var ir :- BuildIr(root);
    if matches.None? { return Success([]); }
    var selected := CollectPaths(root, ir, matches.value);
    if selected == {} {
      NothingSelected(ir.events);
      return Success([]);
    }
    var filtered := FilterEvents(ir.events, selected);
    return Success(filtered);
  }

  lemma {:induction false} ClimbNowhere(scope: Str)
    ensures !Climb(scope, {})
    decreases |scope|
  {
    var slash := FindLast(scope, '/');
    if slash >= 0 {
      ClimbNowhere(scope[..slash]);
    }
  }

  lemma {:induction false} NothingSelected(events: seq<Event>)
    ensures Filter(events, {}) == []
  {
    if events != [] {
      NothingSelected(events[..|events| - 1]);
      ClimbNowhere(events[|events| - 1].xpath);
    }
  }

  // ----- when the climb is the scope test -----

  /** What lies between two slashes lets the climb pass. */
  predicate PieceOk(piece: Str) {
    StartsWith(piece, "text()[") || ('[' in piece && piece[|piece| - 1] == ']')
  }

  lemma TextGuard(x: Str, slash: nat)
    requires slash < |x|
    ensures TextSuffixAt(x, slash) <==> StartsWith(x[slash + 1..], "text()[")
  {
    var piece, guard: Str := x[slash + 1..], "text()[";
    assert |guard| == 7;
    if |piece| >= 7 {
      assert x[slash + 1..slash + 8] == piece[..7];
    }
  }

  lemma IndexGuard(x: Str, slash: nat)
    requires slash < |x| && x[slash] == '/'
    ensures IndexedSegmentAt(x, slash) <==> '[' in x[slash + 1..] && x[|x| - 1] == ']'
  {
    var piece, bracket := x[slash + 1..], FindLast(x, '[');
    if slash + 1 <= bracket {
      assert piece[bracket - slash - 1] == '[';
    } else {
      assert forall i :: 0 <= i < |piece| ==> piece[i] == x[slash + 1 + i];
    }
  }

  /** The guards of one turn look at what is behind the last slash. */
  lemma GuardIsPiece(x: Str)
    requires HasSlash(x)
    ensures var slash := FindLast(x, '/');
            TextSuffixAt(x, slash) || IndexedSegmentAt(x, slash) <==> PieceOk(BehindSlash(x))
  {
    hide TextSuffixAt, IndexedSegmentAt, StartsWith;
    TextGuard(x, FindLast(x, '/'));
    IndexGuard(x, FindLast(x, '/'));
  }

  /** One turn of the climb, where nothing selected is empty. */
  lemma ClimbStep(x: Str, selected: set<Str>)
    requires [] !in selected
    ensures Climb(x, selected) <==>
            x in selected || (HasSlash(x) && PieceOk(BehindSlash(x)) && Climb(BeforeSlash(x), selected))
  {
    hide PieceOk;
    if HasSlash(x) {
      GuardIsPiece(x);
    }
    assert !Climb([], selected);
  }

  /** Every cut the climb makes from `x` passes its guards, except that the last one may fail: nothing is left then. */
  predicate Climbable(x: Str)
    decreases |x|
  {
    !HasSlash(x) || BeforeSlash(x) == [] || (PieceOk(BehindSlash(x)) && Climbable(BeforeSlash(x)))
  }

  ghost predicate WithinSome(x: Str, selected: set<Str>) { exists s :: s in selected && IsWithinScope(x, s) }

  lemma WithinStep(x: Str, selected: set<Str>)
    ensures WithinSome(x, selected) <==> x in selected || (HasSlash(x) && WithinSome(BeforeSlash(x), selected))
  {
    hide IsWithinScope, HasSlash, BeforeSlash;
    forall s ensures IsWithinScope(x, s) <==> x == s || (HasSlash(x) && IsWithinScope(BeforeSlash(x), s)) {
      WithinByLastSlash(x, s);
    }
  }

  lemma {:induction false} ClimbIsScope(x: Str, selected: set<Str>)
    requires Climbable(x) && [] !in selected
    ensures Climb(x, selected) <==> WithinSome(x, selected)
    decreases |x|
  {
    hide PieceOk, Climb, WithinSome, HasSlash, BeforeSlash, BehindSlash;
    ClimbStep(x, selected);
    WithinStep(x, selected);
    NothingAbove(selected);
    if HasSlash(x) && BeforeSlash(x) != [] {
      ClimbIsScope(BeforeSlash(x), selected);
    }
  }

  lemma NothingAbove(selected: set<Str>)
    requires [] !in selected
    ensures !Climb([], selected) && !WithinSome([], selected)
  {
  }

  /** Where a cut fails, selecting what it would leave shows the difference. */
  lemma {:induction false} StuckClimb(x: Str) returns (s: Str)
    requires !Climbable(x)
    ensures s != [] && |s| < |x| && WithinSome(x, {s}) && !Climb(x, {s})
    decreases |x|
  {
    hide PieceOk, Climb, WithinSome, HasSlash, BeforeSlash, BehindSlash;
    if PieceOk(BehindSlash(x)) {
      s := StuckClimb(BeforeSlash(x));
    } else {
      s := BeforeSlash(x);
      WithinItself(s);
    }
    ClimbStep(x, {s});
    WithinStep(x, {s});
  }

  lemma WithinItself(s: Str)
    ensures WithinSome(s, {s})
  {
    assert IsWithinScope(s, s);
  }

  /** Whether the climb from `x` is the plain scope test, whatever is selected. */
  ghost predicate ClimbsLikeScope(x: Str) {
    forall selected: set<Str> :: [] !in selected ==> (Climb(x, selected) <==> WithinSome(x, selected))
  }

  /** The climb is the scope test exactly from the strings whose every cut passes the guards. */
  lemma ClimbAgreesWithScope(x: Str)
    ensures ClimbsLikeScope(x) <==> Climbable(x)
  {
    hide Climbable, Climb, WithinSome;
    if Climbable(x) {
      forall selected: set<Str> | [] !in selected ensures Climb(x, selected) <==> WithinSome(x, selected) {
        ClimbIsScope(x, selected);
      }
    } else {
      var s := StuckClimb(x);
      assert [] !in {s};
      assert !(Climb(x, {s}) <==> WithinSome(x, {s}));
    }
  }

  // ----- the filter keeps exactly the selected subtrees -----

  /** The events of the outermost selected elements at or below `p`, in document order. */
  function KeptTree(n: Node, p: Pos, path: Str, depth: nat, selected: set<Pos>): seq<Event>
    decreases n, 2, 0
  {
    if !IsBranch(n) then []
    else if n.kind.ElementNode? && p in selected then TreeEvents(n, path, depth)
    else KeptChildren(n, p, path, depth, selected, |n.children|)
  }

  function KeptChildren(n: Node, p: Pos, path: Str, depth: nat, selected: set<Pos>, k: nat): seq<Event>
    requires k <= |n.children|
    decreases n, 1, k
  {
    if k == 0 then []
    else KeptChildren(n, p, path, depth, selected, k - 1) + KeptChild(n, p, path, depth, selected, k - 1)
  }

  function KeptChild(n: Node, p: Pos, path: Str, depth: nat, selected: set<Pos>, i: nat): seq<Event>
    requires i < |n.children|
    decreases n, 0, i
  {
    if Descends(n, n.children[i])
    then KeptTree(n.children[i], p + [i], ChildPath(n, path, i), DepthBelow(n, depth), selected)
    else []
  }

  /** The other events at or below `p`. */
  function DroppedTree(n: Node, p: Pos, path: Str, depth: nat, selected: set<Pos>): seq<Event>
    decreases n, 2, 0
  {
    if !IsBranch(n) || (n.kind.ElementNode? && p in selected) then []
    else if n.kind.DocumentNode? then DroppedChildren(n, p, path, depth, selected, |n.children|)
    else OpeningEvents(n, path, depth) + DroppedChildren(n, p, path, depth, selected, |n.children|)
         + [EndEvent(n, path, depth)]
  }

  function DroppedChildren(n: Node, p: Pos, path: Str, depth: nat, selected: set<Pos>, k: nat): seq<Event>
    requires k <= |n.children|
    decreases n, 1, k
  {
    if k == 0 then []
    else DroppedChildren(n, p, path, depth, selected, k - 1) + DroppedChild(n, p, path, depth, selected, k - 1)
  }

  function DroppedChild(n: Node, p: Pos, path: Str, depth: nat, selected: set<Pos>, i: nat): seq<Event>
    requires i < |n.children|
    decreases n, 0, i
  {
    if Descends(n, n.children[i])
    then DroppedTree(n.children[i], p + [i], ChildPath(n, path, i), DepthBelow(n, depth), selected)
    else ChildEvents(n, path, depth, i)
  }

  lemma ChildSplits(n: Node, path: Str, depth: nat, i: nat)
    requires i < |n.children| && IsBranch(n)
    ensures Descends(n, n.children[i]) ==>
              ChildEvents(n, path, depth, i) == TreeEvents(n.children[i], ChildPath(n, path, i), DepthBelow(n, depth))
  {
  }

  /** `all` is made of the elements of `a` and those of `b`. */
  predicate Splits(all: seq<Event>, a: seq<Event>, b: seq<Event>) { multiset(all) == multiset(a) + multiset(b) }

  lemma SplitsAppend(all: seq<Event>, a: seq<Event>, b: seq<Event>, all': seq<Event>, a': seq<Event>, b': seq<Event>)
    requires Splits(all, a, b) && Splits(all', a', b')
    ensures Splits(all + all', a + a', b + b')
  {
  }

  lemma {:induction false} TreeIsSplit(n: Node, p: Pos, path: Str, depth: nat, selected: set<Pos>)
    ensures Splits(TreeEvents(n, path, depth), KeptTree(n, p, path, depth, selected),
                   DroppedTree(n, p, path, depth, selected))
    decreases n, 2, 0
  {
    hide OpeningEvents, EndEvent, ChildrenEvents, KeptChildren, DroppedChildren;
    if IsBranch(n) {
      ChildrenAreSplit(n, p, path, depth, selected, |n.children|);
    }
  }

  lemma {:induction false} ChildrenAreSplit(n: Node, p: Pos, path: Str, depth: nat, selected: set<Pos>, k: nat)
    requires IsBranch(n) && k <= |n.children|
    ensures Splits(ChildrenEvents(n, path, depth, k), KeptChildren(n, p, path, depth, selected, k),
                   DroppedChildren(n, p, path, depth, selected, k))
    decreases n, 1, k
  {
    hide ChildEvents, KeptChild, DroppedChild;
    if k > 0 {
      hide Splits;
      ChildrenAreSplit(n, p, path, depth, selected, k - 1);
      ChildIsSplit(n, p, path, depth, selected, k - 1);
      SplitsAppend(ChildrenEvents(n, path, depth, k - 1), KeptChildren(n, p, path, depth, selected, k - 1),
                   DroppedChildren(n, p, path, depth, selected, k - 1), ChildEvents(n, path, depth, k - 1),
                   KeptChild(n, p, path, depth, selected, k - 1), DroppedChild(n, p, path, depth, selected, k - 1));
    }
  }

  lemma {:induction false} ChildIsSplit(n: Node, p: Pos, path: Str, depth: nat, selected: set<Pos>, i: nat)
    requires IsBranch(n) && i < |n.children|
    ensures Splits(ChildEvents(n, path, depth, i), KeptChild(n, p, path, depth, selected, i),
                   DroppedChild(n, p, path, depth, selected, i))
    decreases n, 0, i
  {
    hide ChildEvents, TreeEvents, KeptTree, DroppedTree, ChildPath;
    ChildSplits(n, path, depth, i);
    if Descends(n, n.children[i]) {
      TreeIsSplit(n.children[i], p + [i], ChildPath(n, path, i), DepthBelow(n, depth), selected);
    }
  }

  lemma FilterSnoc(events: seq<Event>, e: Event, selected: set<Str>)
    ensures Filter(events + [e], selected)
            == Filter(events, selected) + if Climb(e.xpath, selected) then [e] else []
  {
    assert (events + [e])[..|events|] == events;
  }

  lemma {:induction false} FilterAppend(a: seq<Event>, b: seq<Event>, selected: set<Str>)
    ensures Filter(a + b, selected) == Filter(a, selected) + Filter(b, selected)
  {
    if b == [] {
      EmptyIsUnit(a);
      EmptyIsUnit(Filter(a, selected));
    } else {
      hide Filter, Climb;
      var rest, last := b[..|b| - 1], b[|b| - 1];
      FilterAppend(a, rest, selected);
      FilterSnoc(rest, last, selected);
      FilterSnoc(a + rest, last, selected);
      Unsnoc(b);
      Associate(a, rest, [last]);
      Associate(Filter(a, selected), Filter(rest, selected), if Climb(last.xpath, selected) then [last] else []);
    }
  }

  lemma {:induction false} FilterAll(events: seq<Event>, selected: set<Str>)
    requires forall e :: e in events ==> Climb(e.xpath, selected)
    ensures Filter(events, selected) == events
  {
    hide Climb;
    if events != [] {
      FilterAll(events[..|events| - 1], selected);
      Unsnoc(events);
    }
  }

  lemma {:induction false} FilterNone(events: seq<Event>, selected: set<Str>)
    requires forall e :: e in events ==> !Climb(e.xpath, selected)
    ensures Filter(events, selected) == []
  {
    hide Climb;
    if events != [] {
      FilterNone(events[..|events| - 1], selected);
    }
  }

  /** An event is kept with all its copies, or with none. */
  lemma {:induction false} FilterCount(events: seq<Event>, selected: set<Str>, e: Event)
    ensures multiset(Filter(events, selected))[e] == if Climb(e.xpath, selected) then multiset(events)[e] else 0
  {
    hide Climb;
    if events != [] {
      var init, last := events[..|events| - 1], events[|events| - 1];
      Unsnoc(events);
      FilterCount(init, selected, e);
    }
  }

  function PathsOf(root: Node, selected: set<Pos>): set<Str> {
    set p | p in selected && Visited(root, p) :: PathAt(root, p)
  }

  /** The path of the element at `p`, or of its text number `i`. */
  function EventPath(root: Node, p: Pos, i: nat): Str {
    if i == 0 then PathAt(root, p) else Below(PathAt(root, p), SegmentText("text()", i))
  }

  function Texts(root: Node, p: Pos): nat {
    if InTree(root, p) then TextCount(At(root, p), |At(root, p).children|) else 0
  }

  /** A selected element is at `p` or above it. */
  ghost predicate Held(root: Node, p: Pos, selected: set<Pos>) {
    exists q :: q in selected && Visited(root, q) && q <= p
  }

  /** From every element and every text, the climb meets a selected path just when a selected element holds it. */
  ghost predicate ClimbsAgree(root: Node, selected: set<Pos>) {
    forall p: Pos, i: nat :: Visited(root, p) && i <= Texts(root, p) ==>
      (Climb(EventPath(root, p, i), PathsOf(root, selected)) <==> Held(root, p, selected))
  }

  // where every event at or below `p` comes from

  predicate IsOrigin(root: Node, p: Pos, x: Str, r: Pos, i: nat) {
    p <= r && Visited(root, r) && i <= Texts(root, r) && x == EventPath(root, r, i)
  }

  ghost predicate FromBelow(root: Node, p: Pos, x: Str) { exists r: Pos, i: nat :: IsOrigin(root, p, x, r, i) }

  ghost predicate AllFromBelow(root: Node, p: Pos, events: seq<Event>) {
    forall e :: e in events ==> FromBelow(root, p, e.xpath)
  }

  lemma TextSegment(path: Str, digits: Str)
    ensures path + "/text()[" + digits + "]" == path + "/" + ("text()" + "[" + digits + "]")
  {
    assert "/text()[" == "/" + ("text()" + "[");
  }

  lemma TextXpath(root: Node, p: Pos, depth: nat, i: nat, text: Str)
    requires InTree(root, p) && i >= 1
    ensures TextEvent(At(root, p), PathOf(root, p), depth, i, text).xpath == EventPath(root, p, i)
  {
    TextSegment(PathOf(root, p), Decimal(i));
  }

  lemma {:induction false} AttributeXpath(n: Node, path: Str, depth: nat, k: nat)
    requires k <= |n.attributes|
    ensures forall e :: e in AttributeEvents(n, path, depth, k) ==> e.xpath == path
  {
    if k > 0 {
      AttributeXpath(n, path, depth, k - 1);
    }
  }

  /** An element's start, attribute and end events carry its own path. */
  lemma OwnXpath(n: Node, path: Str, depth: nat)
    ensures forall e :: e in OpeningEvents(n, path, depth) + [EndEvent(n, path, depth)] ==> e.xpath == path
  {
    AttributeXpath(n, path, depth, |n.attributes|);
  }

  lemma FromChild(root: Node, p: Pos, i: nat, x: Str)
    requires FromBelow(root, p + [i], x)
    ensures FromBelow(root, p, x)
  {
    hide Visited, Texts, EventPath;
    var r: Pos, k: nat :| IsOrigin(root, p + [i], x, r, k);
    assert p <= p + [i];
    assert IsOrigin(root, p, x, r, k);
  }

  lemma FromItself(root: Node, p: Pos, i: nat)
    requires Visited(root, p) && i <= Texts(root, p)
    ensures FromBelow(root, p, EventPath(root, p, i))
  {
    hide Visited, Texts, EventPath;
    assert IsOrigin(root, p, EventPath(root, p, i), p, i);
  }

  lemma {:induction false} TreeOrigins(root: Node, p: Pos, depth: nat)
    requires Reached(root, p)
    ensures AllFromBelow(root, p, TreeEvents(At(root, p), PathOf(root, p), depth))
    decreases At(root, p), 2, 0
  {
    hide PathOf, FromBelow, OpeningEvents, EndEvent, ChildrenEvents, Texts;
    var n := At(root, p);
    if IsBranch(n) {
      ChildrenOrigins(root, p, depth, |n.children|);
    }
    if n.kind.ElementNode? {
      OwnXpath(n, PathOf(root, p), depth);
      FromItself(root, p, 0);
    }
  }

  lemma {:induction false} ChildrenOrigins(root: Node, p: Pos, depth: nat, k: nat)
    requires Reached(root, p) && IsBranch(At(root, p)) && k <= |At(root, p).children|
    ensures AllFromBelow(root, p, ChildrenEvents(At(root, p), PathOf(root, p), depth, k))
    decreases At(root, p), 1, k
  {
    hide PathOf, FromBelow, ChildEvents, Reached;
    if k > 0 {
      ChildrenOrigins(root, p, depth, k - 1);
      ChildOrigins(root, p, depth, k - 1);
    }
  }

  lemma {:induction false} ChildOrigins(root: Node, p: Pos, depth: nat, i: nat)
    requires Reached(root, p) && IsBranch(At(root, p)) && i < |At(root, p).children|
    ensures AllFromBelow(root, p, ChildEvents(At(root, p), PathOf(root, p), depth, i))
    decreases At(root, p), 0, i
  {
    hide PathOf, FromBelow, ChildEvents, TreeEvents, TextEvent, Renderable, TextCount;
    var n, path := At(root, p), PathOf(root, p);
    var c := n.children[i];
    ChildCases(root, p, path, depth, i);
    if Descends(n, c) {
      TreeOrigins(root, p + [i], DepthBelow(n, depth));
      forall e | e in ChildEvents(n, path, depth, i) ensures FromBelow(root, p, e.xpath) {
        FromChild(root, p, i, e.xpath);
      }
    } else if n.kind.ElementNode? && c.kind.TextNode? {
      TextOrigin(root, p, depth, i);
    }
  }

  lemma TextOrigin(root: Node, p: Pos, depth: nat, i: nat)
    requires Visited(root, p) && i < |At(root, p).children| && At(root, p).children[i].kind.TextNode?
    ensures AllFromBelow(root, p, ChildEvents(At(root, p), PathOf(root, p), depth, i))
  {
    var n, path := At(root, p), PathOf(root, p);
    var index := TextCount(n, i) + 1;
    TextCase(n, path, depth, i, TextCount(n, i));
    TextXpath(root, p, depth, index, n.children[i].text);
    if Renderable(n.children[i].text) {
      TextCountGrows(n, i + 1, |n.children|);
      FromItself(root, p, index);
    }
  }

  lemma {:induction false} TextCountGrows(n: Node, i: nat, k: nat)
    requires i <= k <= |n.children|
    ensures TextCount(n, i) <= TextCount(n, k)
    decreases k
  {
    if i < k {
      TextCountGrows(n, i, k - 1);
    }
  }

  // where the climb agrees, the filter keeps the selected subtrees

  /** No selected element lies strictly above `p`. */
  ghost predicate NoneAbove(root: Node, p: Pos, selected: set<Pos>) {
    forall q :: q in selected && Visited(root, q) ==> !(q < p)
  }

  lemma HeldByItself(root: Node, p: Pos, selected: set<Pos>)
    requires NoneAbove(root, p, selected) && Visited(root, p)
    ensures Held(root, p, selected) <==> p in selected
  {
    hide Visited;
    assert p <= p;
    if Held(root, p, selected) {
      var q :| q in selected && Visited(root, q) && q <= p;
      assert q < p || q == p;
    }
  }

  lemma NoneAboveChild(root: Node, p: Pos, i: nat, selected: set<Pos>)
    requires NoneAbove(root, p, selected) && (p in selected ==> !Visited(root, p))
    ensures NoneAbove(root, p + [i], selected)
  {
    forall q | q in selected && Visited(root, q) ensures !(q < p + [i]) {
      assert q < p + [i] ==> q <= p;
      assert q <= p ==> q < p || q == p;
    }
  }

  lemma SelectedTreeFilter(root: Node, p: Pos, depth: nat, selected: set<Pos>)
    requires ClimbsAgree(root, selected) && Visited(root, p) && p in selected
    ensures var events := TreeEvents(At(root, p), PathOf(root, p), depth);
            Filter(events, PathsOf(root, selected)) == events
  {
    var events := TreeEvents(At(root, p), PathOf(root, p), depth);
    TreeOrigins(root, p, depth);
    hide TreeEvents, PathOf, Climb, Filter, PathsOf, EventPath, Texts, Visited;
    forall e | e in events ensures Climb(e.xpath, PathsOf(root, selected)) {
      assert FromBelow(root, p, e.xpath);
      var r: Pos, i: nat :| IsOrigin(root, p, e.xpath, r, i);
      assert Held(root, r, selected);
    }
    FilterAll(events, PathsOf(root, selected));
  }

  lemma OpenTreeFilter(root: Node, p: Pos, depth: nat, selected: set<Pos>)
    requires ClimbsAgree(root, selected) && Visited(root, p) && NoneAbove(root, p, selected) && p !in selected
    ensures var n, path, paths := At(root, p), PathOf(root, p), PathsOf(root, selected);
            Filter(TreeEvents(n, path, depth), paths)
            == Filter(ChildrenEvents(n, path, depth, |n.children|), paths)
  {
    var n, path, paths := At(root, p), PathOf(root, p), PathsOf(root, selected);
    hide PathOf, Climb, Filter, PathsOf, OpeningEvents, EndEvent, ChildrenEvents, NoneAbove;
    assert EventPath(root, p, 0) == path;
    HeldByItself(root, p, selected);
    OwnXpath(n, path, depth);
    FilterMiddle(OpeningEvents(n, path, depth), ChildrenEvents(n, path, depth, |n.children|),
                 [EndEvent(n, path, depth)], paths);
  }

  lemma FilterMiddle(a: seq<Event>, b: seq<Event>, c: seq<Event>, selected: set<Str>)
    requires forall e :: e in a + c ==> !Climb(e.xpath, selected)
    ensures Filter(a + b + c, selected) == Filter(b, selected)
  {
    hide Climb, Filter;
    assert forall e :: e in a ==> e in a + c;
    assert forall e :: e in c ==> e in a + c;
    FilterNone(a, selected);
    FilterNone(c, selected);
    FilterAppend(a + b, c, selected);
    FilterAppend(a, b, selected);
  }

  lemma {:induction false} TreeFilter(root: Node, p: Pos, depth: nat, selected: set<Pos>)
    requires ClimbsAgree(root, selected) && Reached(root, p) && NoneAbove(root, p, selected)
    ensures Filter(TreeEvents(At(root, p), PathOf(root, p), depth), PathsOf(root, selected))
            == KeptTree(At(root, p), p, PathOf(root, p), depth, selected)
    decreases At(root, p), 2, 0
  {
    hide PathOf, PathsOf, ClimbsAgree, NoneAbove, Climb, ChildrenEvents, KeptChildren, OpeningEvents, EndEvent;
    var n := At(root, p);
    if n.kind.ElementNode? && p in selected {
      SelectedTreeFilter(root, p, depth, selected);
    } else if n.kind.ElementNode? {
      OpenTreeFilter(root, p, depth, selected);
      ChildrenFilter(root, p, depth, selected, |n.children|);
    } else if n.kind.DocumentNode? {
      ChildrenFilter(root, p, depth, selected, |n.children|);
    }
  }

  lemma {:induction false} ChildrenFilter(root: Node, p: Pos, depth: nat, selected: set<Pos>, k: nat)
    requires ClimbsAgree(root, selected) && Reached(root, p) && NoneAbove(root, p, selected)
    requires IsBranch(At(root, p)) && (p in selected ==> !Visited(root, p)) && k <= |At(root, p).children|
    ensures Filter(ChildrenEvents(At(root, p), PathOf(root, p), depth, k), PathsOf(root, selected))
            == KeptChildren(At(root, p), p, PathOf(root, p), depth, selected, k)
    decreases At(root, p), 1, k
  {
    hide ClimbsAgree, NoneAbove, Visited, PathOf, PathsOf, ChildEvents, KeptChild, Climb;
    var n, path, paths := At(root, p), PathOf(root, p), PathsOf(root, selected);
    if k > 0 {
      hide Filter;
      ChildrenFilter(root, p, depth, selected, k - 1);
      ChildFilter(root, p, depth, selected, k - 1);
      FilterAppend(ChildrenEvents(n, path, depth, k - 1), ChildEvents(n, path, depth, k - 1), paths);
    }
  }

  lemma {:induction false} ChildFilter(root: Node, p: Pos, depth: nat, selected: set<Pos>, i: nat)
    requires ClimbsAgree(root, selected) && Reached(root, p) && NoneAbove(root, p, selected)
    requires IsBranch(At(root, p)) && (p in selected ==> !Visited(root, p)) && i < |At(root, p).children|
    ensures Filter(ChildEvents(At(root, p), PathOf(root, p), depth, i), PathsOf(root, selected))
            == KeptChild(At(root, p), p, PathOf(root, p), depth, selected, i)
    decreases At(root, p), 0, i
  {
    hide ClimbsAgree, NoneAbove, PathOf, PathsOf, KeptTree, TreeEvents, ChildEvents, ChildPath, Climb;
    var n, path := At(root, p), PathOf(root, p);
    var c := n.children[i];
    ChildCases(root, p, path, depth, i);
    if Descends(n, c) {
      ChildPathIsPathOf(root, p, i);
      NoneAboveChild(root, p, i, selected);
      TreeFilter(root, p + [i], DepthBelow(n, depth), selected);
    } else if n.kind.ElementNode? && c.kind.TextNode? {
      TextFilter(root, p, depth, selected, i);
    }
  }

  lemma TextFilter(root: Node, p: Pos, depth: nat, selected: set<Pos>, i: nat)
    requires ClimbsAgree(root, selected) && Visited(root, p) && NoneAbove(root, p, selected) && p !in selected
    requires i < |At(root, p).children| && At(root, p).children[i].kind.TextNode?
    ensures Filter(ChildEvents(At(root, p), PathOf(root, p), depth, i), PathsOf(root, selected)) == []
  {
    hide PathOf, PathsOf, Climb, EventPath, ChildEvents, TextEvent, Renderable, NoneAbove;
    var n, path := At(root, p), PathOf(root, p);
    var index := TextCount(n, i) + 1;
    TextCase(n, path, depth, i, TextCount(n, i));
    TextXpath(root, p, depth, index, n.children[i].text);
    HeldByItself(root, p, selected);
    if Renderable(n.children[i].text) {
      TextCountGrows(n, i + 1, |n.children|);
      TextCountStep(n, i);
      assert !Climb(EventPath(root, p, index), PathsOf(root, selected));
      FilterNone(ChildEvents(n, path, depth, i), PathsOf(root, selected));
    }
  }

  lemma TextCountStep(n: Node, i: nat)
    requires i < |n.children| && n.children[i].kind.TextNode? && Renderable(n.children[i].text)
    ensures TextCount(n, i + 1) == TextCount(n, i) + 1
  {
  }

  // and only there

  predicate Within(some: seq<Event>, all: seq<Event>) { forall e :: e in some ==> e in all }

  lemma {:induction false} ChildWithin(n: Node, p: Pos, path: Str, depth: nat, selected: set<Pos>, i: nat, k: nat)
    requires i < k <= |n.children|
    ensures Within(ChildEvents(n, path, depth, i), ChildrenEvents(n, path, depth, k))
    ensures Within(KeptChild(n, p, path, depth, selected, i), KeptChildren(n, p, path, depth, selected, k))
    ensures Within(DroppedChild(n, p, path, depth, selected, i), DroppedChildren(n, p, path, depth, selected, k))
    decreases k
  {
    hide ChildEvents, KeptChild, DroppedChild;
    if i < k - 1 {
      ChildWithin(n, p, path, depth, selected, i, k - 1);
    }
  }

  /** A child's part of a branch. */
  lemma ChildPart(n: Node, p: Pos, path: Str, depth: nat, selected: set<Pos>, i: nat)
    requires IsBranch(n) && i < |n.children|
    ensures Within(ChildEvents(n, path, depth, i), TreeEvents(n, path, depth))
    ensures if n.kind.ElementNode? && p in selected then
              KeptTree(n, p, path, depth, selected) == TreeEvents(n, path, depth)
            else
              Within(KeptChild(n, p, path, depth, selected, i), KeptTree(n, p, path, depth, selected))
              && Within(DroppedChild(n, p, path, depth, selected, i), DroppedTree(n, p, path, depth, selected))
  {
    hide ChildEvents, KeptChild, DroppedChild, ChildrenEvents, KeptChildren, DroppedChildren, OpeningEvents, EndEvent;
    ChildWithin(n, p, path, depth, selected, i, |n.children|);
  }

  /** What the whole document keeps and drops of the subtree at `p`. */
  ghost predicate Placed(root: Node, p: Pos, depth: nat, selected: set<Pos>)
    requires InTree(root, p)
  {
    var n, path, top := At(root, p), PathOf(root, p), PathOf(root, []);
    var kept, dropped := KeptTree(root, [], top, 0, selected), DroppedTree(root, [], top, 0, selected);
    if NoneAbove(root, p, selected) then
      Within(KeptTree(n, p, path, depth, selected), kept) && Within(DroppedTree(n, p, path, depth, selected), dropped)
    else Within(TreeEvents(n, path, depth), kept)
  }

  lemma {:induction false} IsPlaced(root: Node, p: Pos, selected: set<Pos>) returns (depth: nat)
    requires Reached(root, p)
    ensures Placed(root, p, depth, selected)
    decreases |p|
  {
    hide NoneAbove, PathOf, KeptTree, DroppedTree, TreeEvents;
    if p == [] {
      RootHasNoneAbove(root, selected);
      return 0;
    }
    var p0, i := Parent(p), Last(p);
    var d := IsPlaced(root, p0, selected);
    assert p == p0 + [i];
    ChildOf(root, p);
    depth := DepthBelow(At(root, p0), d);
    ChildPlaced(root, p0, i, d, selected);
  }

  lemma RootHasNoneAbove(root: Node, selected: set<Pos>)
    ensures NoneAbove(root, [], selected)
  {
  }

  lemma ChildPlaced(root: Node, p: Pos, i: nat, depth: nat, selected: set<Pos>)
    requires Reached(root, p) && i < |At(root, p).children| && Reached(root, p + [i])
    requires Placed(root, p, depth, selected)
    ensures Placed(root, p + [i], DepthBelow(At(root, p), depth), selected)
  {
    var n, path := At(root, p), PathOf(root, p);
    ChildAt(root, p, i);
    assert IsBranch(n) && Descends(n, n.children[i]);
    ChildCases(root, p, path, depth, i);
    ChildPathIsPathOf(root, p, i);
    hide KeptTree, DroppedTree, TreeEvents, ChildEvents, PathOf, ChildPath, NoneAbove, Reached;
    ChildPart(n, p, path, depth, selected, i);
    NoneAboveIff(root, p, i, selected);
  }

  lemma NoneAboveIff(root: Node, p: Pos, i: nat, selected: set<Pos>)
    ensures NoneAbove(root, p + [i], selected)
            <==> NoneAbove(root, p, selected) && (p in selected ==> !Visited(root, p))
  {
    hide Visited;
    if NoneAbove(root, p + [i], selected) {
      forall q | q in selected && Visited(root, q) ensures !(q < p) && q != p {
        assert q <= p ==> q < p + [i];
      }
    } else if NoneAbove(root, p, selected) && (p in selected ==> !Visited(root, p)) {
      NoneAboveChild(root, p, i, selected);
    }
  }

  /** Every text of an element up to its count is among its children. */
  lemma {:induction false} TextIsThere(n: Node, index: nat, k: nat) returns (i: nat)
    requires k <= |n.children| && 1 <= index <= TextCount(n, k)
    ensures i < k && n.children[i].kind.TextNode? && Renderable(n.children[i].text) && TextCount(n, i) + 1 == index
    decreases k
  {
    hide Renderable;
    if TextCount(n, k - 1) >= index {
      i := TextIsThere(n, index, k - 1);
    } else {
      i := k - 1;
    }
  }

  /** The start event or a text event of an element, kept if the element is selected and otherwise dropped. */
  lemma OwnEvent(root: Node, p: Pos, index: nat, depth: nat, selected: set<Pos>) returns (e: Event)
    requires Visited(root, p) && index <= Texts(root, p)
    ensures e.xpath == EventPath(root, p, index)
    ensures var n, path := At(root, p), PathOf(root, p);
            && e in TreeEvents(n, path, depth)
            && (if p in selected then e in KeptTree(n, p, path, depth, selected)
                else e in DroppedTree(n, p, path, depth, selected))
  {
    var n, path := At(root, p), PathOf(root, p);
    hide PathOf, ChildEvents, TreeEvents, KeptChild, DroppedTree, KeptTree, Renderable;
    if index == 0 {
      e := StartEvent(n, path, depth);
      StartIsOwn(n, p, path, depth, selected);
    } else {
      var i := TextIsThere(n, index, |n.children|);
      TextXpath(root, p, depth, index, n.children[i].text);
      e := TextEvent(n, path, depth, index, n.children[i].text);
      TextIsOwn(n, p, path, depth, selected, i);
    }
  }

  lemma StartIsOwn(n: Node, p: Pos, path: Str, depth: nat, selected: set<Pos>)
    requires n.kind.ElementNode?
    ensures var e := StartEvent(n, path, depth);
            && e in TreeEvents(n, path, depth)
            && (if p in selected then e in KeptTree(n, p, path, depth, selected)
                else e in DroppedTree(n, p, path, depth, selected))
  {
    hide StartEvent, EndEvent, AttributeEvents, ChildrenEvents, DroppedChildren;
    assert StartEvent(n, path, depth) in OpeningEvents(n, path, depth);
  }

  lemma TextIsOwn(n: Node, p: Pos, path: Str, depth: nat, selected: set<Pos>, i: nat)
    requires n.kind.ElementNode? && i < |n.children| && n.children[i].kind.TextNode? && Renderable(n.children[i].text)
    ensures var e := TextEvent(n, path, depth, TextCount(n, i) + 1, n.children[i].text);
            && e in TreeEvents(n, path, depth)
            && (if p in selected then e in KeptTree(n, p, path, depth, selected)
                else e in DroppedTree(n, p, path, depth, selected))
  {
    TextCase(n, path, depth, i, TextCount(n, i));
    hide TreeEvents, KeptTree, DroppedTree, ChildEvents, TextEvent, TextCount, Renderable;
    ChildPart(n, p, path, depth, selected, i);
  }

  /** Every element and every text has an event in the document, kept exactly if a selected element holds it. */
  lemma EventIsPlaced(root: Node, p: Pos, index: nat, selected: set<Pos>) returns (e: Event)
    requires Visited(root, p) && index <= Texts(root, p)
    ensures e.xpath == EventPath(root, p, index)
    ensures if Held(root, p, selected) then e in KeptTree(root, [], PathOf(root, []), 0, selected)
            else e in DroppedTree(root, [], PathOf(root, []), 0, selected)
  {
    hide EventPath, Texts, PathOf, KeptTree, DroppedTree, TreeEvents, NoneAbove, Held, Reached;
    var depth := IsPlaced(root, p, selected);
    e := OwnEvent(root, p, index, depth, selected);
    if NoneAbove(root, p, selected) {
      HeldByItself(root, p, selected);
    } else {
      HeldFromAbove(root, p, selected);
    }
  }

  lemma HeldFromAbove(root: Node, p: Pos, selected: set<Pos>)
    requires !NoneAbove(root, p, selected)
    ensures Held(root, p, selected)
  {
    var q :| q in selected && Visited(root, q) && q < p;
    assert q <= p;
  }

  lemma AgreesWhereKept(root: Node, selected: set<Pos>, p: Pos, i: nat)
    requires Filter(DocumentEvents(root), PathsOf(root, selected)) == KeptTree(root, [], PathOf(root, []), 0, selected)
    requires Visited(root, p) && i <= Texts(root, p)
    ensures Climb(EventPath(root, p, i), PathsOf(root, selected)) <==> Held(root, p, selected)
  {
    hide Filter, PathsOf, KeptTree, DroppedTree, TreeEvents, PathOf, EventPath, Texts, Held, Climb, Visited;
    var e := EventIsPlaced(root, p, i, selected);
    TreeIsSplit(root, [], PathOf(root, []), 0, selected);
    FilterCount(DocumentEvents(root), PathsOf(root, selected), e);
    var kept, dropped := KeptTree(root, [], PathOf(root, []), 0, selected),
                         DroppedTree(root, [], PathOf(root, []), 0, selected);
    assert multiset(DocumentEvents(root))[e] == multiset(kept)[e] + multiset(dropped)[e];
    assert e in kept ==> multiset(kept)[e] > 0;
    assert e in dropped ==> multiset(dropped)[e] > 0;
  }

  /**
   * For every tree and every selection, the filtered stream is, in order, the events of the selected elements' subtrees
   * exactly where the climb from every element and text agrees with being held by a selected element.
   */
  lemma FilterKeepsSelectedSubtrees(root: Node, matches: seq<Pos>)
    ensures Filter(DocumentEvents(root), SelectedPaths(root, matches))
            == KeptTree(root, [], PathOf(root, []), 0, set p | p in matches)
            <==> ClimbsAgree(root, set p | p in matches)
  {
    var selected := set p | p in matches;
    assert SelectedPaths(root, matches) == PathsOf(root, selected);
    hide *;
    if ClimbsAgree(root, selected) {
      AgreeMeansKept(root, selected);
    } else if Filter(DocumentEvents(root), PathsOf(root, selected)) == KeptTree(root, [], PathOf(root, []), 0, selected) {
      KeptMeansAgree(root, selected);
    }
  }

  lemma AgreeMeansKept(root: Node, selected: set<Pos>)
    requires ClimbsAgree(root, selected)
    ensures Filter(DocumentEvents(root), PathsOf(root, selected)) == KeptTree(root, [], PathOf(root, []), 0, selected)
  {
    hide ClimbsAgree, Filter, KeptTree, PathsOf, TreeEvents, PathOf;
    RootHasNoneAbove(root, selected);
    TreeFilter(root, [], 0, selected);
  }

  lemma KeptMeansAgree(root: Node, selected: set<Pos>)
    requires Filter(DocumentEvents(root), PathsOf(root, selected)) == KeptTree(root, [], PathOf(root, []), 0, selected)
    ensures ClimbsAgree(root, selected)
  {
    hide Filter, PathsOf, KeptTree, DocumentEvents, PathOf, EventPath, Texts, Held, Climb, Visited;
    forall p: Pos, i: nat | Visited(root, p) && i <= Texts(root, p)
      ensures Climb(EventPath(root, p, i), PathsOf(root, selected)) <==> Held(root, p, selected)
    {
      AgreesWhereKept(root, selected, p, i);
    }
  }

  // ----- what that means for the names -----

  /** Every piece between slashes lets the climb pass. */
  predicate Passable(s: Str)
    decreases |s|
  {
    PieceOk(BehindSlash(s)) && (HasSlash(s) ==> Passable(BeforeSlash(s)))
  }

  /** Every slash-separated piece of the name but the last lets the climb pass. */
  predicate ClimbableName(name: Str) { HasSlash(name) ==> Passable(BeforeSlash(name)) }

  lemma BracketedPiece(front: Str, digits: Str)
    ensures PieceOk(front + ("[" + digits + "]"))
  {
    var piece := front + ("[" + digits + "]");
    assert piece[|front|] == '[' && piece[|piece| - 1] == ']';
  }

  /** A segment is cut where its name is. */
  lemma CutOfSegment(name: Str, index: nat)
    ensures var s := SegmentText(name, index);
            && (HasSlash(s) <==> HasSlash(name)) && PieceOk(BehindSlash(s))
            && (HasSlash(name) ==> BeforeSlash(s) == BeforeSlash(name))
  {
    hide PieceOk, HasSlash, BeforeSlash, BehindSlash, Decimal;
    var rest := "[" + Decimal(index) + "]";
    SegmentIs(name, index);
    IndexHasNoSlash(index);
    CutOfLonger(name, rest);
    BracketedPiece(BehindSlash(name), Decimal(index));
  }

  lemma IndexHasNoSlash(index: nat)
    ensures '/' !in "[" + Decimal(index) + "]"
  {
    DecimalDigits(index);
  }

  /** The piece that ends a segment is bracketed. */
  lemma SegmentPassable(name: Str, index: nat)
    ensures Passable(SegmentText(name, index)) <==> ClimbableName(name)
  {
    hide PieceOk, HasSlash, BeforeSlash, BehindSlash, SegmentText;
    CutOfSegment(name, index);
  }

  lemma PlainClimbable(name: Str)
    requires '/' !in name
    ensures ClimbableName(name)
  {
  }

  /** Nothing selected is met before `path` is. */
  ghost predicate NothingMet(x: Str, path: Str, selected: set<Str>) {
    forall u :: u in selected && |u| > |path| ==> !IsWithinScope(x, u)
  }

  lemma NotMet(path: Str, s: Str, selected: set<Str>)
    requires NothingMet(Below(path, s), path, selected)
    ensures Below(path, s) !in selected
    ensures HasSlash(s) ==> NothingMet(Below(path, BeforeSlash(s)), path, selected)
  {
    hide IsWithinScope, HasSlash, BeforeSlash, BehindSlash, Below;
    var x := Below(path, s);
    CutOf(path, s);
    BelowJoin(path, s, |path|);
    WithinItsOwn(x);
    if HasSlash(s) {
      forall u | u in selected && |u| > |path| ensures !IsWithinScope(Below(path, BeforeSlash(s)), u) {
        WithinByLastSlash(x, u);
      }
    }
  }

  lemma WithinItsOwn(x: Str)
    ensures IsWithinScope(x, x)
  {
  }

  /** The climb over one segment, when nothing selected is met on the way. */
  lemma {:induction false} ClimbSegment(path: Str, s: Str, selected: set<Str>)
    requires [] !in selected && NothingMet(Below(path, s), path, selected)
    ensures Climb(Below(path, s), selected) <==> Passable(s) && Climb(path, selected)
    decreases |s|
  {
    hide Climb, PieceOk, NothingMet, HasSlash, BeforeSlash, BehindSlash, Below;
    NotMet(path, s, selected);
    CutOf(path, s);
    ClimbStep(Below(path, s), selected);
    if HasSlash(s) {
      ClimbSegment(path, BeforeSlash(s), selected);
    }
  }

  /** With documents only at the root, the walk visits just what the path lemmas speak of. */
  lemma {:induction false} VisitedIsWalked(root: Node, p: Pos)
    requires ProperTree(root) && Reached(root, p)
    ensures At(root, p).kind.ElementNode? ==> IsWalked(root, p)
    decreases |p|
  {
    if p != [] {
      VisitedIsWalked(root, Parent(p));
    }
  }

  ghost predicate Unambiguous(root: Node) { ProperTree(root) && HonestNames(root) }

  lemma PathMeansPosition(root: Node, p: Pos, q: Pos)
    requires Unambiguous(root) && Visited(root, p) && Visited(root, q)
    ensures PathAt(root, p) == PathAt(root, q) <==> p == q
    ensures IsWithinScope(PathAt(root, p), PathAt(root, q)) <==> q <= p
  {
    VisitedIsWalked(root, p);
    VisitedIsWalked(root, q);
    PathsAreUnique(root, p, q);
    ScopeIsAncestry(root, p, q);
  }

  lemma PathNotEmpty(root: Node, p: Pos)
    requires Visited(root, p)
    ensures PathAt(root, p) != []
  {
    hide Slashed;
    assert OwnSegments(root, p) != [];
  }

  lemma NoEmptyPath(root: Node, selected: set<Pos>)
    ensures [] !in PathsOf(root, selected)
  {
    forall p | p in selected && Visited(root, p) ensures PathAt(root, p) != [] {
      PathNotEmpty(root, p);
    }
  }

  function NameAt(root: Node, p: Pos): Str { if InTree(root, p) then At(root, p).name else [] }

  /** The climb passes every name from `p` up to just below `q`. */
  ghost predicate Reaches(root: Node, p: Pos, q: Pos) {
    q <= p && forall k :: |q| < k <= |p| ==> ClimbableName(NameAt(root, p[..k]))
  }

  /** A selected element at or above `p` that the climb from `p` reaches. */
  ghost predicate Reachable(root: Node, p: Pos, selected: set<Pos>) {
    exists q :: q in selected && Visited(root, q) && Reaches(root, p, q)
  }

  /** Whatever a selected element holds reaches one. */
  ghost predicate NoneStuck(root: Node, selected: set<Pos>) {
    forall p :: Visited(root, p) && Held(root, p, selected) ==> Reachable(root, p, selected)
  }

  lemma ReachableIsHeld(root: Node, p: Pos, selected: set<Pos>)
    requires Reachable(root, p, selected)
    ensures Held(root, p, selected)
  {
    hide Visited, ClimbableName, NameAt;
    var q :| q in selected && Visited(root, q) && Reaches(root, p, q);
  }

  lemma ReachableByItself(root: Node, p: Pos, selected: set<Pos>)
    requires Visited(root, p) && p in selected
    ensures Reachable(root, p, selected)
  {
    assert Reaches(root, p, p);
  }

  /** An unselected element reaches what its parent reaches, if the climb passes its own name. */
  lemma ReachableStep(root: Node, p: Pos, selected: set<Pos>)
    requires p != [] && p !in selected
    ensures Reachable(root, p, selected) <==> ClimbableName(NameAt(root, p)) && Reachable(root, Parent(p), selected)
  {
    hide ClimbableName, NameAt, Visited;
    var p0 := Parent(p);
    assert p[..|p|] == p && forall k :: 0 <= k <= |p0| ==> p[..k] == p0[..k];
    if Reachable(root, p, selected) {
      var q :| q in selected && Visited(root, q) && Reaches(root, p, q);
      AboveOrSame(q, p);
      assert Reaches(root, p0, q);
    }
    if ClimbableName(NameAt(root, p)) && Reachable(root, p0, selected) {
      var q :| q in selected && Visited(root, q) && Reaches(root, p0, q);
      assert q <= p;
      assert Reaches(root, p, q);
    }
  }

  lemma NotReachable(root: Node, p: Pos, selected: set<Pos>)
    requires Visited(root, p) && p !in selected && (p == [] || (Parent(p) == [] && root.kind.DocumentNode?))
    ensures !Reachable(root, p, selected)
  {
    forall q | q in selected && Visited(root, q) ensures !(q <= p) {
      AboveOrSame(q, p);
    }
  }

  lemma AboveOrSame(q: Pos, p: Pos)
    ensures q <= p <==> q == p || (p != [] && q <= Parent(p))
  {
    if q <= p && q != p {
      assert Parent(p)[..|q|] == p[..|q|];
    }
  }

  /** From an element the climb meets a selected path exactly if it reaches a selected element. */
  lemma {:induction false} ElementClimbs(root: Node, p: Pos, selected: set<Pos>)
    requires Unambiguous(root) && Visited(root, p)
    ensures Climb(PathAt(root, p), PathsOf(root, selected)) <==> Reachable(root, p, selected)
    decreases |p|
  {
    hide Unambiguous, PathAt, PathsOf, Climb, Reachable, ClimbableName;
    NoEmptyPath(root, selected);
    if p in selected {
      PathIsThere(root, p, selected);
      ReachableByItself(root, p, selected);
    } else if p == [] || At(root, Parent(p)).kind.DocumentNode? {
      TopElement(root, p, selected);
      NotReachable(root, p, selected);
    } else {
      ElementClimbs(root, Parent(p), selected);
      InnerElement(root, p, selected);
      ReachableStep(root, p, selected);
    }
  }

  lemma PathIsThere(root: Node, p: Pos, selected: set<Pos>)
    requires Visited(root, p) && p in selected
    ensures PathAt(root, p) in PathsOf(root, selected) && Climb(PathAt(root, p), PathsOf(root, selected))
  {
  }

  lemma SegmentAt(root: Node, p: Pos) returns (index: nat)
    requires Visited(root, p)
    ensures PathAt(root, p)
            == Below(if p == [] || At(root, Parent(p)).kind.DocumentNode? then [] else PathAt(root, Parent(p)),
                     SegmentText(At(root, p).name, index))
  {
    hide SegmentText, Slashed;
    var name := At(root, p).name;
    index := if p == [] then 1 else 1 + ElderCount(At(root, Parent(p)).children, Last(p), name);
    var own := SegmentText(name, index);
    if p != [] {
      ChildOf(root, p);
      SlashedSnoc(Segments(root, Parent(p)), own);
    }
    assert OwnSegments(root, p) == [own];
    SlashedSnoc([], own);
    assert [] + [own] == [own] && Slashed([]) == [];
  }

  lemma TopElement(root: Node, p: Pos, selected: set<Pos>)
    requires Unambiguous(root) && Visited(root, p) && p !in selected
    requires p == [] || At(root, Parent(p)).kind.DocumentNode?
    ensures !Climb(PathAt(root, p), PathsOf(root, selected))
    ensures p == [] || (Parent(p) == [] && root.kind.DocumentNode?)
  {
    hide HonestNames, PathOf, PathsOf, Climb, SegmentText, IsWithinScope;
    var index := SegmentAt(root, p);
    NoEmptyPath(root, selected);
    forall u | u in PathsOf(root, selected) ensures !IsWithinScope(PathAt(root, p), u) {
      var q := PathOwner(root, selected, u);
      PathMeansPosition(root, p, q);
      AboveOrSame(q, p);
    }
    ClimbSegment([], SegmentText(At(root, p).name, index), PathsOf(root, selected));
    ClimbNothing(PathsOf(root, selected));
  }

  lemma ClimbNothing(selected: set<Str>)
    requires [] !in selected
    ensures !Climb([], selected)
  {
  }

  lemma PathOwner(root: Node, selected: set<Pos>, u: Str) returns (q: Pos)
    requires u in PathsOf(root, selected)
    ensures q in selected && Visited(root, q) && u == PathAt(root, q)
  {
    q :| q in selected && Visited(root, q) && u == PathAt(root, q);
  }

  lemma InnerElement(root: Node, p: Pos, selected: set<Pos>)
    requires Unambiguous(root) && Visited(root, p) && p !in selected
    requires p != [] && !At(root, Parent(p)).kind.DocumentNode?
    ensures Visited(root, Parent(p))
    ensures Climb(PathAt(root, p), PathsOf(root, selected))
            <==> ClimbableName(NameAt(root, p)) && Climb(PathAt(root, Parent(p)), PathsOf(root, selected))
  {
    hide Unambiguous, PathAt, PathsOf, Climb, SegmentText, IsWithinScope, ClimbableName, Passable;
    var index := SegmentAt(root, p);
    var parent, own := PathAt(root, Parent(p)), SegmentText(At(root, p).name, index);
    NoEmptyPath(root, selected);
    forall u | u in PathsOf(root, selected) && |u| > |parent| ensures !IsWithinScope(Below(parent, own), u) {
      var q := PathOwner(root, selected, u);
      PathMeansPosition(root, p, q);
      PathMeansPosition(root, Parent(p), q);
      AboveOrSame(q, p);
      WithinIsShorter(parent, u);
    }
    ClimbSegment(parent, own, PathsOf(root, selected));
    SegmentPassable(At(root, p).name, index);
  }

  lemma WithinIsShorter(x: Str, scope: Str)
    ensures IsWithinScope(x, scope) ==> |scope| <= |x|
  {
  }

  /** From a text the climb goes on from its element, unless the text's path is itself selected. */
  lemma TextClimbs(root: Node, p: Pos, i: nat, selected: set<Pos>)
    requires Unambiguous(root) && Visited(root, p) && i >= 1
    ensures Climb(EventPath(root, p, i), PathsOf(root, selected))
            <==> EventPath(root, p, i) in PathsOf(root, selected) || Reachable(root, p, selected)
  {
    hide Unambiguous, PathAt, PathsOf, Climb, SegmentText, IsWithinScope, Passable, Reachable;
    var path, own := PathAt(root, p), SegmentText("text()", i);
    ElementClimbs(root, p, selected);
    NoEmptyPath(root, selected);
    TextPassable(i);
    if Below(path, own) in PathsOf(root, selected) {
      SelectedClimbs(Below(path, own), PathsOf(root, selected));
    } else {
      forall u | u in PathsOf(root, selected) && |u| > |path| ensures !IsWithinScope(Below(path, own), u) {
        AboveText(path, i, u);
      }
      ClimbSegment(path, own, PathsOf(root, selected));
    }
  }

  lemma SelectedClimbs(x: Str, selected: set<Str>)
    requires x in selected
    ensures Climb(x, selected)
  {
  }

  lemma TextPassable(i: nat)
    ensures Passable(SegmentText("text()", i))
  {
    hide Passable, SegmentText, ClimbableName;
    PlainClimbable("text()");
    SegmentPassable("text()", i);
  }

  lemma AboveText(path: Str, i: nat, u: Str)
    requires |u| > |path| && u != Below(path, SegmentText("text()", i))
    ensures !IsWithinScope(Below(path, SegmentText("text()", i)), u)
  {
    hide SegmentText, IsWithinScope, Below, HasSlash, BeforeSlash, BehindSlash;
    var own := SegmentText("text()", i);
    TextHasNoSlash(i);
    CutOf(path, own);
    WithinByLastSlash(Below(path, own), u);
    WithinIsShorter(path, u);
  }

  lemma TextHasNoSlash(i: nat)
    ensures !HasSlash(SegmentText("text()", i))
  {
    hide SegmentText, HasSlash, BeforeSlash, BehindSlash, PieceOk;
    CutOfSegment("text()", i);
    NothingToCut("text()");
  }

  // an element that has the path of a text

  /**
   * A selected element called `text()` whose path is also that of a text of its parent, where nothing that is selected
   * holds the parent.
   */
  ghost predicate Clashes(root: Node, selected: set<Pos>, q: Pos) {
    q in selected && q != [] && Visited(root, q) && At(root, q).name == "text()"
    && At(root, Parent(q)).kind.ElementNode?
    && 1 + ElderCount(At(root, Parent(q)).children, Last(q), "text()") <= Texts(root, Parent(q))
    && !Held(root, Parent(q), selected)
  }

  ghost predicate NoClash(root: Node, selected: set<Pos>) { forall q :: q in selected ==> !Clashes(root, selected, q) }

  /** The element has the path of a text exactly if it is a child of the text's element, called `text()`, in the same place. */
  lemma TextPathElement(root: Node, p: Pos, i: nat, q: Pos)
    requires Unambiguous(root) && Visited(root, p) && Visited(root, q) && i >= 1
    ensures PathAt(root, q) == EventPath(root, p, i) <==>
            q != [] && Parent(q) == p && At(root, q).name == "text()"
            && i == 1 + ElderCount(At(root, p).children, Last(q), "text()")
  {
    VisitedIsWalked(root, p);
    VisitedIsWalked(root, q);
    hide PathOf, Segments, SegmentText, ElderCount, IsWalked, Unambiguous, ProperTree;
    if PathAt(root, q) == EventPath(root, p, i) {
      TextPathSegments(root, p, i, q);
      OneDeeper(root, p, q);
      OwnOfTwo(root, p, q, i);
    } else if q != [] && Parent(q) == p && At(root, q).name == "text()" {
      TextElementPath(root, q);
    }
  }

  lemma TextElementPath(root: Node, q: Pos)
    requires q != [] && Visited(root, q) && At(root, Parent(q)).kind.ElementNode? && At(root, q).name == "text()"
    ensures PathOf(root, q)
            == Below(PathOf(root, Parent(q)),
                     SegmentText("text()", 1 + ElderCount(At(root, Parent(q)).children, Last(q), "text()")))
  {
    ChildOf(root, q);
    assert q == Parent(q) + [Last(q)];
    hide PathOf, SegmentText, ElderCount;
    ChildPathIsPathOf(root, Parent(q), Last(q));
  }

  lemma TextSegmentHonest(i: nat)
    requires i >= 1
    ensures HonestSegment(SegmentText("text()", i))
  {
    PlainIsHonest("text()");
    assert IsSegment(SegmentText("text()", i), "text()", i);
  }

  lemma TextPathSegments(root: Node, p: Pos, i: nat, q: Pos)
    requires Unambiguous(root) && IsWalked(root, p) && IsWalked(root, q) && i >= 1
    requires PathOf(root, q) == Below(PathOf(root, p), SegmentText("text()", i))
    ensures Segments(root, q) == Segments(root, p) + [SegmentText("text()", i)]
  {
    var last := SegmentText("text()", i);
    hide ProperTree, HonestNames, Segments, SegmentText, IsWalked, HonestSegment, Slashed;
    WalkedHonest(root, p);
    WalkedHonest(root, q);
    TextSegmentHonest(i);
    SlashedSnoc(Segments(root, p), last);
    SlashedInjective(Segments(root, q), Segments(root, p) + [last]);
  }

  lemma OneDeeper(root: Node, p: Pos, q: Pos)
    requires IsWalked(root, p) && IsWalked(root, q) && |Segments(root, q)| == |Segments(root, p)| + 1
    ensures q != [] && IsWalked(root, Parent(q)) && !At(root, Parent(q)).kind.DocumentNode?
  {
    hide Lookup, Segments;
    WalkedSegments(root, p);
    WalkedSegments(root, q);
    assert |q| == |p| + 1;
  }

  lemma OwnOfTwo(root: Node, p: Pos, q: Pos, i: nat)
    requires IsWalked(root, p) && IsWalked(root, q)
    requires q != [] && IsWalked(root, Parent(q)) && !At(root, Parent(q)).kind.DocumentNode?
    requires Segments(root, q) == Segments(root, p) + [SegmentText("text()", i)]
    ensures Parent(q) == p && At(root, q).name == "text()"
    ensures i == 1 + ElderCount(At(root, p).children, Last(q), "text()")
  {
    hide Segments, SegmentText, ElderCount;
    ChildOf(root, q);
    WalkedStep(root, q);
    hide Lookup, IsWalked;
    var own := ChildSegment(At(root, Parent(q)).children, Last(q));
    LastOfTwo(Segments(root, Parent(q)), own, Segments(root, p), SegmentText("text()", i));
    SegmentsInjective(root, Parent(q), p);
    var name := At(root, q).name;
    SegmentInjective(name, 1 + ElderCount(At(root, p).children, Last(q), name), "text()", i);
  }

  /** Where nothing clashes, a text's own path is selected only if the text is held anyway. */
  lemma SelectedText(root: Node, p: Pos, i: nat, selected: set<Pos>)
    requires Unambiguous(root) && NoClash(root, selected)
    requires Visited(root, p) && 1 <= i <= Texts(root, p) && EventPath(root, p, i) in PathsOf(root, selected)
    ensures Held(root, p, selected)
  {
    hide Unambiguous, PathAt, EventPath, PathsOf, Held, Texts, ElderCount;
    var q := PathOwner(root, selected, EventPath(root, p, i));
    TextPathElement(root, p, i, q);
    assert !Clashes(root, selected, q);
  }

  lemma ClashDisagrees(root: Node, selected: set<Pos>, q: Pos)
    requires Unambiguous(root) && Clashes(root, selected, q)
    ensures !ClimbsAgree(root, selected)
  {
    hide Unambiguous, PathAt, EventPath, PathsOf, Held, Texts, ElderCount, Climb;
    var p, i := Parent(q), 1 + ElderCount(At(root, Parent(q)).children, Last(q), "text()");
    TextPathElement(root, p, i, q);
    PathIsThere(root, q, selected);
    assert Climb(EventPath(root, p, i), PathsOf(root, selected));
  }

  /** In names: nothing clashes, and no name on the way up to what holds an element stops the climb. */
  lemma ClimbsAgreeIff(root: Node, selected: set<Pos>)
    requires Unambiguous(root)
    ensures ClimbsAgree(root, selected) <==> NoClash(root, selected) && NoneStuck(root, selected)
  {
    hide Unambiguous, Clashes, PathsOf, PathAt, Held, Reachable, Texts, Climb, Visited, EventPath;
    if ClimbsAgree(root, selected) {
      forall q | q in selected ensures !Clashes(root, selected, q) {
        if Clashes(root, selected, q) { ClashDisagrees(root, selected, q); }
      }
      forall p | Visited(root, p) && Held(root, p, selected) ensures Reachable(root, p, selected) {
        ElementClimbs(root, p, selected);
        OwnEventPath(root, p);
        assert Climb(EventPath(root, p, 0), PathsOf(root, selected));
      }
    }
    if NoClash(root, selected) && NoneStuck(root, selected) {
      forall p: Pos, i: nat | Visited(root, p) && i <= Texts(root, p)
        ensures Climb(EventPath(root, p, i), PathsOf(root, selected)) <==> Held(root, p, selected)
      {
        ClimbsHere(root, p, i, selected);
      }
    }
  }

  lemma OwnEventPath(root: Node, p: Pos)
    ensures EventPath(root, p, 0) == PathAt(root, p) && 0 <= Texts(root, p)
  {
  }

  lemma ClimbsHere(root: Node, p: Pos, i: nat, selected: set<Pos>)
    requires Unambiguous(root) && NoClash(root, selected) && NoneStuck(root, selected)
    requires Visited(root, p) && i <= Texts(root, p)
    ensures Climb(EventPath(root, p, i), PathsOf(root, selected)) <==> Held(root, p, selected)
  {
    hide Unambiguous, NoClash, PathsOf, PathAt, Held, Reachable, Texts, Climb, Visited, EventPath;
    if Reachable(root, p, selected) { ReachableIsHeld(root, p, selected); }
    if i == 0 {
      OwnEventPath(root, p);
      ElementClimbs(root, p, selected);
    } else {
      TextClimbs(root, p, i, selected);
      if EventPath(root, p, i) in PathsOf(root, selected) { SelectedText(root, p, i, selected); }
    }
  }

  /**
   * Where paths are unambiguous, the filter keeps exactly the selected subtrees if and only if nothing clashes and the
   * climb gets stuck at no name.
   */
  lemma FilterKeepsUnlessStuck(root: Node, matches: seq<Pos>)
    requires Unambiguous(root)
    ensures var selected := set p | p in matches;
            Filter(DocumentEvents(root), SelectedPaths(root, matches))
            == KeptTree(root, [], PathOf(root, []), 0, selected)
            <==> NoClash(root, selected) && NoneStuck(root, selected)
  {
    hide *;
    FilterKeepsSelectedSubtrees(root, matches);
    ClimbsAgreeIff(root, set p | p in matches);
  }

  // ----- a document where a text clashes, and one where the climb gets stuck -----

  /** No document inside, and no bracket in an element's name, here and below. */
  predicate Tame(n: Node) {
    (n.kind.ElementNode? ==> '[' !in n.name) && forall c :: c in n.children ==> !c.kind.DocumentNode? && Tame(c)
  }

  lemma {:induction false} TameAt(root: Node, p: Pos)
    requires Tame(root) && InTree(root, p)
    ensures Tame(At(root, p)) && (p != [] ==> !At(root, p).kind.DocumentNode?)
    decreases |p|
  {
    if p != [] {
      TameAt(root, Parent(p));
      ChildOf(root, p);
      assert At(root, p) in At(root, Parent(p)).children;
    }
  }

  lemma BracketlessIsHonest(name: Str)
    requires '[' !in name
    ensures !Deceptive(name)
  {
    forall x: Str, k: nat, y: Str ensures !Holds(name, x, k, y) {
      assert (SegmentText(x, k) + "/" + y)[|x|] == '[';
    }
  }

  lemma TameIsUnambiguous(root: Node)
    requires Tame(root)
    ensures Unambiguous(root)
  {
    hide Deceptive;
    forall p | InTree(root, p)
      ensures (At(root, p).kind.ElementNode? ==> !Deceptive(At(root, p).name))
              && (p != [] ==> !At(root, p).kind.DocumentNode?)
    {
      TameAt(root, p);
      if At(root, p).kind.ElementNode? { BracketlessIsHonest(At(root, p).name); }
    }
  }

  /** The text `hi`, and behind it an element called `text()`. */
  function TextBesideElement(): Node {
    Node(ElementNode, "p", [], [], [Node(TextNode, [], [], "hi", []), Node(ElementNode, "text()", [], [], [])])
  }

  lemma TextIsBeside()
    ensures Tame(TextBesideElement()) && Clashes(TextBesideElement(), {[1]}, [1])
  {
    var root := TextBesideElement();
    assert Tame(root.children[0]) && Tame(root.children[1]);
    var q: Pos := [1];
    assert Parent(q) == [] && Last(q) == 1 && At(root, []) == root && At(root, q) == root.children[1];
    var hi: Str, h: Byte := "hi", 'h';
    assert hi[0] == h && h in hi && !IsBlank(h);
    assert Renderable(hi);
    assert TextCount(root, 0) == 0 && TextCount(root, 1) == 1 && TextCount(root, 2) == 1;
    assert ElderCount(root.children, 1, "text()") == 0;
    hide TextCount, ElderCount;
    assert !Held(root, [], {q});
  }

  /** Selecting the element keeps the text as well. */
  lemma TextBesideElementClashes()
    ensures var root := TextBesideElement();
            Filter(DocumentEvents(root), SelectedPaths(root, [[1]]))
            != KeptTree(root, [], PathOf(root, []), 0, set p | p in [[1]])
  {
    var root, q: Pos := TextBesideElement(), [1];
    TextIsBeside();
    TameIsUnambiguous(root);
    assert (set p | p in [q]) == {q};
    hide Filter, KeptTree, DocumentEvents, SelectedPaths, PathOf, Unambiguous, Clashes, NoneStuck;
    assert q in {q};
    assert !NoClash(root, {q});
    FilterKeepsUnlessStuck(root, [q]);
  }

  /** An element with a slash in its name, inside another one. */
  function SlashInside(): Node { Node(ElementNode, "x", [], [], [Node(ElementNode, "a/b", [], [], [])]) }

  lemma SlashIsInside()
    ensures var root := SlashInside();
            Tame(root) && Visited(root, []) && Visited(root, [0]) && NameAt(root, [0]) == "a/b"
  {
    var root, p: Pos := SlashInside(), [0];
    assert Tame(root.children[0]);
    assert Parent(p) == [] && At(root, []) == root && At(root, p) == root.children[0];
  }

  lemma SlashSticks()
    ensures !NoneStuck(SlashInside(), {[]})
  {
    hide SlashInside, Visited, NameAt, ClimbableName, Held, Reachable;
    var root, top: Pos, p: Pos := SlashInside(), [], [0];
    SlashIsInside();
    NameSticks();
    StuckBelow(root, top, p);
  }

  lemma StuckBelow(root: Node, top: Pos, p: Pos)
    requires Visited(root, top) && top < p && !ClimbableName(NameAt(root, p))
    ensures Held(root, p, {top}) && !Reachable(root, p, {top})
  {
    hide Visited, ClimbableName, NameAt;
    assert top in {top} && top <= p && p[..|p|] == p;
    assert !Reaches(root, p, top);
  }

  lemma NameSticks()
    ensures !ClimbableName("a/b")
  {
    var name, front: Str := "a/b", "a";
    assert name[1] == '/' && name[2] == 'b' && FindLast(name, '/') == 1 && name[..1] == front;
    assert FindLast(front, '/') == -1 && front[0..] == front && !PieceOk(front);
  }

  /** Selecting the outer element loses the inner one. */
  lemma SlashStopsTheClimb()
    ensures var root := SlashInside();
            Filter(DocumentEvents(root), SelectedPaths(root, [[]]))
            != KeptTree(root, [], PathOf(root, []), 0, set p | p in [[]])
  {
    var root, q: Pos := SlashInside(), [];
    SlashSticks();
    SlashIsInside();
    TameIsUnambiguous(root);
    assert (set p | p in [q]) == {q};
    hide Filter, KeptTree, DocumentEvents, SelectedPaths, PathOf, Unambiguous, NoClash, NoneStuck;
    FilterKeepsUnlessStuck(root, [q]);
  }
}
