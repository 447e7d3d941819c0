/** What the events of a lowered document say, in terms of the tree alone (src/core/ir_model.cpp). */
module IrContent {
  import opened Bytes
  import opened Dom
  import opened Layout
  import opened Slashes
  import opened LayoutPaths
  import opened EventStream
  import opened IrModel

  // ----- what there is to say -----

  /** An element that opens or closes, one of its attributes, or a text. */
  datatype Mark = Opens(at: Pos) | Attr(at: Pos, index: nat) | Says(at: Pos) | Closes(at: Pos)

  /** A text child that is not blank, of an element that the walk visits. */
  predicate IsText(root: Node, q: Pos) {
    q != [] && InTree(root, q) && At(root, q).kind.TextNode? && Renderable(At(root, q).text) && Visited(root, Parent(q))
  }

  predicate Expected(root: Node, m: Mark) {
    match m
    case Opens(p) => Visited(root, p)
    case Attr(p, i) => Visited(root, p) && i < |At(root, p).attributes|
    case Says(q) => IsText(root, q)
    case Closes(p) => Visited(root, p)
  }

  /** How many elements lie above a position. */
  function DepthAt(root: Node, p: Pos): nat
    requires InTree(root, p)
  {
    if p == [] then 0 else DepthAt(root, Parent(p)) + if At(root, Parent(p)).kind.ElementNode? then 1 else 0
  }

  /** Which of the first `k` children are text and not blank. */
  function TextsAmong(children: seq<Node>, k: nat): set<nat>
    requires k <= |children|
  {
    set j | 0 <= j < k && children[j].kind.TextNode? && Renderable(children[j].text)
  }

  /** The number of a text among its siblings. */
  function TextIndex(root: Node, q: Pos): nat
    requires InTree(root, q) && q != []
  {
    1 + |TextsAmong(At(root, Parent(q)).children, Last(q))|
  }

  /** All text nodes at or below a node, in document order. */
  function TextPositions(n: Node, p: Pos): seq<Pos>
    decreases n, 1, 0
  {
    if n.kind.TextNode? then [p] else TextsOfChildren(n, p, |n.children|)
  }

  function TextsOfChildren(n: Node, p: Pos, k: nat): seq<Pos>
    requires k <= |n.children|
    decreases n, 0, k
  {
    if k == 0 then [] else TextsOfChildren(n, p, k - 1) + TextPositions(n.children[k - 1], p + [k - 1])
  }

  function TextAt(root: Node, q: Pos): Str { if InTree(root, q) then At(root, q).text else [] }

  function Joined(root: Node, qs: seq<Pos>): Str {
    if qs == [] then [] else Joined(root, qs[..|qs| - 1]) + TextAt(root, qs[|qs| - 1])
  }

  /** The event is what the mark calls for, field by field. */
  predicate Describes(root: Node, m: Mark, e: Event) {
    Expected(root, m)
    && match m
       case Opens(p) =>
         var n := At(root, p);
         e.kind == "start" && e.xpath == PathOf(root, p) && e.tag == n.name && e.depth == DepthAt(root, p)
         && e.name == [] && e.value == [] && e.attributes == n.attributes
         && e.subtreeText == Joined(root, TextPositions(n, p))
       case Attr(p, i) =>
         var n := At(root, p);
         e.kind == "attribute" && e.xpath == PathOf(root, p) && e.tag == n.name && e.depth == DepthAt(root, p)
         && e.name == n.attributes[i].name && e.value == n.attributes[i].value && e.attributes == [] && e.subtreeText == []
       case Says(q) =>
         var p := Parent(q);
         e.kind == "text" && e.xpath == PathOf(root, p) + "/text()[" + Decimal(TextIndex(root, q)) + "]"
         && e.tag == At(root, p).name && e.depth == DepthAt(root, q)
         && e.name == [] && e.value == At(root, q).text && e.attributes == [] && e.subtreeText == []
       case Closes(p) =>
         e.kind == "end" && e.xpath == PathOf(root, p) && e.tag == At(root, p).name && e.depth == DepthAt(root, p)
         && e.name == [] && e.value == [] && e.attributes == [] && e.subtreeText == []
  }

  // ----- in which order -----

  function MarksOf(n: Node, p: Pos): seq<Mark>
    decreases n, 2, 0
  {
    if n.kind.DocumentNode? then ChildrenMarks(n, p, |n.children|)
    else if n.kind.ElementNode? then
      [Opens(p)] + AttrMarks(p, |n.attributes|) + ChildrenMarks(n, p, |n.children|) + [Closes(p)]
    else []
  }

  function AttrMarks(p: Pos, k: nat): seq<Mark> { if k == 0 then [] else AttrMarks(p, k - 1) + [Attr(p, k - 1)] }

  function ChildrenMarks(n: Node, p: Pos, k: nat): seq<Mark>
    requires k <= |n.children|
    decreases n, 1, k
  {
    if k == 0 then [] else ChildrenMarks(n, p, k - 1) + ChildMarks(n, p, k - 1)
  }

  function ChildMarks(n: Node, p: Pos, i: nat): seq<Mark>
    requires i < |n.children|
    decreases n, 0, i
  {
    var c := n.children[i];
    if Descends(n, c) then MarksOf(c, p + [i])
    else if n.kind.ElementNode? && c.kind.TextNode? && Renderable(c.text) then [Says(p + [i])]
    else []
  }

  // ----- the stream says it -----

  predicate Described(root: Node, ms: seq<Mark>, es: seq<Event>) {
    |ms| == |es| && forall i :: 0 <= i < |ms| ==> Describes(root, ms[i], es[i])
  }

  lemma DescribedAppend(root: Node, a: seq<Mark>, b: seq<Mark>, c: seq<Event>, d: seq<Event>)
    requires Described(root, a, c) && Described(root, b, d)
    ensures Described(root, a + b, c + d)
  {
    hide Describes;
  }

  lemma {:induction false} TextCountIs(n: Node, k: nat)
    requires k <= |n.children|
    ensures TextCount(n, k) == |TextsAmong(n.children, k)|
  {
    hide Renderable;
    if k > 0 {
      TextCountIs(n, k - 1);
      var before, all := TextsAmong(n.children, k - 1), TextsAmong(n.children, k);
      if n.children[k - 1].kind.TextNode? && Renderable(n.children[k - 1].text) {
        assert all == before + {k - 1};
      } else {
        assert all == before;
      }
    }
  }

  lemma {:induction false} JoinedAppend(root: Node, a: seq<Pos>, b: seq<Pos>)
    ensures Joined(root, a + b) == Joined(root, a) + Joined(root, b)
  {
    if b == [] {
      EmptyIsUnit(a);
      EmptyIsUnit(Joined(root, a));
    } else {
      hide Joined, TextAt;
      var rest, last := b[..|b| - 1], b[|b| - 1];
      JoinedAppend(root, a, rest);
      JoinedSnoc(root, rest, last);
      JoinedSnoc(root, a + rest, last);
      Unsnoc(b);
      Associate(a, rest, [last]);
      Associate(Joined(root, a), Joined(root, rest), TextAt(root, last));
    }
  }

  lemma JoinedSnoc(root: Node, qs: seq<Pos>, q: Pos)
    ensures Joined(root, qs + [q]) == Joined(root, qs) + TextAt(root, q)
  {
    hide TextAt;
    assert (qs + [q])[..|qs|] == qs;
  }

  /** The text content is the text of every text node below, in order. */
  lemma {:induction false} ContentIsJoined(root: Node, p: Pos)
    requires InTree(root, p)
    ensures TextContent(At(root, p)) == Joined(root, TextPositions(At(root, p), p))
    decreases At(root, p), 1, 0
  {
    var n := At(root, p);
    if n.kind.TextNode? {
      assert [p][..0] == [];
    } else {
      ContentOfChildren(root, p, |n.children|);
    }
  }

  lemma {:induction false} ContentOfChildren(root: Node, p: Pos, k: nat)
    requires InTree(root, p) && k <= |At(root, p).children|
    ensures TextOfChildren(At(root, p), k) == Joined(root, TextsOfChildren(At(root, p), p, k))
    decreases At(root, p), 0, k
  {
    NothingJoined(root);
    hide Joined, TextContent, TextPositions, Lookup;
    if k > 0 {
      var n := At(root, p);
      ContentOfChildren(root, p, k - 1);
      ChildAt(root, p, k - 1);
      ContentIsJoined(root, p + [k - 1]);
      JoinedAppend(root, TextsOfChildren(n, p, k - 1), TextPositions(n.children[k - 1], p + [k - 1]));
    }
  }

  lemma NothingJoined(root: Node)
    ensures Joined(root, []) == []
  {
  }

  lemma {:induction false} AttributesDescribed(root: Node, p: Pos, k: nat)
    requires Visited(root, p) && k <= |At(root, p).attributes|
    ensures Described(root, AttrMarks(p, k), AttributeEvents(At(root, p), PathOf(root, p), DepthAt(root, p), k))
  {
    hide Visited, PathOf, Lookup, Joined, TextPositions;
    if k > 0 {
      AttributesDescribed(root, p, k - 1);
    }
  }

  lemma ElementDescribed(root: Node, p: Pos)
    requires Visited(root, p)
    ensures var n, path, depth := At(root, p), PathOf(root, p), DepthAt(root, p);
            && Described(root, [Opens(p)], [StartEvent(n, path, depth)])
            && Described(root, [Closes(p)], [EndEvent(n, path, depth)])
  {
    ContentIsJoined(root, p);
    hide Visited, PathOf, Lookup, Joined, TextPositions, TextContent;
  }

  lemma {:induction false} TreeDescribed(root: Node, p: Pos)
    requires Reached(root, p)
    ensures Described(root, MarksOf(At(root, p), p), TreeEvents(At(root, p), PathOf(root, p), DepthAt(root, p)))
    decreases At(root, p), 2, 0
  {
    hide Described, PathOf, AttrMarks, AttributeEvents, ChildrenMarks, ChildrenEvents, StartEvent, EndEvent;
    var n, path, depth := At(root, p), PathOf(root, p), DepthAt(root, p);
    if IsBranch(n) {
      ChildrenDescribed(root, p, |n.children|);
    }
    if n.kind.ElementNode? {
      ElementDescribed(root, p);
      AttributesDescribed(root, p, |n.attributes|);
      var attrs, inside := AttrMarks(p, |n.attributes|), ChildrenMarks(n, p, |n.children|);
      var attributes, inner := AttributeEvents(n, path, depth, |n.attributes|), ChildrenEvents(n, path, depth, |n.children|);
      var s, e := StartEvent(n, path, depth), EndEvent(n, path, depth);
      DescribedAppend(root, [Opens(p)], attrs, [s], attributes);
      DescribedAppend(root, [Opens(p)] + attrs, inside, [s] + attributes, inner);
      DescribedAppend(root, [Opens(p)] + attrs + inside, [Closes(p)], [s] + attributes + inner, [e]);
    } else if !IsBranch(n) {
      NothingDescribed(root);
    }
  }

  lemma NothingDescribed(root: Node)
    ensures Described(root, [], [])
  {
  }

  lemma {:induction false} ChildrenDescribed(root: Node, p: Pos, k: nat)
    requires Reached(root, p) && IsBranch(At(root, p)) && k <= |At(root, p).children|
    ensures Described(root, ChildrenMarks(At(root, p), p, k),
                      ChildrenEvents(At(root, p), PathOf(root, p), DepthAt(root, p), k))
    decreases At(root, p), 1, k
  {
    hide Described, PathOf, ChildMarks, ChildEvents;
    var n, path, depth := At(root, p), PathOf(root, p), DepthAt(root, p);
    if k > 0 {
      ChildrenDescribed(root, p, k - 1);
      ChildDescribed(root, p, k - 1);
      DescribedAppend(root, ChildrenMarks(n, p, k - 1), ChildMarks(n, p, k - 1), ChildrenEvents(n, path, depth, k - 1),
                      ChildEvents(n, path, depth, k - 1));
    } else {
      NothingDescribed(root);
    }
  }

  lemma {:induction false} ChildDescribed(root: Node, p: Pos, i: nat)
    requires Reached(root, p) && IsBranch(At(root, p)) && i < |At(root, p).children|
    ensures Described(root, ChildMarks(At(root, p), p, i), ChildEvents(At(root, p), PathOf(root, p), DepthAt(root, p), i))
    decreases At(root, p), 0, i
  {
    hide Described, PathOf, ChildEvents, TreeEvents, MarksOf, TextEvent, Renderable;
    var n, path, depth := At(root, p), PathOf(root, p), DepthAt(root, p);
    var c := n.children[i];
    ChildCases(root, p, path, depth, i);
    DepthOfChild(root, p, i);
    NothingDescribed(root);
    if Descends(n, c) {
      TreeDescribed(root, p + [i]);
    } else if n.kind.ElementNode? && c.kind.TextNode? {
      TextDescribed(root, p, i);
    }
  }

  lemma DepthOfChild(root: Node, p: Pos, i: nat)
    requires InTree(root, p) && IsBranch(At(root, p)) && i < |At(root, p).children|
    ensures InTree(root, p + [i]) && DepthAt(root, p + [i]) == DepthBelow(At(root, p), DepthAt(root, p))
  {
    ChildAt(root, p, i);
  }

  lemma TextDescribed(root: Node, p: Pos, i: nat)
    requires Visited(root, p) && i < |At(root, p).children| && At(root, p).children[i].kind.TextNode?
    ensures Described(root, ChildMarks(At(root, p), p, i), ChildEvents(At(root, p), PathOf(root, p), DepthAt(root, p), i))
  {
    var n, path, depth, q := At(root, p), PathOf(root, p), DepthAt(root, p), p + [i];
    hide PathOf, Decimal, Visited, Renderable, TextCount;
    ChildAt(root, p, i);
    DepthOfChild(root, p, i);
    TextCase(n, path, depth, i, TextCount(n, i));
    TextCountIs(n, i);
  }

  /** The stream of a document says, mark by mark, what its tree holds. */
  lemma StreamDescribed(root: Node)
    ensures Described(root, MarksOf(root, []), DocumentEvents(root))
  {
    hide Described, MarksOf, TreeEvents, PathOf;
    TreeDescribed(root, []);
  }

  // ----- and the marks are all there, in document order -----

  /**
   * Where a mark stands in the document: an element opens before its attributes, these come before its children, and it
   * closes behind them.
   */
  function Key(root: Node, m: Mark): seq<int> {
    match m
    case Opens(p) => p + [-2]
    case Attr(p, i) => p + [-1, i]
    case Says(q) => q
    case Closes(p) => p + [if InTree(root, p) then |At(root, p).children| else 0]
  }

  predicate DiffersFirst(a: seq<int>, b: seq<int>, k: nat) { k < |a| && k < |b| && a[..k] == b[..k] && a[k] < b[k] }

  /** The lexicographic order. */
  ghost predicate KeyLess(a: seq<int>, b: seq<int>) { exists k: nat :: DiffersFirst(a, b, k) }

  ghost predicate Before(root: Node, a: Mark, b: Mark) { KeyLess(Key(root, a), Key(root, b)) }

  ghost predicate Ordered(root: Node, ms: seq<Mark>) { forall i, j :: 0 <= i < j < |ms| ==> Before(root, ms[i], ms[j]) }

  /** Below `p`, between two of its places. */
  predicate Between(key: seq<int>, p: Pos, low: int, high: int) { p < key && low <= key[|p|] < high }

  ghost predicate AllBetween(root: Node, ms: seq<Mark>, p: Pos, low: int, high: int) {
    forall m :: m in ms ==> Between(Key(root, m), p, low, high)
  }

  lemma LowerIsLess(a: seq<int>, b: seq<int>, p: Pos, low: int, mid: int, high: int)
    requires Between(a, p, low, mid) && Between(b, p, mid, high)
    ensures KeyLess(a, b)
  {
    assert a[..|p|] == p && b[..|p|] == p;
    assert DiffersFirst(a, b, |p|);
  }

  lemma OrderedAppend(root: Node, a: seq<Mark>, b: seq<Mark>, p: Pos, low: int, mid: int, high: int)
    requires Ordered(root, a) && Ordered(root, b) && low <= mid <= high
    requires AllBetween(root, a, p, low, mid) && AllBetween(root, b, p, mid, high)
    ensures Ordered(root, a + b) && AllBetween(root, a + b, p, low, high)
  {
    hide KeyLess, Key;
    var all := a + b;
    forall i, j | 0 <= i < j < |all| ensures Before(root, all[i], all[j]) {
      if i < |a| <= j {
        assert all[i] == a[i] && all[i] in a && all[j] == b[j - |a|] && all[j] in b;
        LowerIsLess(Key(root, all[i]), Key(root, all[j]), p, low, mid, high);
      } else if j < |a| {
        assert all[i] == a[i] && all[j] == a[j];
      } else {
        assert all[i] == b[i - |a|] && all[j] == b[j - |a|];
      }
    }
    forall m | m in all ensures Between(Key(root, m), p, low, high) {
      assert m in a || m in b;
    }
  }

  lemma OneOrdered(root: Node, m: Mark, p: Pos, at: int)
    requires Key(root, m) == p + [at]
    ensures Ordered(root, [m]) && AllBetween(root, [m], p, at, at + 1)
  {
    assert (p + [at])[|p|] == at;
  }

  lemma {:induction false} AttrsOrdered(root: Node, p: Pos, k: nat)
    ensures Ordered(root, AttrMarks(p, k)) && AllBetween(root, AttrMarks(p, k), p, -1, 0)
    ensures forall m :: m in AttrMarks(p, k) ==> m.Attr? && m.at == p && m.index < k
  {
    if k > 0 {
      AttrsOrdered(root, p, k - 1);
      var before, last := AttrMarks(p, k - 1), Attr(p, k - 1);
      forall m | m in before ensures Before(root, m, last) {
        assert DiffersFirst(Key(root, m), Key(root, last), |p| + 1);
      }
      SnocOrdered(root, before, last);
    }
  }

  lemma SnocOrdered(root: Node, ms: seq<Mark>, last: Mark)
    requires Ordered(root, ms) && forall m :: m in ms ==> Before(root, m, last)
    ensures Ordered(root, ms + [last])
  {
    hide Before;
    var all := ms + [last];
    forall i, j | 0 <= i < j < |all| ensures Before(root, all[i], all[j]) {
      assert all[i] == ms[i] && all[i] in ms;
      assert j < |ms| ==> all[j] == ms[j];
    }
  }

  lemma {:induction false} TreeOrdered(root: Node, p: Pos)
    requires InTree(root, p)
    ensures Ordered(root, MarksOf(At(root, p), p))
    ensures AllBetween(root, MarksOf(At(root, p), p), p, -2, |At(root, p).children| + 1)
    decreases At(root, p), 2, 0
  {
    hide Ordered, AllBetween, AttrMarks, ChildrenMarks, Lookup;
    var n := At(root, p);
    NoneOrdered(root, p);
    if IsBranch(n) {
      ChildrenOrdered(root, p, |n.children|);
      if n.kind.ElementNode? {
        var attrs, inside := AttrMarks(p, |n.attributes|), ChildrenMarks(n, p, |n.children|);
        AttrsOrdered(root, p, |n.attributes|);
        OneOrdered(root, Opens(p), p, -2);
        OneOrdered(root, Closes(p), p, |n.children|);
        OrderedAppend(root, [Opens(p)], attrs, p, -2, -1, 0);
        OrderedAppend(root, [Opens(p)] + attrs, inside, p, -2, 0, |n.children|);
        OrderedAppend(root, [Opens(p)] + attrs + inside, [Closes(p)], p, -2, |n.children|, |n.children| + 1);
      } else {
        Wider(root, ChildrenMarks(n, p, |n.children|), p, 0, |n.children|, -2, |n.children| + 1);
      }
    }
  }

  lemma NoneOrdered(root: Node, p: Pos)
    ensures Ordered(root, []) && forall low, high :: AllBetween(root, [], p, low, high)
  {
  }

  lemma Wider(root: Node, ms: seq<Mark>, p: Pos, low: int, high: int, low': int, high': int)
    requires AllBetween(root, ms, p, low, high) && low' <= low && high <= high'
    ensures AllBetween(root, ms, p, low', high')
  {
  }

  lemma {:induction false} ChildrenOrdered(root: Node, p: Pos, k: nat)
    requires InTree(root, p) && IsBranch(At(root, p)) && k <= |At(root, p).children|
    ensures Ordered(root, ChildrenMarks(At(root, p), p, k))
    ensures AllBetween(root, ChildrenMarks(At(root, p), p, k), p, 0, k)
    decreases At(root, p), 1, k
  {
    hide Ordered, AllBetween, ChildMarks;
    NoneOrdered(root, p);
    if k > 0 {
      ChildrenOrdered(root, p, k - 1);
      ChildOrdered(root, p, k - 1);
      OrderedAppend(root, ChildrenMarks(At(root, p), p, k - 1), ChildMarks(At(root, p), p, k - 1), p, 0, k - 1, k);
    }
  }

  lemma {:induction false} ChildOrdered(root: Node, p: Pos, i: nat)
    requires InTree(root, p) && IsBranch(At(root, p)) && i < |At(root, p).children|
    ensures Ordered(root, ChildMarks(At(root, p), p, i))
    ensures AllBetween(root, ChildMarks(At(root, p), p, i), p, i, i + 1)
    decreases At(root, p), 0, i
  {
    hide Ordered, AllBetween, MarksOf, Renderable;
    NoneOrdered(root, p);
    ChildAt(root, p, i);
    var n := At(root, p);
    var c := n.children[i];
    if Descends(n, c) {
      TreeOrdered(root, p + [i]);
      BelowChild(root, MarksOf(c, p + [i]), p, i, -2, |c.children| + 1);
    } else if n.kind.ElementNode? && c.kind.TextNode? && Renderable(c.text) {
      OneOrdered(root, Says(p + [i]), p, i);
    }
  }

  lemma BelowChild(root: Node, ms: seq<Mark>, p: Pos, i: nat, low: int, high: int)
    requires AllBetween(root, ms, p + [i], low, high)
    ensures AllBetween(root, ms, p, i, i + 1)
  {
    hide Key;
    forall m | m in ms ensures Between(Key(root, m), p, i, i + 1) {
      var key := Key(root, m);
      assert key[..|p| + 1] == p + [i];
      assert key[..|p|] == (p + [i])[..|p|] == p && key[|p|] == (p + [i])[|p|];
    }
  }

  // which marks there are

  lemma {:induction false} AttrThere(p: Pos, i: nat, k: nat)
    requires i < k
    ensures Attr(p, i) in AttrMarks(p, k)
    decreases k
  {
    if i < k - 1 { AttrThere(p, i, k - 1); }
  }

  lemma {:induction false} ChildThere(n: Node, p: Pos, i: nat, k: nat, m: Mark)
    requires i < k <= |n.children| && m in ChildMarks(n, p, i)
    ensures m in ChildrenMarks(n, p, k)
    decreases k
  {
    hide ChildMarks;
    if i < k - 1 { ChildThere(n, p, i, k - 1, m); }
  }

  lemma ChildPart(n: Node, p: Pos, i: nat, m: Mark)
    requires IsBranch(n) && i < |n.children| && m in ChildMarks(n, p, i)
    ensures m in MarksOf(n, p)
  {
    hide ChildMarks, ChildrenMarks, AttrMarks;
    ChildThere(n, p, i, |n.children|, m);
  }

  lemma OwnMarks(n: Node, p: Pos)
    requires n.kind.ElementNode?
    ensures Opens(p) in MarksOf(n, p) && Closes(p) in MarksOf(n, p)
    ensures forall i: nat :: i < |n.attributes| ==> Attr(p, i) in MarksOf(n, p)
  {
    hide ChildrenMarks, AttrMarks;
    forall i: nat | i < |n.attributes| ensures Attr(p, i) in MarksOf(n, p) { AttrThere(p, i, |n.attributes|); }
  }

  /** The marks of whatever is reached are marks of the document. */
  lemma {:induction false} SubtreeMarks(root: Node, p: Pos, m: Mark)
    requires Reached(root, p) && m in MarksOf(At(root, p), p)
    ensures m in MarksOf(root, [])
    decreases |p|
  {
    hide MarksOf;
    if p != [] {
      var p0, i := Parent(p), Last(p);
      assert p == p0 + [i];
      ChildOf(root, p);
      assert Descends(At(root, p0), At(root, p)) && IsBranch(At(root, p0));
      ChildPart(At(root, p0), p0, i, m);
      SubtreeMarks(root, p0, m);
    }
  }

  lemma MarkThere(root: Node, m: Mark)
    requires Expected(root, m)
    ensures m in MarksOf(root, [])
  {
    if m.Says? {
      var q := m.at;
      ChildOf(root, q);
      assert q == Parent(q) + [Last(q)];
      hide MarksOf, Renderable;
      assert m in ChildMarks(At(root, Parent(q)), Parent(q), Last(q));
      ChildPart(At(root, Parent(q)), Parent(q), Last(q), m);
      SubtreeMarks(root, Parent(q), m);
    } else {
      OwnMarks(At(root, m.at), m.at);
      hide MarksOf;
      SubtreeMarks(root, m.at, m);
    }
  }

  /** The marks are exactly those expected, each once, in document order. */
  lemma MarksComplete(root: Node)
    ensures forall m :: m in MarksOf(root, []) <==> Expected(root, m)
    ensures Ordered(root, MarksOf(root, []))
  {
    hide MarksOf, Expected, Ordered, DocumentEvents;
    TreeOrdered(root, []);
    StreamDescribed(root);
    var ms, es := MarksOf(root, []), DocumentEvents(root);
    forall m ensures m in ms <==> Expected(root, m) {
      if m in ms {
        var i :| 0 <= i < |ms| && ms[i] == m;
        assert Describes(root, ms[i], es[i]);
        DescribedIsExpected(root, m, es[i]);
      }
      if Expected(root, m) { MarkThere(root, m); }
    }
  }

  lemma DescribedIsExpected(root: Node, m: Mark, e: Event)
    requires Describes(root, m, e)
    ensures Expected(root, m)
  {
  }

  // and which text nodes

  /** A text node at or below `p`, outside of any other text node there. */
  predicate IsTextBelow(root: Node, p: Pos, q: Pos) {
    p <= q && InTree(root, q) && At(root, q).kind.TextNode?
    && forall k :: |p| <= k < |q| ==> InTree(root, q[..k]) && !At(root, q[..k]).kind.TextNode?
  }

  ghost predicate InOrder(qs: seq<Pos>) { forall i, j :: 0 <= i < j < |qs| ==> KeyLess(qs[i], qs[j]) }

  lemma InOrderAppend(a: seq<Pos>, b: seq<Pos>)
    requires InOrder(a) && InOrder(b) && forall x, y :: x in a && y in b ==> KeyLess(x, y)
    ensures InOrder(a + b)
  {
    hide KeyLess;
    var all := a + b;
    forall i, j | 0 <= i < j < |all| ensures KeyLess(all[i], all[j]) {
      assert i < |a| ==> all[i] == a[i] && a[i] in a;
      assert j >= |a| ==> all[j] == b[j - |a|] && b[j - |a|] in b;
      assert j < |a| ==> all[j] == a[j];
      assert i >= |a| ==> all[i] == b[i - |a|];
    }
  }

  /** A text node below one of the first `k` children. */
  predicate TextUnder(root: Node, p: Pos, k: nat, q: Pos) { p < q && q[|p|] < k && IsTextBelow(root, p + [q[|p|]], q) }

  lemma UnderAll(root: Node, p: Pos, q: Pos)
    requires InTree(root, p) && !At(root, p).kind.TextNode?
    ensures IsTextBelow(root, p, q) <==> TextUnder(root, p, |At(root, p).children|, q)
  {
    hide Lookup;
    if p < q {
      var c := p + [q[|p|]];
      assert q[..|p|] == p && q[..|c|] == c;
      if IsTextBelow(root, p, q) {
        PrefixInTree(root, q, |c|);
        ChildOf(root, c);
        assert Parent(c) == p;
      }
    }
    if IsTextBelow(root, p, q) && q == p {
      assert false;
    }
  }

  lemma UnderSplits(root: Node, p: Pos, k: nat, q: Pos)
    requires k > 0
    ensures TextUnder(root, p, k, q) <==> TextUnder(root, p, k - 1, q) || IsTextBelow(root, p + [k - 1], q)
  {
    hide IsTextBelow, Lookup;
    if p + [k - 1] <= q {
      assert q[..|p| + 1] == p + [k - 1];
      assert q[|p|] == k - 1 && q[..|p|] == p;
    }
    if IsTextBelow(root, p + [k - 1], q) { BelowMeansPrefix(root, p + [k - 1], q); }
  }

  lemma BelowMeansPrefix(root: Node, p: Pos, q: Pos)
    requires IsTextBelow(root, p, q)
    ensures p <= q
  {
  }

  lemma EarlierChild(root: Node, p: Pos, k: nat, x: Pos, y: Pos)
    requires TextUnder(root, p, k, x) && IsTextBelow(root, p + [k], y)
    ensures KeyLess(x, y)
  {
    BelowMeansPrefix(root, p + [k], y);
    assert y[..|p| + 1] == p + [k];
    assert x[..|p|] == p && y[..|p|] == (p + [k])[..|p|] == p && y[|p|] == k;
    assert DiffersFirst(x, y, |p|);
  }

  lemma {:induction false} TextsOfChildrenComplete(root: Node, p: Pos, k: nat)
    requires InTree(root, p) && k <= |At(root, p).children|
    ensures InOrder(TextsOfChildren(At(root, p), p, k))
    ensures forall q :: q in TextsOfChildren(At(root, p), p, k) <==> TextUnder(root, p, k, q)
    decreases At(root, p), 0, k
  {
    hide IsTextBelow, InOrder, Lookup, TextPositions;
    NoneInOrder();
    if k > 0 {
      hide TextUnder;
      var n := At(root, p);
      TextsOfChildrenComplete(root, p, k - 1);
      ChildAt(root, p, k - 1);
      TextsComplete(root, p + [k - 1]);
      var before, own := TextsOfChildren(n, p, k - 1), TextPositions(n.children[k - 1], p + [k - 1]);
      forall x, y | x in before && y in own ensures KeyLess(x, y) { EarlierChild(root, p, k - 1, x, y); }
      InOrderAppend(before, own);
      forall q ensures q in before + own <==> TextUnder(root, p, k, q) { UnderSplits(root, p, k, q); }
    }
  }

  lemma NoneInOrder()
    ensures InOrder([])
  {
  }

  lemma JustOne(root: Node, p: Pos, q: Pos)
    requires InTree(root, p) && At(root, p).kind.TextNode?
    ensures IsTextBelow(root, p, q) <==> q == p
  {
    assert p <= q ==> q[..|p|] == p;
  }

  /** The text nodes that make up the text content are exactly those below, each once, in document order. */
  lemma {:induction false} TextsComplete(root: Node, p: Pos)
    requires InTree(root, p)
    ensures InOrder(TextPositions(At(root, p), p))
    ensures forall q :: q in TextPositions(At(root, p), p) <==> IsTextBelow(root, p, q)
    decreases At(root, p), 1, 0
  {
    hide IsTextBelow, Lookup, TextUnder, TextsOfChildren;
    var n := At(root, p);
    if n.kind.TextNode? {
      forall q ensures q in [p] <==> IsTextBelow(root, p, q) { JustOne(root, p, q); }
    } else {
      TextsOfChildrenComplete(root, p, |n.children|);
      forall q ensures IsTextBelow(root, p, q) <==> TextUnder(root, p, |n.children|, q) { UnderAll(root, p, q); }
    }
  }
}
