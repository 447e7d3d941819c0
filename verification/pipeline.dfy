/** Across the stages: what the model produces is what the filter, the reader and the preview expect. */
module Pipeline {
  import opened Bytes
  import opened Dom
  import opened Layout
  import opened Slashes
  import opened LayoutPaths
  import opened EventStream
  import opened IrModel
  import opened IrFilter
  import opened Nesting
  import opened GfxEncoding
  import opened GfxIr
  import opened GfxHidden
  import opened GfxWrap
  import opened GfxLayout
  import opened Utf8

  // ----- the stream of a tree is a word of the preview's grammar -----

  function MarkItems(events: seq<Event>): seq<Item> { seq(|events|, i requires 0 <= i < |events| => Mark(events[i])) }

  /** The nesting an element is lowered to. */
  function TreeNested(n: Node, path: Str, depth: nat): Nested
    decreases n, 1, 0
  {
    Nested(StartEvent(n, path, depth),
           MarkItems(AttributeEvents(n, path, depth, |n.attributes|)) + ChildItems(n, path, depth, |n.children|),
           EndEvent(n, path, depth))
  }

  /** The items of the first `k` children of an element. */
  function ChildItems(n: Node, path: Str, depth: nat, k: nat): seq<Item>
    requires k <= |n.children|
    decreases n, 0, k
  {
    if k == 0 then []
    else
      var c := n.children[k - 1];
      ChildItems(n, path, depth, k - 1)
      + if c.kind.TextNode? && Renderable(c.text) then [Mark(TextEvent(n, path, depth, TextCount(n, k), c.text))]
        else if c.kind.ElementNode? then [Inner(TreeNested(c, ChildPath(n, path, k - 1), depth + 1))]
        else []
  }

  /** The elements a tree contributes at the top level. */
  function TreeForest(n: Node, path: Str, depth: nat): seq<Nested>
    decreases n, 1, 0
  {
    if n.kind.DocumentNode? then ForestOfChildren(n, path, depth, |n.children|)
    else if n.kind.ElementNode? then [TreeNested(n, path, depth)]
    else []
  }

  function ForestOfChildren(n: Node, path: Str, depth: nat, k: nat): seq<Nested>
    requires k <= |n.children|
    decreases n, 0, k
  {
    if k == 0 then []
    else
      ForestOfChildren(n, path, depth, k - 1) + TreeForest(n.children[k - 1], ChildPath(n, path, k - 1), depth)
  }

  lemma {:induction false} FlatItemsAppend(a: seq<Item>, b: seq<Item>)
    ensures FlatItems(a + b) == FlatItems(a) + FlatItems(b)
  {
    hide FlatItem, Flat;
    if b == [] {
      assert a + b == a;
    } else {
      FlatItemsAppend(a, b[..|b| - 1]);
      assert (a + b)[..|a + b| - 1] == a + b[..|b| - 1];
    }
  }

  lemma {:induction false} FlatForestAppend(a: seq<Nested>, b: seq<Nested>)
    ensures FlatForest(a + b) == FlatForest(a) + FlatForest(b)
  {
    hide Flat;
    if b == [] {
      assert a + b == a;
    } else {
      FlatForestAppend(a, b[..|b| - 1]);
      assert (a + b)[..|a + b| - 1] == a + b[..|b| - 1];
    }
  }

  lemma {:induction false} FlatMarks(events: seq<Event>)
    ensures FlatItems(MarkItems(events)) == events
  {
    if events != [] {
      var init := events[..|events| - 1];
      FlatMarks(init);
      assert MarkItems(events)[..|events| - 1] == MarkItems(init);
    }
  }

  lemma {:induction false} NestedFlattens(n: Node, path: Str, depth: nat)
    requires n.kind.ElementNode?
    ensures Flat(TreeNested(n, path, depth)) == TreeEvents(n, path, depth)
    decreases n, 1, 0
  {
    hide ChildItems, MarkItems, AttributeEvents, ChildrenEvents, FlatItems, StartEvent, EndEvent;
    var marks, items := MarkItems(AttributeEvents(n, path, depth, |n.attributes|)),
                        ChildItems(n, path, depth, |n.children|);
    FlatMarks(AttributeEvents(n, path, depth, |n.attributes|));
    ItemsFlatten(n, path, depth, |n.children|);
    FlatItemsAppend(marks, items);
  }

  lemma {:induction false} ItemsFlatten(n: Node, path: Str, depth: nat, k: nat)
    requires n.kind.ElementNode? && k <= |n.children|
    ensures FlatItems(ChildItems(n, path, depth, k)) == ChildrenEvents(n, path, depth, k)
    decreases n, 0, k
  {
    hide Flat, TextEvent, TreeEvents, TreeNested, Renderable, ChildPath;
    if k > 0 {
      var c := n.children[k - 1];
      ItemsFlatten(n, path, depth, k - 1);
      var before := ChildItems(n, path, depth, k - 1);
      assert before + [] == before && FlatItems(before) + [] == FlatItems(before);
      if c.kind.TextNode? && Renderable(c.text) {
        FlatItemsSnoc(before, Mark(TextEvent(n, path, depth, TextCount(n, k), c.text)));
      } else if c.kind.ElementNode? {
        NestedFlattens(c, ChildPath(n, path, k - 1), depth + 1);
        FlatItemsSnoc(before, Inner(TreeNested(c, ChildPath(n, path, k - 1), depth + 1)));
      }
    }
  }

  lemma {:induction false} ForestFlattens(n: Node, path: Str, depth: nat)
    ensures FlatForest(TreeForest(n, path, depth)) == TreeEvents(n, path, depth)
    decreases n, 1, 0
  {
    if n.kind.DocumentNode? {
      ForestChildrenFlatten(n, path, depth, |n.children|);
    } else if n.kind.ElementNode? {
      NestedFlattens(n, path, depth);
      assert [TreeNested(n, path, depth)][..0] == [];
    }
  }

  lemma {:induction false} ForestChildrenFlatten(n: Node, path: Str, depth: nat, k: nat)
    requires n.kind.DocumentNode? && k <= |n.children|
    ensures FlatForest(ForestOfChildren(n, path, depth, k)) == ChildrenEvents(n, path, depth, k)
    decreases n, 0, k
  {
    if k > 0 {
      ForestChildrenFlatten(n, path, depth, k - 1);
      ForestFlattens(n.children[k - 1], ChildPath(n, path, k - 1), depth);
      FlatForestAppend(ForestOfChildren(n, path, depth, k - 1),
                       TreeForest(n.children[k - 1], ChildPath(n, path, k - 1), depth));
    }
  }

  // ----- and it meets the grammar's conditions -----

  /** Every start event names its element. */
  predicate Tagged(events: seq<Event>) { forall e :: e in events && e.kind == START ==> e.tag != [] }

  predicate Nestable(events: seq<Event>) { Shallow(events) && Tagged(events) }

  lemma NestablePart(part: seq<Event>, whole: seq<Event>)
    requires Nestable(whole) && forall e :: e in part ==> e in whole
    ensures Nestable(part)
  {
  }

  lemma {:induction false} AttributeMarksOk(n: Node, path: Str, depth: nat, k: nat)
    requires k <= |n.attributes|
    ensures forall e :: e in AttributeEvents(n, path, depth, k) ==> MarkOk(e, StartEvent(n, path, depth), depth)
  {
    if k > 0 {
      AttributeMarksOk(n, path, depth, k - 1);
    }
  }

  lemma TreeParts(n: Node, path: Str, depth: nat)
    requires n.kind.ElementNode?
    ensures StartEvent(n, path, depth) in TreeEvents(n, path, depth)
    ensures forall e :: e in ChildrenEvents(n, path, depth, |n.children|) ==> e in TreeEvents(n, path, depth)
  {
    var opening, inner := OpeningEvents(n, path, depth), ChildrenEvents(n, path, depth, |n.children|);
    assert StartEvent(n, path, depth) in opening;
    assert forall e :: e in inner ==> e in opening + inner;
  }

  lemma {:induction false} NestedIsOk(n: Node, path: Str, depth: nat)
    requires n.kind.ElementNode? && Nestable(TreeEvents(n, path, depth))
    ensures NestedOk(TreeNested(n, path, depth), depth)
    decreases n, 1, 0
  {
    TreeParts(n, path, depth);
    NestablePart(ChildrenEvents(n, path, depth, |n.children|), TreeEvents(n, path, depth));
    AttributeMarksOk(n, path, depth, |n.attributes|);
    ItemsAreOk(n, path, depth, |n.children|);
    var start := StartEvent(n, path, depth);
    var marks, items := MarkItems(AttributeEvents(n, path, depth, |n.attributes|)),
                        ChildItems(n, path, depth, |n.children|);
    forall i | i in marks + items ensures ItemOk(i, start, depth) {
      if i in marks {
        var k :| 0 <= k < |marks| && marks[k] == i;
        assert i.event in AttributeEvents(n, path, depth, |n.attributes|);
      }
    }
  }

  lemma {:induction false} ItemsAreOk(n: Node, path: Str, depth: nat, k: nat)
    requires n.kind.ElementNode? && k <= |n.children| && Nestable(ChildrenEvents(n, path, depth, k))
    ensures forall i :: i in ChildItems(n, path, depth, k) ==> ItemOk(i, StartEvent(n, path, depth), depth)
    decreases n, 0, k
  {
    if k > 0 {
      var c := n.children[k - 1];
      var before, own := ChildrenEvents(n, path, depth, k - 1), ChildEvents(n, path, depth, k - 1);
      assert ChildrenEvents(n, path, depth, k) == before + own;
      NestablePart(before, before + own);
      NestablePart(own, before + own);
      ItemsAreOk(n, path, depth, k - 1);
      if c.kind.ElementNode? {
        NestedIsOk(c, ChildPath(n, path, k - 1), depth + 1);
      }
    }
  }

  lemma {:induction false} ForestIsOk(n: Node, path: Str, depth: nat)
    requires Nestable(TreeEvents(n, path, depth))
    ensures ForestOk(TreeForest(n, path, depth), depth)
    decreases n, 1, 0
  {
    if n.kind.DocumentNode? {
      ForestChildrenOk(n, path, depth, |n.children|);
    } else if n.kind.ElementNode? {
      NestedIsOk(n, path, depth);
    }
  }

  lemma {:induction false} ForestChildrenOk(n: Node, path: Str, depth: nat, k: nat)
    requires n.kind.DocumentNode? && k <= |n.children| && Nestable(ChildrenEvents(n, path, depth, k))
    ensures ForestOk(ForestOfChildren(n, path, depth, k), depth)
    decreases n, 0, k
  {
    if k > 0 {
      var before, own := ChildrenEvents(n, path, depth, k - 1), ChildEvents(n, path, depth, k - 1);
      assert ChildrenEvents(n, path, depth, k) == before + own;
      NestablePart(before, before + own);
      NestablePart(own, before + own);
      ForestChildrenOk(n, path, depth, k - 1);
      ForestIsOk(n.children[k - 1], ChildPath(n, path, k - 1), depth);
    }
  }

  // ----- acceptance -----

  lemma {:induction false} AcceptedIsTagged(stack: seq<Scope>, events: seq<Event>)
    requires NestAll(stack, events).Some?
    ensures Tagged(events)
  {
    if events != [] {
      AcceptedIsTagged(stack, events[..|events| - 1]);
    }
  }

  /** A lowered document drives the preview's machine to acceptance exactly when all its elements have names. */
  lemma LoweredDocumentsNest(root: Node)
    requires Lowers(root)
    ensures Accepts(DocumentEvents(root)) <==> Tagged(DocumentEvents(root))
  {
    var events := DocumentEvents(root);
    if Tagged(events) {
      ForestIsOk(root, PathOf(root, []), 0);
      ForestFlattens(root, PathOf(root, []), 0);
      ForestAccepted(TreeForest(root, PathOf(root, []), 0));
    }
    if Accepts(events) {
      AcceptedIsTagged([], events);
    }
  }

  /** Every stream that previews at all is a balanced nesting with matching tags, paths and depths below 256. */
  lemma PreviewedStreamsNest(events: seq<Event>, o: GfxOptions)
    requires Emit(events, o).Success?
    ensures Accepts(events)
    ensures exists forest :: ForestOk(forest, 0) && FlatForest(forest) == events
  {
    RunNests(o, events);
    AcceptsExactlyForests(events);
  }

  // ----- what can still go wrong -----

  predicate OnlyRunsOut<T>(r: Result<T>) { r.Success? || r == Failure(ResourceLimit) }

  lemma NewlineRunsOut(pen: Pen, o: GfxOptions, n: nat)
    requires DimensionsOk(o)
    ensures OnlyRunsOut(Newline(pen, o)) && OnlyRunsOut(MakeRoom(pen, o, n))
  {
  }

  lemma {:induction false} AppendRunsOut(pen: Pen, o: GfxOptions, text: Str)
    requires DimensionsOk(o) && IsUtf8(text)
    ensures OnlyRunsOut(Append(pen, o, text))
    decreases |text|
  {
    if text != [] {
      var n := LeadLength(text[0]);
      if IsBlankByte(text[0]) {
        AppendRunsOut(pen.(space := pen.line != []), o, text[1..]);
      } else {
        NewlineRunsOut(pen, o, n);
        if PutGlyph(pen, o, text[..n]).Success? {
          AppendRunsOut(PutGlyph(pen, o, text[..n]).value, o, text[n..]);
        }
      }
    }
  }

  lemma StepRunsOut(o: GfxOptions, p: Preview, e: Event)
    requires DimensionsOk(o) && Nest(p.stack, e, Unseen(p.stack, e)).Some? && (Unseen(p.stack, e) || ValidMarks(e))
    ensures OnlyRunsOut(Step(p, o, e))
  {
    hide Nest, Append, Newline, Marks, Unseen;
    if !Unseen(p.stack, e) {
      MarksUtf8(e);
      NewlineRunsOut(p.pen, o, 0);
      AppendRunsOut(p.pen, o, Marks(e));
      if Newline(p.pen, o).Success? {
        AppendRunsOut(Newline(p.pen, o).value, o, Marks(e));
      }
    }
  }

  lemma {:induction false} RunRunsOut(o: GfxOptions, events: seq<Event>)
    requires DimensionsOk(o) && NestAll([], events).Some? && ValidTexts(WithoutHidden(events))
    ensures OnlyRunsOut(Run(o, events))
  {
    hide Step, ValidMarks, Unseen, Hidden, Nest;
    if events != [] {
      var init, e := events[..|events| - 1], events[|events| - 1];
      Unsnoc(events);
      CutGrows(init, e);
      assert WithoutHidden(events) == WithoutHidden(init) + [e] ==> e in WithoutHidden(events);
      RunRunsOut(o, init);
      if Run(o, init).Success? {
        RunNests(o, init);
        CutKeepsPace(o, init);
        var p := Run(o, init).value;
        SeenOrCut(p.stack, Cut(init), e);
        NestIgnoresHidden(p.stack, NestAll([], init).value, e, Unseen(p.stack, e));
        StepRunsOut(o, p, e);
      }
    }
  }

  /**
   * A well-nested stream within the budget whose visible text is UTF-8 is previewed exactly if the lines of its layout
   * are within the limits on their number, their depth and their bytes. Otherwise it runs out of them, and nothing else.
   */
  lemma PreviewSucceedsIff(events: seq<Event>, o: GfxOptions)
    requires Accepts(events) && Fits(Total(events)) && DimensionsOk(o) && ValidTexts(WithoutHidden(events))
    ensures Emit(events, o).Success? <==> Limits(TextsOf(LayoutOf(VisibleSets(events), o)))
    ensures Emit(events, o).Success? || Emit(events, o) == Failure(ResourceLimit)
  {
    hide Run, NestAll, LowerToFrame, Limits, LayoutOf, TextsOf, VisibleSets, ValidTexts, WithoutHidden, FrameOk;
    RunRunsOut(o, events);
    if Run(o, events).Success? {
      RunNests(o, events);
    }
    FrameLimits(o, events);
    if LowerToFrame(o, events).Success? {
      EncodeNeverRejects(o, events);
    }
  }

  /**
   * From the DOM to the bytes: a tree that lowers, with named elements and UTF-8 text, on a surface of legal size,
   * passes both further budget charges, and is previewed unless its lines are too many or too large. It is never an
   * invalid stream, nor a frame that cannot be encoded.
   */
  lemma DocumentsPreview(root: Node, o: GfxOptions)
    requires Lowers(root) && DimensionsOk(o)
    requires Tagged(DocumentEvents(root)) && ValidTexts(WithoutHidden(DocumentEvents(root)))
    ensures var frame := LowerToFrame(o, DocumentEvents(root));
            Emit(DocumentEvents(root), o)
            == if frame.Success? then Success(FrameWire(frame.value)) else Failure(ResourceLimit)
    ensures Fits(Total(DocumentEvents(root)))
    ensures Emit(DocumentEvents(root), o).Success?
            <==> Limits(TextsOf(LayoutOf(VisibleSets(DocumentEvents(root)), o)))
  {
    hide Run, LowerToFrame, Limits, LayoutOf, TextsOf, VisibleSets, ValidTexts, WithoutHidden, FrameOk, Tagged, Total, Shallow;
    LoweredDocumentsNest(root);
    PreviewSucceedsIff(DocumentEvents(root), o);
  }

  // ----- the filter's result is balanced -----

  /** The nestings the filter keeps. */
  function KeptForest(n: Node, p: Pos, path: Str, depth: nat, selected: set<Pos>): seq<Nested>
    decreases n, 1, 0
  {
    if !IsBranch(n) then []
    else if n.kind.ElementNode? && p in selected then [TreeNested(n, path, depth)]
    else KeptForests(n, p, path, depth, selected, |n.children|)
  }

  function KeptForests(n: Node, p: Pos, path: Str, depth: nat, selected: set<Pos>, k: nat): seq<Nested>
    requires k <= |n.children|
    decreases n, 0, k
  {
    if k == 0 then []
    else
      KeptForests(n, p, path, depth, selected, k - 1)
      + if Descends(n, n.children[k - 1])
        then KeptForest(n.children[k - 1], p + [k - 1], ChildPath(n, path, k - 1), DepthBelow(n, depth), selected)
        else []
  }

  /** Each nesting is well formed at the depth its events carry. */
  predicate Balanced(forest: seq<Nested>) { forall n :: n in forest ==> NestedOk(n, n.start.depth) }

  lemma {:induction false} KeptFlattens(n: Node, p: Pos, path: Str, depth: nat, selected: set<Pos>)
    requires Nestable(TreeEvents(n, path, depth))
    ensures FlatForest(KeptForest(n, p, path, depth, selected)) == KeptTree(n, p, path, depth, selected)
    ensures Balanced(KeptForest(n, p, path, depth, selected))
    decreases n, 1, 0
  {
    if n.kind.ElementNode? && p in selected {
      NestedFlattens(n, path, depth);
      NestedIsOk(n, path, depth);
      assert [TreeNested(n, path, depth)][..0] == [];
    } else if IsBranch(n) {
      if n.kind.ElementNode? {
        TreeParts(n, path, depth);
        NestablePart(ChildrenEvents(n, path, depth, |n.children|), TreeEvents(n, path, depth));
      }
      KeptChildrenFlatten(n, p, path, depth, selected, |n.children|);
    }
  }

  lemma {:induction false} KeptChildrenFlatten(n: Node, p: Pos, path: Str, depth: nat, selected: set<Pos>, k: nat)
    requires IsBranch(n) && k <= |n.children| && Nestable(ChildrenEvents(n, path, depth, k))
    ensures FlatForest(KeptForests(n, p, path, depth, selected, k)) == KeptChildren(n, p, path, depth, selected, k)
    ensures Balanced(KeptForests(n, p, path, depth, selected, k))
    decreases n, 0, k
  {
    if k > 0 {
      var c := n.children[k - 1];
      var before, own := ChildrenEvents(n, path, depth, k - 1), ChildEvents(n, path, depth, k - 1);
      assert ChildrenEvents(n, path, depth, k) == before + own;
      NestablePart(before, before + own);
      NestablePart(own, before + own);
      KeptChildrenFlatten(n, p, path, depth, selected, k - 1);
      var kept := KeptForests(n, p, path, depth, selected, k - 1);
      assert kept + [] == kept && FlatForest(kept) + [] == FlatForest(kept);
      if Descends(n, c) {
        var depth' := DepthBelow(n, depth);
        KeptFlattens(c, p + [k - 1], ChildPath(n, path, k - 1), depth', selected);
        FlatForestAppend(kept, KeptForest(c, p + [k - 1], ChildPath(n, path, k - 1), depth', selected));
      }
    }
  }

  /** Where the filter keeps exactly the selected subtrees, what it returns is itself a balanced stream. */
  lemma FilteredStreamsAreBalanced(root: Node, matches: seq<Pos>)
    requires ClimbsAgree(root, set p | p in matches)
    requires Lowers(root) && Tagged(DocumentEvents(root))
    ensures var filtered := Filter(DocumentEvents(root), SelectedPaths(root, matches));
            exists forest :: Balanced(forest) && FlatForest(forest) == filtered
  {
    var selected := set p | p in matches;
    FilterKeepsSelectedSubtrees(root, matches);
    KeptFlattens(root, [], PathOf(root, []), 0, selected);
    assert Balanced(KeptForest(root, [], PathOf(root, []), 0, selected));
  }

  // ----- and in any case its start and end events match -----

  /** What the filter keeps of a subtree: an element that is dropped leaves what is kept of its contents. */
  function SiftedTree(n: Node, path: Str, depth: nat, paths: set<Str>): seq<Item>
    decreases n, 2, 0
  {
    if n.kind.DocumentNode? then SiftedChildren(n, path, depth, paths, |n.children|)
    else if n.kind.ElementNode? then
      var inside := SiftedChildren(n, path, depth, paths, |n.children|);
      if Climb(path, paths) then [Inner(Enclose(n, path, depth, inside))] else inside
    else []
  }

  function Enclose(n: Node, path: Str, depth: nat, inside: seq<Item>): Nested {
    Nested(StartEvent(n, path, depth), MarkItems(AttributeEvents(n, path, depth, |n.attributes|)) + inside,
           EndEvent(n, path, depth))
  }

  function SiftedChildren(n: Node, path: Str, depth: nat, paths: set<Str>, k: nat): seq<Item>
    requires k <= |n.children|
    decreases n, 1, k
  {
    if k == 0 then []
    else SiftedChildren(n, path, depth, paths, k - 1) + SiftedChild(n, path, depth, paths, k - 1)
  }

  function SiftedChild(n: Node, path: Str, depth: nat, paths: set<Str>, i: nat): seq<Item>
    requires i < |n.children|
    decreases n, 0, i
  {
    var c := n.children[i];
    if Descends(n, c) then SiftedTree(c, ChildPath(n, path, i), DepthBelow(n, depth), paths)
    else if n.kind.ElementNode? && c.kind.TextNode? && Renderable(c.text) then
      var e := TextEvent(n, path, depth, TextCount(n, i + 1), c.text);
      if Climb(e.xpath, paths) then [Mark(e)] else []
    else []
  }

  lemma {:induction false} SiftedFlattens(n: Node, path: Str, depth: nat, paths: set<Str>)
    ensures FlatItems(SiftedTree(n, path, depth, paths)) == Filter(TreeEvents(n, path, depth), paths)
    decreases n, 2, 0
  {
    hide Filter, Climb, OpeningEvents, EndEvent, ChildrenEvents, SiftedChildren, Enclose, FlatItems;
    if IsBranch(n) {
      SiftedChildrenFlatten(n, path, depth, paths, |n.children|);
      if n.kind.ElementNode? {
        ElementSifts(n, path, depth, paths);
      }
    } else {
      NothingSifts(paths);
    }
  }

  lemma NothingSifts(paths: set<Str>)
    ensures FlatItems([]) == [] && Filter([], paths) == []
  {
  }

  lemma ElementSifts(n: Node, path: Str, depth: nat, paths: set<Str>)
    requires n.kind.ElementNode?
    ensures var inside := ChildrenEvents(n, path, depth, |n.children|);
            Filter(TreeEvents(n, path, depth), paths)
            == if Climb(path, paths)
               then OpeningEvents(n, path, depth) + Filter(inside, paths) + [EndEvent(n, path, depth)]
               else Filter(inside, paths)
    ensures forall items :: FlatItems([Inner(Enclose(n, path, depth, items))])
                            == OpeningEvents(n, path, depth) + FlatItems(items) + [EndEvent(n, path, depth)]
  {
    hide Filter, Climb, EndEvent, ChildrenEvents, FlatItems, AttributeEvents, StartEvent;
    var inside, opening, end := ChildrenEvents(n, path, depth, |n.children|), OpeningEvents(n, path, depth),
                                EndEvent(n, path, depth);
    OwnXpath(n, path, depth);
    if Climb(path, paths) {
      FilterMiddleKept(opening, inside, [end], paths);
    } else {
      FilterMiddle(opening, inside, [end], paths);
    }
    forall items ensures FlatItems([Inner(Enclose(n, path, depth, items))]) == opening + FlatItems(items) + [end] {
      EnclosedFlattens(n, path, depth, items);
    }
  }

  lemma FilterMiddleKept(a: seq<Event>, b: seq<Event>, c: seq<Event>, paths: set<Str>)
    requires forall e :: e in a + c ==> Climb(e.xpath, paths)
    ensures Filter(a + b + c, paths) == a + Filter(b, paths) + c
  {
    hide Climb, Filter;
    assert forall e :: e in a ==> e in a + c;
    assert forall e :: e in c ==> e in a + c;
    FilterAll(a, paths);
    FilterAll(c, paths);
    FilterAppend(a + b, c, paths);
    FilterAppend(a, b, paths);
  }

  lemma EnclosedFlattens(n: Node, path: Str, depth: nat, items: seq<Item>)
    ensures FlatItems([Inner(Enclose(n, path, depth, items))])
            == OpeningEvents(n, path, depth) + FlatItems(items) + [EndEvent(n, path, depth)]
  {
    hide FlatItems, AttributeEvents, MarkItems, StartEvent, EndEvent;
    var attributes := AttributeEvents(n, path, depth, |n.attributes|);
    OneItem(Inner(Enclose(n, path, depth, items)));
    FlatMarks(attributes);
    FlatItemsAppend(MarkItems(attributes), items);
    Associate([StartEvent(n, path, depth)], attributes, FlatItems(items));
  }

  lemma OneItem(i: Item)
    ensures FlatItems([i]) == FlatItem(i)
  {
    assert [i][..0] == [] && FlatItems([]) == [];
  }

  lemma {:induction false} SiftedChildrenFlatten(n: Node, path: Str, depth: nat, paths: set<Str>, k: nat)
    requires IsBranch(n) && k <= |n.children|
    ensures FlatItems(SiftedChildren(n, path, depth, paths, k)) == Filter(ChildrenEvents(n, path, depth, k), paths)
    decreases n, 1, k
  {
    hide FlatItems, Filter, ChildEvents, SiftedChild;
    if k > 0 {
      SiftedChildrenFlatten(n, path, depth, paths, k - 1);
      SiftedChildFlattens(n, path, depth, paths, k - 1);
      FlatItemsAppend(SiftedChildren(n, path, depth, paths, k - 1), SiftedChild(n, path, depth, paths, k - 1));
      FilterAppend(ChildrenEvents(n, path, depth, k - 1), ChildEvents(n, path, depth, k - 1), paths);
    } else {
      NothingSifts(paths);
    }
  }

  lemma {:induction false} SiftedChildFlattens(n: Node, path: Str, depth: nat, paths: set<Str>, i: nat)
    requires IsBranch(n) && i < |n.children|
    ensures FlatItems(SiftedChild(n, path, depth, paths, i)) == Filter(ChildEvents(n, path, depth, i), paths)
    decreases n, 0, i
  {
    hide FlatItems, Filter, Climb, TreeEvents, TextEvent, SiftedTree, ChildPath, Renderable, TextCount;
    var c := n.children[i];
    NothingSifts(paths);
    if Descends(n, c) {
      SiftedFlattens(c, ChildPath(n, path, i), DepthBelow(n, depth), paths);
    } else if n.kind.ElementNode? && c.kind.TextNode? && Renderable(c.text) {
      var e := TextEvent(n, path, depth, TextCount(n, i + 1), c.text);
      OneItem(Mark(e));
      FilterSnoc([], e, paths);
      EmptyIsUnit([e]);
    } else {
      EmptyChild(n, path, depth, i);
    }
  }

  lemma EmptyChild(n: Node, path: Str, depth: nat, i: nat)
    requires IsBranch(n) && i < |n.children| && !Descends(n, n.children[i])
    requires n.kind.ElementNode? && n.children[i].kind.TextNode? ==> !Renderable(n.children[i].text)
    ensures ChildEvents(n, path, depth, i) == []
  {
  }

  /**
   * Every end event closes the start event of the same element, elements lie deeper than those around them, and
   * attributes stay with their element. A text may be left without its element.
   */
  predicate Matched(i: Item, owner: Option<Event>, floor: nat)
    decreases i
  {
    match i
    case Mark(e) =>
      (e.kind == TEXT && e.depth >= floor)
      || (e.kind == ATTRIBUTE && owner.Some? && e.tag == owner.value.tag && e.xpath == owner.value.xpath
          && e.depth == owner.value.depth)
    case Inner(n) =>
      && n.start.kind == START && n.end.kind == END && n.start.depth == n.end.depth >= floor
      && n.start.tag == n.end.tag && n.start.xpath == n.end.xpath
      && forall j :: j in n.body ==> Matched(j, Some(n.start), n.start.depth + 1)
  }

  predicate AllMatched(items: seq<Item>, owner: Option<Event>, floor: nat) {
    forall i :: i in items ==> Matched(i, owner, floor)
  }

  lemma {:induction false} Looser(i: Item, owner: Option<Event>, floor: nat, floor': nat)
    requires Matched(i, None, floor) && floor' <= floor
    ensures Matched(i, owner, floor')
  {
  }

  lemma {:induction false} SiftedMatched(n: Node, path: Str, depth: nat, paths: set<Str>)
    ensures AllMatched(SiftedTree(n, path, depth, paths), None, depth)
    decreases n, 2, 0
  {
    hide Climb, SiftedChildren, AttributeEvents;
    if IsBranch(n) {
      SiftedChildrenMatched(n, path, depth, paths, |n.children|);
      if n.kind.ElementNode? {
        EncloseMatched(n, path, depth, SiftedChildren(n, path, depth, paths, |n.children|));
      }
    }
  }

  lemma EncloseMatched(n: Node, path: Str, depth: nat, inside: seq<Item>)
    requires AllMatched(inside, None, depth + 1)
    ensures Matched(Inner(Enclose(n, path, depth, inside)), None, depth) && AllMatched(inside, None, depth)
  {
    var start, attributes := StartEvent(n, path, depth), AttributeEvents(n, path, depth, |n.attributes|);
    AttributesMatch(n, path, depth, |n.attributes|);
    hide AttributeEvents;
    forall i | i in MarkItems(attributes) + inside ensures Matched(i, Some(start), depth + 1) {
      if i in inside {
        Looser(i, Some(start), depth + 1, depth + 1);
      } else {
        assert i.Mark? && i.event in attributes;
      }
    }
    forall i | i in inside ensures Matched(i, None, depth) {
      Looser(i, None, depth + 1, depth);
    }
  }

  lemma {:induction false} AttributesMatch(n: Node, path: Str, depth: nat, k: nat)
    requires k <= |n.attributes|
    ensures forall e :: e in AttributeEvents(n, path, depth, k) ==>
              e.kind == ATTRIBUTE && e.tag == n.name && e.xpath == path && e.depth == depth
  {
    if k > 0 {
      AttributesMatch(n, path, depth, k - 1);
    }
  }

  lemma {:induction false} SiftedChildrenMatched(n: Node, path: Str, depth: nat, paths: set<Str>, k: nat)
    requires IsBranch(n) && k <= |n.children|
    ensures AllMatched(SiftedChildren(n, path, depth, paths, k), None, DepthBelow(n, depth))
    decreases n, 1, k
  {
    hide Matched, Climb, SiftedTree, ChildPath, TextEvent, Renderable;
    if k > 0 {
      SiftedChildrenMatched(n, path, depth, paths, k - 1);
      var c := n.children[k - 1];
      if Descends(n, c) {
        SiftedMatched(c, ChildPath(n, path, k - 1), DepthBelow(n, depth), paths);
      } else if c.kind.TextNode? {
        TextMatches(n, path, depth, TextCount(n, k), c.text);
      }
    }
  }

  lemma TextMatches(n: Node, path: Str, depth: nat, index: nat, text: Str)
    ensures Matched(Mark(TextEvent(n, path, depth, index, text)), None, depth + 1)
  {
  }

  /** Whatever the tree and whatever paths are selected, the start and end events that the filter returns match. */
  lemma FilteredStreamsMatch(root: Node, paths: set<Str>)
    ensures exists items :: AllMatched(items, None, 0) && FlatItems(items) == Filter(DocumentEvents(root), paths)
  {
    hide AllMatched, FlatItems, Filter, SiftedTree, TreeEvents;
    SiftedFlattens(root, PathOf(root, []), 0, paths);
    SiftedMatched(root, PathOf(root, []), 0, paths);
  }
}
