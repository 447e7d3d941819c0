/** Lowering the DOM to the canonical event stream (src/core/ir_model.cpp). */
module IrModel {
  import opened Bytes
  import opened Dom
  import opened Layout
  import opened Slashes
  import opened EventStream

  const START: Str := "start"
  const ATTRIBUTE: Str := "attribute"
  const TEXT: Str := "text"
  const END: Str := "end"

  // ----- the stream of a subtree, by recursion on the tree -----

  function StartEvent(n: Node, path: Str, depth: nat): Event {
    Event(START, path, n.name, [], [], depth, n.attributes, TextContent(n))
  }

  function AttributeEvent(n: Node, path: Str, depth: nat, a: Attribute): Event {
    Event(ATTRIBUTE, path, n.name, a.name, a.value, depth, [], [])
  }

  function TextEvent(n: Node, path: Str, depth: nat, index: nat, text: Str): Event {
    Event(TEXT, path + "/text()[" + Decimal(index) + "]", n.name, [], text, depth + 1, [], [])
  }

  function EndEvent(n: Node, path: Str, depth: nat): Event {
    Event(END, path, n.name, [], [], depth, [], [])
  }

  function AttributeEvents(n: Node, path: Str, depth: nat, k: nat): seq<Event>
    requires k <= |n.attributes|
  {
    if k == 0 then []
    else AttributeEvents(n, path, depth, k - 1) + [AttributeEvent(n, path, depth, n.attributes[k - 1])]
  }

  /** Renderable text nodes among the first `k` children. */
  function TextCount(n: Node, k: nat): nat
    requires k <= |n.children|
  {
    if k == 0 then 0
    else TextCount(n, k - 1) + if n.children[k - 1].kind.TextNode? && Renderable(n.children[k - 1].text) then 1 else 0
  }

  function ChildPath(n: Node, path: Str, i: nat): Str
    requires i < |n.children|
  {
    if !n.children[i].kind.ElementNode? then []
    else (if n.kind.DocumentNode? then [] else path) + "/" + ChildSegment(n.children, i)
  }

  /** What child `i` of a document or element contributes. */
  function ChildEvents(n: Node, path: Str, depth: nat, i: nat): seq<Event>
    requires i < |n.children|
    decreases n, 0, i
  {
    var c := n.children[i];
    if n.kind.DocumentNode? then TreeEvents(c, ChildPath(n, path, i), depth)
    else if c.kind.TextNode? && Renderable(c.text) then
      [TextEvent(n, path, depth, TextCount(n, i + 1), c.text)]
    else if c.kind.ElementNode? then TreeEvents(c, ChildPath(n, path, i), depth + 1)
    else []
  }

  function ChildrenEvents(n: Node, path: Str, depth: nat, k: nat): seq<Event>
    requires k <= |n.children|
    decreases n, 1, k
  {
    if k == 0 then [] else ChildrenEvents(n, path, depth, k - 1) + ChildEvents(n, path, depth, k - 1)
  }

  function OpeningEvents(n: Node, path: Str, depth: nat): seq<Event> {
    [StartEvent(n, path, depth)] + AttributeEvents(n, path, depth, |n.attributes|)
  }

  function TreeEvents(n: Node, path: Str, depth: nat): seq<Event>
    decreases n, 2, 0
  {
    if n.kind.DocumentNode? then ChildrenEvents(n, path, depth, |n.children|)
    else if n.kind.ElementNode? then
      OpeningEvents(n, path, depth) + ChildrenEvents(n, path, depth, |n.children|) + [EndEvent(n, path, depth)]
    else []
  }

  function DocumentEvents(root: Node): seq<Event> { TreeEvents(root, PathOf(root, []), 0) }

  /** No element sits at depth 256 or below. */
  predicate Shallow(events: seq<Event>) { forall e :: e in events && e.kind == START ==> e.depth < 256 }

  /** A tree is lowered exactly when it is shallow and its stream fits the budget. */
  predicate Lowers(root: Node) { Shallow(DocumentEvents(root)) && Fits(Total(DocumentEvents(root))) }

  // ----- what the walk visits -----

  /** `walk_tree` is called on the node at `p`, or skips it for its type. */
  predicate Reached(root: Node, p: Pos) {
    InTree(root, p)
    && (p == []
        || (Reached(root, Parent(p))
            && var parent, own := At(root, Parent(p)).kind, At(root, p).kind;
               || (parent.DocumentNode? && (own.DocumentNode? || own.ElementNode?))
               || (parent.ElementNode? && own.ElementNode?)))
  }

  predicate Visited(root: Node, p: Pos) { Reached(root, p) && At(root, p).kind.ElementNode? }

  lemma {:induction false} AncestorsReached(root: Node, p: Pos, k: nat)
    requires Reached(root, p) && k <= |p|
    ensures Reached(root, p[..k])
    decreases |p|
  {
    if k == |p| {
      assert p[..k] == p;
    } else {
      AncestorsReached(root, Parent(p), k);
      assert Parent(p)[..k] == p[..k];
    }
  }

  lemma ChildPathIsPathOf(root: Node, p: Pos, i: nat)
    requires InTree(root, p) && i < |At(root, p).children|
    requires At(root, p).children[i].kind.ElementNode? || At(root, p).kind.DocumentNode?
    ensures InTree(root, p + [i])
    ensures PathOf(root, p + [i]) == ChildPath(At(root, p), PathOf(root, p), i)
  {
    ChildAt(root, p, i);
    if At(root, p).children[i].kind.ElementNode? {
      var own := ChildSegment(At(root, p).children, i);
      assert OwnSegments(root, p + [i]) == [own];
      SlashedSnoc(Segments(root, p), own);
      SlashedSnoc([], own);
      assert [] + [own] == [own];
    }
  }

  // ----- the code -----

  class IrBuild {
    const budget: EventStreamBudget
    var events: seq<Event>
    var nodePaths: map<Pos, Str>

    constructor ()
      ensures fresh(budget) && budget.Used() == Usage(0, 0, 0) && events == [] && nodePaths == map[]
    {
      budget := new EventStreamBudget();
      events, nodePaths := [], map[];
    }

    ghost predicate Valid()
      reads this, budget
    {
      Fits(budget.Used())
    }

    method PushEvent(e: Event) returns (ok: bool)
      requires Valid()
      modifies this`events, budget
      ensures ok <==> Fits(Plus(old(budget.Used()), Cost(e)))
      ensures ok ==> Valid() && events == old(events) + [e]
      ensures ok ==> budget.Used() == Plus(old(budget.Used()), Cost(e))
    {
      ok := budget.Consume(e);
      if ok { events := events + [e]; }
    }
  }

  // ----- how far a walk has come -----

  /** A stretch of events that can be pushed when `start` has been used up already. */
  ghost predicate Acceptable(start: Usage, events: seq<Event>) {
    Fits(Plus(start, Total(events))) && Shallow(events)
  }

  /** What a walk starts from, and the whole stream it will have pushed at the end. */
  datatype Walk = Walk(before: seq<Event>, start: Usage, whole: seq<Event>)

  ghost predicate PartOf(events: seq<Event>, whole: seq<Event>) { events <= whole }

  /** What has been done once `more` follows what was done. */
  ghost function Then(done: seq<Event>, more: seq<Event>): seq<Event> { done + more }

  lemma ThenNothing(done: seq<Event>)
    ensures Then(done, []) == done
  {
  }

  /** Since the walk began exactly `done` was pushed and charged. */
  ghost predicate Progress(out: IrBuild, w: Walk, done: seq<Event>)
    reads out, out.budget
  {
    && out.events == w.before + done
    && out.budget.Used() == Plus(w.start, Total(done))
    && Acceptable(w.start, done)
  }

  lemma TotalSnoc(events: seq<Event>, e: Event)
    ensures Total(events + [e]) == Plus(Total(events), Cost(e))
  {
    assert (events + [e])[..|events|] == events;
  }

  lemma AcceptAppend(start: Usage, done: seq<Event>, more: seq<Event>)
    requires Acceptable(start, done)
    ensures Acceptable(start, done + more) <==> Acceptable(Plus(start, Total(done)), more)
  {
    hide Total;
    TotalAppend(done, more);
    assert forall e :: e in done + more <==> e in done || e in more;
  }

  lemma RejectPrefix(start: Usage, part: seq<Event>, whole: seq<Event>)
    requires part <= whole && !Acceptable(start, part)
    ensures !Acceptable(start, whole)
  {
    assert whole == part + whole[|part|..];
    TotalAppend(part, whole[|part|..]);
    assert forall e :: e in part ==> e in whole;
  }

  /** One push, as a step of a walk. */
  method Push(out: IrBuild, e: Event, ghost w: Walk, ghost done: seq<Event>) returns (ok: bool)
    requires Progress(out, w, done) && PartOf(Then(done, [e]), w.whole)
    requires e.kind == START ==> e.depth < 256
    modifies out`events, out.budget
    ensures ok ==> Progress(out, w, Then(done, [e]))
    ensures !ok ==> !Acceptable(w.start, w.whole)
  {
    TotalSnoc(done, e);
    assert Shallow(done + [e]);
    assert w.before + (done + [e]) == w.before + done + [e];
    ok := out.PushEvent(e);
    if !ok { RejectPrefix(w.start, done + [e], w.whole); }
  }

  lemma {:induction false} AttributesPrefix(n: Node, path: Str, depth: nat, k: nat)
    requires k <= |n.attributes|
    ensures AttributeEvents(n, path, depth, k) <= AttributeEvents(n, path, depth, |n.attributes|)
    decreases |n.attributes| - k
  {
    if k < |n.attributes| {
      AttributesPrefix(n, path, depth, k + 1);
    }
  }

  lemma {:induction false} ChildrenPrefix(n: Node, path: Str, depth: nat, k: nat)
    requires k <= |n.children|
    ensures ChildrenEvents(n, path, depth, k) <= ChildrenEvents(n, path, depth, |n.children|)
    decreases |n.children| - k
  {
    if k < |n.children| {
      ChildrenPrefix(n, path, depth, k + 1);
    }
  }

  /** The position itself, or somewhere below one of its first `k` children. */
  predicate Under(p: Pos, k: nat, q: Pos) { q == p || (p < q && q[|p|] < k) }

  /** `PathOf`, for every position. */
  function PathAt(root: Node, p: Pos): Str { if InTree(root, p) then PathOf(root, p) else [] }

  /** `after` is `before` plus the path of every visited element under `p` up to child `k`. */
  ghost predicate Records(root: Node, p: Pos, k: nat, before: map<Pos, Str>, after: map<Pos, Str>) {
    forall q ::
      && (q in after <==> q in before || (Under(p, k, q) && Visited(root, q)))
      && (q in after ==> after[q] == if Under(p, k, q) && Visited(root, q) then PathAt(root, q) else before[q])
  }

  lemma RegionSplits(root: Node, p: Pos, k: nat, q: Pos)
    requires InTree(root, p) && k < |At(root, p).children| && InTree(root, p + [k]) && Visited(root, q)
    ensures Under(p, k + 1, q) <==> Under(p, k, q) || p + [k] <= q
    ensures p + [k] <= q ==> Reached(root, p + [k]) && Under(p + [k], |At(root, p + [k]).children|, q)
    ensures Under(p + [k], |At(root, p + [k]).children|, q) ==> p + [k] <= q
  {
    var c := p + [k];
    if c <= q {
      assert q[..|c|] == c;
      AncestorsReached(root, q, |c|);
      if |c| < |q| {
        PrefixInTree(root, q, |c| + 1);
        assert q[..|c| + 1][..|c|] == c;
      }
    }
    if Under(p, k + 1, q) && q != p {
      assert q[..|p|] == p;
      assert q[|p|] == k ==> q[..|p| + 1] == c;
    }
  }

  lemma RecordsChild(root: Node, p: Pos, k: nat, before: map<Pos, Str>, mid: map<Pos, Str>, after: map<Pos, Str>)
    requires InTree(root, p) && k < |At(root, p).children|
    requires Records(root, p, k, before, mid)
    requires InTree(root, p + [k])
    requires if Reached(root, p + [k]) then Records(root, p + [k], |At(root, p + [k]).children|, mid, after)
             else after == mid
    ensures Records(root, p, k + 1, before, after)
  {
    hide Visited, Reached, Under, PathOf;
    forall q
      ensures q in after <==> q in before || (Under(p, k + 1, q) && Visited(root, q))
      ensures q in after ==>
                after[q] == if Under(p, k + 1, q) && Visited(root, q) then PathAt(root, q) else before[q]
    {
      if Visited(root, q) {
        RegionSplits(root, p, k, q);
      }
    }
  }

  lemma RecordsNone(root: Node, p: Pos, m: map<Pos, Str>)
    requires InTree(root, p) && !At(root, p).kind.ElementNode?
    ensures Records(root, p, 0, m, m)
  {
  }

  lemma RecordsSelf(root: Node, p: Pos, m: map<Pos, Str>)
    requires Visited(root, p)
    ensures Records(root, p, 0, m, m[p := PathOf(root, p)])
  {
  }

  /** Why the walk may refuse an element before looking at its contents. */
  lemma TooDeepOrWide(n: Node, path: Str, depth: nat, start: Usage)
    requires n.kind.ElementNode? && (depth >= 256 || |n.attributes| > MAX_EVENTS)
    ensures !Acceptable(start, TreeEvents(n, path, depth))
  {
    var s := StartEvent(n, path, depth);
    TotalOne(s);
    assert s in [s];
    assert [s] <= TreeEvents(n, path, depth);
    RejectPrefix(start, [s], TreeEvents(n, path, depth));
  }

  lemma DocumentPath(root: Node, p: Pos)
    requires Reached(root, p) && At(root, p).kind.DocumentNode?
    ensures PathOf(root, p) == []
  {
  }

  predicate IsBranch(n: Node) { n.kind.ElementNode? || n.kind.DocumentNode? }

  /** Nothing below a node that is neither document nor element is visited. */
  lemma RecordsNothing(root: Node, p: Pos, m: map<Pos, Str>)
    requires InTree(root, p) && !IsBranch(At(root, p))
    ensures Records(root, p, |At(root, p).children|, m, m)
  {
    forall q | p < q ensures !Reached(root, q) {
      DeadEnd(root, p, q);
    }
  }

  lemma DeadEnd(root: Node, p: Pos, q: Pos)
    requires InTree(root, p) && !IsBranch(At(root, p)) && p < q
    ensures !Reached(root, q)
  {
    assert q[..|p| + 1][..|p|] == p;
    if Reached(root, q) {
      AncestorsReached(root, q, |p| + 1);
    }
  }

  lemma AcceptableFits(start: Usage, done: seq<Event>)
    requires Acceptable(start, done)
    ensures Fits(Plus(start, Total(done)))
  {
  }

  /** What a called walk pushed and charged, as part of what the calling walk did. */
  lemma Extend(w: Walk, done: seq<Event>, added: seq<Event>, events: seq<Event>, used: Usage)
    requires events == (w.before + done) + added && used == Plus(Plus(w.start, Total(done)), Total(added))
    ensures events == w.before + (done + added) && used == Plus(w.start, Total(done + added))
  {
    hide Total;
    TotalAppend(done, added);
  }

  /** A recursive call, as a step of the calling walk. */
  method Descend(root: Node, p: Pos, depth: nat, out: IrBuild, ghost w: Walk, ghost done: seq<Event>)
    returns (ok: bool)
    requires Reached(root, p) && Progress(out, w, done)
    requires PartOf(Then(done, TreeEvents(At(root, p), PathOf(root, p), depth)), w.whole)
    modifies out, out.budget
    ensures ok ==> Progress(out, w, Then(done, TreeEvents(At(root, p), PathOf(root, p), depth)))
    ensures ok ==> Records(root, p, |At(root, p).children|, old(out.nodePaths), out.nodePaths)
    ensures !ok ==> !Acceptable(w.start, w.whole)
    decreases At(root, p), 3, 0
  {
    ghost var added := TreeEvents(At(root, p), PathOf(root, p), depth);
    hide TreeEvents, PathOf, Records, Reached, Total, Fits, Acceptable, Plus;
    AcceptAppend(w.start, done, added);
    AcceptableFits(w.start, done);
    ok := WalkTree(root, p, depth, out);
    if ok {
      Extend(w, done, added, out.events, out.budget.Used());
    } else {
      RejectPrefix(w.start, done + added, w.whole);
    }
  }

  /** A document or element that the walk comes to, and its path. */
  predicate Branching(root: Node, p: Pos, path: Str) {
    Reached(root, p) && IsBranch(At(root, p)) && path == PathOf(root, p)
  }

  predicate Descends(n: Node, c: Node) { c.kind.ElementNode? || (n.kind.DocumentNode? && c.kind.DocumentNode?) }

  function DepthBelow(n: Node, depth: nat): nat { if n.kind.DocumentNode? then depth else depth + 1 }

  lemma ChildCases(root: Node, p: Pos, path: Str, depth: nat, i: nat)
    requires InTree(root, p) && Branching(root, p, path) && i < |At(root, p).children|
    ensures var n, c := At(root, p), At(root, p).children[i];
            && InTree(root, p + [i]) && At(root, p + [i]) == c && (n decreases to c)
            && (Reached(root, p + [i]) <==> Descends(n, c))
            && (n.kind.ElementNode? && c.kind.TextNode? ==> !Descends(n, c))
            && (Descends(n, c) ==>
                  ChildEvents(n, path, depth, i) == TreeEvents(c, PathOf(root, p + [i]), DepthBelow(n, depth)))
            && (!Descends(n, c) && !(n.kind.ElementNode? && c.kind.TextNode?) ==> ChildEvents(n, path, depth, i) == [])
            && (!(n.kind.ElementNode? && c.kind.TextNode?) ==>
                  forall t :: TextsCounted(n, i, t) ==> TextsCounted(n, i + 1, t))
  {
    ChildAt(root, p, i);
    if At(root, p).children[i].kind.ElementNode? || At(root, p).kind.DocumentNode? {
      ChildPathIsPathOf(root, p, i);
    }
  }

  /** `text_index` before child `i` of an element; the loop of a document has none. */
  predicate TextsCounted(n: Node, i: nat, textIndex: nat)
    requires i <= |n.children|
  {
    textIndex == TextCount(n, i) || n.kind.DocumentNode?
  }

  lemma TextCase(n: Node, path: Str, depth: nat, i: nat, textIndex: nat)
    requires i < |n.children| && n.kind.ElementNode? && n.children[i].kind.TextNode? && TextsCounted(n, i, textIndex)
    ensures var text := n.children[i].text;
            var e := TextEvent(n, path, depth, textIndex + 1, text);
            && ChildEvents(n, path, depth, i) == (if Renderable(text) then [e] else [])
            && TextsCounted(n, i + 1, if Renderable(text) then textIndex + 1 else textIndex)
            && e.kind != START
  {
  }

  /** A child that is text. */
  method WalkText(n: Node, path: Str, depth: nat, i: nat, textIndex: nat, out: IrBuild,
                  ghost w: Walk, ghost done: seq<Event>)
    returns (ok: bool, textIndex': nat)
    requires i < |n.children| && n.kind.ElementNode? && n.children[i].kind.TextNode? && TextsCounted(n, i, textIndex)
    requires Progress(out, w, done) && PartOf(Then(done, ChildEvents(n, path, depth, i)), w.whole)
    modifies out`events, out.budget
    ensures ok ==> Progress(out, w, Then(done, ChildEvents(n, path, depth, i)))
    ensures ok ==> TextsCounted(n, i + 1, textIndex')
    ensures !ok ==> !Acceptable(w.start, w.whole)
  {
    hide *;
    TextCase(n, path, depth, i, textIndex);
    ThenNothing(done);
    ok, textIndex' := true, textIndex;
    var renderable := IsRenderableText(n.children[i].text);
    if renderable {
      textIndex' := textIndex + 1;
      ok := Push(out, TextEvent(n, path, depth, textIndex', n.children[i].text), w, done);
    }
  }

  /** Where the loop over `children` stands before child `i`, when `done` was pushed before the first. */
  ghost predicate Walked(root: Node, p: Pos, path: Str, depth: nat, i: nat, out: IrBuild,
                         w: Walk, done: seq<Event>, paths: map<Pos, Str>)
    requires InTree(root, p) && i <= |At(root, p).children|
    reads out, out.budget
  {
    && Progress(out, w, Then(done, ChildrenEvents(At(root, p), path, depth, i)))
    && Records(root, p, i, paths, out.nodePaths)
  }

  lemma WalkedIs(root: Node, p: Pos, path: Str, depth: nat, i: nat, out: IrBuild,
                 w: Walk, done: seq<Event>, paths: map<Pos, Str>)
    requires InTree(root, p) && i <= |At(root, p).children|
    ensures Walked(root, p, path, depth, i, out, w, done, paths)
            <==> Progress(out, w, Then(done, ChildrenEvents(At(root, p), path, depth, i)))
                 && Records(root, p, i, paths, out.nodePaths)
  {
  }

  /** The body of the loops over `children`, for child `i`. */
  method WalkChild(root: Node, p: Pos, path: Str, depth: nat, i: nat, textIndex: nat, out: IrBuild,
                   ghost w: Walk, ghost done: seq<Event>, ghost paths: map<Pos, Str>)
    returns (ok: bool, textIndex': nat)
    requires InTree(root, p) && Branching(root, p, path) && i < |At(root, p).children|
    requires TextsCounted(At(root, p), i, textIndex)
    requires Walked(root, p, path, depth, i, out, w, done, paths)
    requires PartOf(Then(done, ChildrenEvents(At(root, p), path, depth, |At(root, p).children|)), w.whole)
    modifies out, out.budget
    ensures ok ==> Walked(root, p, path, depth, i + 1, out, w, done, paths)
    ensures ok ==> TextsCounted(At(root, p), i + 1, textIndex')
    ensures !ok ==> !Acceptable(w.start, w.whole)
    decreases At(root, p), 0, i
  {
    hide *;
    var n := At(root, p);
    ghost var sofar := Then(done, ChildrenEvents(n, path, depth, i));
    ghost var mid := out.nodePaths;
    WalkedIs(root, p, path, depth, i, out, w, done, paths);
    ChildCases(root, p, path, depth, i);
    OneMoreChild(n, path, depth, i, done, w.whole);
    ThenNothing(sofar);
    var c := n.children[i];
    ok, textIndex' := true, textIndex;
    if n.kind.ElementNode? && c.kind.TextNode? {
      ok, textIndex' := WalkText(n, path, depth, i, textIndex, out, w, sofar);
    } else if Descends(n, c) {
      ok := Descend(root, p + [i], DepthBelow(n, depth), out, w, sofar);
    }
    if ok {
      RecordsChild(root, p, i, paths, mid, out.nodePaths);
      WalkedIs(root, p, path, depth, i + 1, out, w, done, paths);
    }
  }

  /** What child `i` adds to what has been done, and that it is part of the whole. */
  lemma OneMoreChild(n: Node, path: Str, depth: nat, i: nat, done: seq<Event>, whole: seq<Event>)
    requires i < |n.children| && PartOf(Then(done, ChildrenEvents(n, path, depth, |n.children|)), whole)
    ensures var sofar := Then(done, ChildrenEvents(n, path, depth, i));
            && Then(done, ChildrenEvents(n, path, depth, i + 1)) == Then(sofar, ChildEvents(n, path, depth, i))
            && PartOf(Then(sofar, ChildEvents(n, path, depth, i)), whole)
  {
    hide ChildEvents;
    var sofar, more := ChildrenEvents(n, path, depth, i), ChildEvents(n, path, depth, i);
    assert ChildrenEvents(n, path, depth, i + 1) == sofar + more;
    ChildrenPrefix(n, path, depth, i + 1);
    PrefixThree(done, sofar, more, ChildrenEvents(n, path, depth, |n.children|), whole);
  }

  lemma NoTextsYet(n: Node)
    ensures TextsCounted(n, 0, 0)
  {
  }

  /** The loops over `children`. */
  method WalkChildren(root: Node, p: Pos, path: Str, depth: nat, out: IrBuild,
                      ghost w: Walk, ghost done: seq<Event>, ghost paths: map<Pos, Str>)
    returns (ok: bool)
    requires InTree(root, p) && Branching(root, p, path) && Walked(root, p, path, depth, 0, out, w, done, paths)
    requires PartOf(Then(done, ChildrenEvents(At(root, p), path, depth, |At(root, p).children|)), w.whole)
    modifies out, out.budget
    ensures ok ==> Walked(root, p, path, depth, |At(root, p).children|, out, w, done, paths)
    ensures !ok ==> !Acceptable(w.start, w.whole)
    decreases At(root, p), 1, 0
  {
    hide *;
    var n := At(root, p);
    NoTextsYet(n);
    var textIndex := 0;
    for i := 0 to |n.children|
      invariant Walked(root, p, path, depth, i, out, w, done, paths)
      invariant TextsCounted(n, i, textIndex)
    {
      ok, textIndex := WalkChild(root, p, path, depth, i, textIndex, out, w, done, paths);
      if !ok { return; }
    }
    return true;
  }

  lemma PrefixThree(a: seq<Event>, b: seq<Event>, c: seq<Event>, all: seq<Event>, whole: seq<Event>)
    requires b + c <= all && a + all <= whole
    ensures (a + b) + c == a + (b + c) <= whole
  {
  }

  lemma EventKinds(n: Node, path: Str, depth: nat)
    ensures StartEvent(n, path, depth).kind == START && StartEvent(n, path, depth).depth == depth
    ensures EndEvent(n, path, depth).kind != START
    ensures forall a :: AttributeEvent(n, path, depth, a).kind != START
  {
  }

  lemma NoAttributesYet(n: Node, path: Str, depth: nat, done: seq<Event>)
    ensures Then(done, AttributeEvents(n, path, depth, 0)) == done
  {
  }

  /** What attribute `i` adds to what has been done, and that it is part of the whole. */
  lemma OneMoreAttribute(n: Node, path: Str, depth: nat, i: nat, done: seq<Event>, whole: seq<Event>)
    requires i < |n.attributes| && PartOf(Then(done, AttributeEvents(n, path, depth, |n.attributes|)), whole)
    ensures Then(done, AttributeEvents(n, path, depth, i + 1))
            == Then(Then(done, AttributeEvents(n, path, depth, i)), [AttributeEvent(n, path, depth, n.attributes[i])])
    ensures PartOf(Then(done, AttributeEvents(n, path, depth, i + 1)), whole)
  {
    hide AttributeEvent;
    var sofar, more := AttributeEvents(n, path, depth, i), [AttributeEvent(n, path, depth, n.attributes[i])];
    assert AttributeEvents(n, path, depth, i + 1) == sofar + more;
    AttributesPrefix(n, path, depth, i + 1);
    PrefixThree(done, sofar, more, AttributeEvents(n, path, depth, |n.attributes|), whole);
  }

  method WalkAttributes(n: Node, path: Str, depth: nat, out: IrBuild, ghost w: Walk) returns (ok: bool)
    requires Progress(out, w, [StartEvent(n, path, depth)])
    requires PartOf(Then([StartEvent(n, path, depth)], AttributeEvents(n, path, depth, |n.attributes|)), w.whole)
    modifies out`events, out.budget
    ensures ok ==> Progress(out, w, Then([StartEvent(n, path, depth)], AttributeEvents(n, path, depth, |n.attributes|)))
    ensures !ok ==> !Acceptable(w.start, w.whole)
  {
    hide *;
    ghost var s := [StartEvent(n, path, depth)];
    NoAttributesYet(n, path, depth, s);
    EventKinds(n, path, depth);
    for i := 0 to |n.attributes|
      invariant Progress(out, w, Then(s, AttributeEvents(n, path, depth, i)))
    {
      var e := AttributeEvent(n, path, depth, n.attributes[i]);
      OneMoreAttribute(n, path, depth, i, s, w.whole);
      ok := Push(out, e, w, Then(s, AttributeEvents(n, path, depth, i)));
      if !ok { return; }
    }
    return true;
  }

  /** The events of one element that is neither too deep nor too wide. */
  method WalkElement(root: Node, p: Pos, path: Str, depth: nat, out: IrBuild, ghost w: Walk, ghost paths: map<Pos, Str>)
    returns (ok: bool)
    requires InTree(root, p) && Visited(root, p) && path == PathOf(root, p) && depth < 256
    requires w.whole == TreeEvents(At(root, p), path, depth)
    requires Progress(out, w, []) && Records(root, p, 0, paths, out.nodePaths)
    modifies out, out.budget
    ensures ok <==> Acceptable(w.start, w.whole)
    ensures ok ==> Progress(out, w, w.whole)
    ensures ok ==> Records(root, p, |At(root, p).children|, paths, out.nodePaths)
    decreases At(root, p), 1, 1
  {
    hide *;
    var n := At(root, p);
    ghost var opening := OpeningEvents(n, path, depth);
    VisitedBranches(root, p);
    ElementParts(n, path, depth);
    EventKinds(n, path, depth);
    ok := Push(out, StartEvent(n, path, depth), w, []);
    if !ok { return; }
    ok := WalkAttributes(n, path, depth, out, w);
    if !ok { return; }
    WalkedIs(root, p, path, depth, 0, out, w, opening, paths);
    ok := WalkChildren(root, p, path, depth, out, w, opening, paths);
    if !ok { return; }
    WalkedIs(root, p, path, depth, |n.children|, out, w, opening, paths);
    ok := Push(out, EndEvent(n, path, depth), w, Then(opening, ChildrenEvents(n, path, depth, |n.children|)));
    if ok { ProgressAccepts(out, w, w.whole); }
  }

  lemma VisitedBranches(root: Node, p: Pos)
    requires Visited(root, p)
    ensures Branching(root, p, PathOf(root, p)) && At(root, p).kind.ElementNode?
  {
  }

  lemma ProgressAccepts(out: IrBuild, w: Walk, done: seq<Event>)
    requires Progress(out, w, done)
    ensures Acceptable(w.start, done)
  {
  }

  /** The events of an element, one stretch after the other. */
  lemma ElementParts(n: Node, path: Str, depth: nat)
    requires n.kind.ElementNode?
    ensures var whole, o, inner := TreeEvents(n, path, depth), OpeningEvents(n, path, depth),
                                   ChildrenEvents(n, path, depth, |n.children|);
            var s, e := [StartEvent(n, path, depth)], [EndEvent(n, path, depth)];
            && Then([], s) == s && Then(s, AttributeEvents(n, path, depth, |n.attributes|)) == o
            && Then(o, ChildrenEvents(n, path, depth, 0)) == o && Then(Then(o, inner), e) == whole
            && PartOf(s, whole) && PartOf(o, whole) && PartOf(Then(o, inner), whole) && PartOf(whole, whole)
  {
    hide StartEvent, EndEvent, AttributeEvents;
    var whole, o := TreeEvents(n, path, depth), OpeningEvents(n, path, depth);
    assert o <= whole;
  }

  /** The bounds on an element, its path, and the walk through it. */
  method EnterElement(root: Node, p: Pos, depth: nat, out: IrBuild, ghost w: Walk, ghost paths: map<Pos, Str>)
    returns (ok: bool)
    requires Visited(root, p) && w.whole == TreeEvents(At(root, p), PathOf(root, p), depth)
    requires Progress(out, w, []) && out.nodePaths == paths
    modifies out, out.budget
    ensures ok <==> Acceptable(w.start, w.whole)
    ensures ok ==> Progress(out, w, w.whole)
    ensures ok ==> Records(root, p, |At(root, p).children|, paths, out.nodePaths)
    decreases At(root, p), 1, 2
  {
    var n := At(root, p);
    hide Acceptable, PathOf, Records, TreeEvents, Total, Plus;
    if depth >= 256 || |n.attributes| > MAX_EVENTS {
      TooDeepOrWide(n, PathOf(root, p), depth, w.start);
      return false;
    }
    var path := ElementPath(root, p);
    out.nodePaths := out.nodePaths[p := path];
    RecordsSelf(root, p, paths);
    ok := WalkElement(root, p, path, depth, out, w, paths);
  }

  lemma NothingDone(start: Usage)
    requires Fits(start)
    ensures Plus(start, Total([])) == start && Acceptable(start, [])
  {
  }

  /** `walk_tree`: fails, as the code throws, exactly when the subtree's stream is not acceptable. */
  method WalkTree(root: Node, p: Pos, depth: nat, out: IrBuild) returns (ok: bool)
    requires Reached(root, p) && out.Valid()
    modifies out, out.budget
    ensures ok <==> Acceptable(old(out.budget.Used()), TreeEvents(At(root, p), PathOf(root, p), depth))
    ensures ok ==> out.events == old(out.events) + TreeEvents(At(root, p), PathOf(root, p), depth)
    ensures ok ==> out.budget.Used() == Plus(old(out.budget.Used()),
                                             Total(TreeEvents(At(root, p), PathOf(root, p), depth)))
    ensures ok ==> Records(root, p, |At(root, p).children|, old(out.nodePaths), out.nodePaths)
    decreases At(root, p), 2, 0
  {
    var n := At(root, p);
    ghost var whole := TreeEvents(n, PathOf(root, p), depth);
    ghost var w, paths := Walk(out.events, out.budget.Used(), whole), out.nodePaths;
    hide Acceptable, Total, Plus, Fits, Shallow, PathOf, Records, OpeningEvents, ChildrenEvents, EndEvent, Renderable;
    assert w.before + [] == w.before && [] + whole == whole;
    NothingDone(w.start);
    if n.kind.DocumentNode? {
      RecordsNone(root, p, paths);
      DocumentPath(root, p);
      ok := WalkChildren(root, p, [], depth, out, w, [], paths);
    } else if n.kind.ElementNode? {
      ok := EnterElement(root, p, depth, out, w, paths);
    } else {
      RecordsNothing(root, p, paths);
      ok := true;
    }
  }

  /** `build_ir` on a document tree. */
  method BuildIr(root: Node) returns (r: Result<IrBuild>)
    ensures r == Failure(ResourceLimit) || r.Success?
    ensures r.Success? <==> Lowers(root)
    ensures r.Success? ==> fresh(r.value) && r.value.events == DocumentEvents(root)
    ensures r.Success? ==> forall p :: p in r.value.nodePaths <==> Visited(root, p)
    ensures r.Success? ==> forall p :: p in r.value.nodePaths ==> r.value.nodePaths[p] == PathAt(root, p)
  {
    hide Acceptable, TreeEvents, Visited, PathAt;
    var build := new IrBuild();
    var ok := WalkTree(root, [], 0, build);
    NothingUsed(DocumentEvents(root));
    if !ok { return Failure(ResourceLimit); }
    forall p | Visited(root, p) ensures InTree(root, p) && Under([], |root.children|, p) {
      VisitedUnderRoot(root, p);
    }
    return Success(build);
  }

  lemma NothingUsed(events: seq<Event>)
    ensures Acceptable(Usage(0, 0, 0), events) <==> Fits(Total(events)) && Shallow(events)
    ensures [] + events == events
  {
  }

  lemma VisitedUnderRoot(root: Node, p: Pos)
    requires Visited(root, p)
    ensures InTree(root, p) && Under([], |root.children|, p)
  {
    if p != [] {
      PrefixInTree(root, p, 1);
      assert p[..1][..0] == [];
      assert p[..1] != [] && Last(p[..1]) == p[0] && Lookup(root, []) == Some(root);
    }
  }
}
