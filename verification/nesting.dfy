/** The preview's nesting machine (src/core/gfx_ir.cpp) and the grammar of the streams it accepts. */
module Nesting {
  import opened Bytes
  import opened EventStream
  import opened IrModel

  datatype Scope = Scope(tag: Str, path: Str, hidden: bool)

  const MAX_DEPTH: nat := 256

  /** The stack after one event, with `hidden` for the scope a start event opens; `None` when the event is refused. */
  function Nest(stack: seq<Scope>, e: Event, hidden: bool): Option<seq<Scope>> {
    if e.kind == START then
      if |stack| >= MAX_DEPTH || e.depth != |stack| || e.tag == [] then None
      else Some(stack + [Scope(e.tag, e.xpath, hidden)])
    else if stack == [] then None
    else
      var top := stack[|stack| - 1];
      if e.kind == END then
        if e.depth == |stack| - 1 && e.tag == top.tag && e.xpath == top.path then Some(stack[..|stack| - 1]) else None
      else if e.kind == TEXT then
        if e.depth == |stack| && e.tag == top.tag then Some(stack) else None
      else if e.kind == ATTRIBUTE then
        if e.depth == |stack| - 1 && e.tag == top.tag && e.xpath == top.path then Some(stack) else None
      else None
  }

  /** The machine over a whole stream; hiding plays no part in what is accepted. */
  function NestAll(stack: seq<Scope>, events: seq<Event>): Option<seq<Scope>> {
    if events == [] then Some(stack)
    else
      var stack' :- NestAll(stack, events[..|events| - 1]);
      Nest(stack', events[|events| - 1], false)
  }

  predicate Accepts(events: seq<Event>) { NestAll([], events) == Some([]) }

  // ----- the grammar -----

  /** One element: its start event, what is between, and its end event. */
  datatype Nested = Nested(start: Event, body: seq<Item>, end: Event)

  datatype Item = Mark(event: Event) | Inner(nested: Nested)

  function Flat(n: Nested): seq<Event>
    decreases n, 1, 0
  {
    [n.start] + FlatItems(n.body) + [n.end]
  }

  function FlatItem(i: Item): seq<Event>
    decreases i, 2, 0
  {
    match i
    case Mark(e) => [e]
    case Inner(n) => Flat(n)
  }

  function FlatItems(items: seq<Item>): seq<Event>
    decreases items, 0, 0
  {
    if items == [] then [] else FlatItems(items[..|items| - 1]) + FlatItem(items[|items| - 1])
  }

  function FlatForest(forest: seq<Nested>): seq<Event> {
    if forest == [] then [] else FlatForest(forest[..|forest| - 1]) + Flat(forest[|forest| - 1])
  }

  /** Start and end agree on tag, path and depth; marks belong to the element; inner elements are one deeper. */
  predicate NestedOk(n: Nested, depth: nat)
    decreases n, 1
  {
    && n.start.kind == START && n.start.depth == depth < MAX_DEPTH && n.start.tag != []
    && n.end.kind == END && n.end.depth == depth && n.end.tag == n.start.tag && n.end.xpath == n.start.xpath
    && forall i :: i in n.body ==> ItemOk(i, n.start, depth)
  }

  predicate ItemOk(i: Item, start: Event, depth: nat)
    decreases i, 2
  {
    match i
    case Mark(e) => MarkOk(e, start, depth)
    case Inner(n) => NestedOk(n, depth + 1)
  }

  predicate MarkOk(e: Event, start: Event, depth: nat) {
    e.tag == start.tag
    && ((e.kind == TEXT && e.depth == depth + 1)
        || (e.kind == ATTRIBUTE && e.depth == depth && e.xpath == start.xpath))
  }

  predicate ForestOk(forest: seq<Nested>, depth: nat) { forall n :: n in forest ==> NestedOk(n, depth) }

  // ----- every word of the grammar is accepted -----

  lemma {:induction false} NestAppend(stack: seq<Scope>, a: seq<Event>, b: seq<Event>)
    ensures NestAll(stack, a + b)
            == match NestAll(stack, a) case None => None case Some(mid) => NestAll(mid, b)
  {
    if b == [] {
      assert a + b == a;
    } else {
      NestAppend(stack, a, b[..|b| - 1]);
      assert (a + b)[..|a + b| - 1] == a + b[..|b| - 1];
    }
  }

  lemma NestOne(stack: seq<Scope>, e: Event)
    ensures NestAll(stack, [e]) == Nest(stack, e, false)
  {
    assert [e][..0] == [];
  }

  lemma {:induction false} FlatAccepted(n: Nested, depth: nat, stack: seq<Scope>)
    requires NestedOk(n, depth) && |stack| == depth
    ensures NestAll(stack, Flat(n)) == Some(stack)
    decreases n, 1, 0
  {
    var top := Scope(n.start.tag, n.start.xpath, false);
    var inside := stack + [top];
    NestOne(stack, n.start);
    BodyAccepted(n, depth, stack, |n.body|);
    assert n.body[..|n.body|] == n.body;
    NestAppend(stack, [n.start], FlatItems(n.body));
    NestOne(inside, n.end);
    assert inside[..|inside| - 1] == stack;
    NestAppend(stack, [n.start] + FlatItems(n.body), [n.end]);
  }

  lemma MarkAccepted(stack: seq<Scope>, e: Event, start: Event, depth: nat)
    requires MarkOk(e, start, depth) && |stack| == depth + 1
    requires stack[depth] == Scope(start.tag, start.xpath, false)
    ensures Nest(stack, e, false) == Some(stack)
  {
  }

  lemma {:induction false} BodyAccepted(n: Nested, depth: nat, stack: seq<Scope>, k: nat)
    requires NestedOk(n, depth) && |stack| == depth && k <= |n.body|
    ensures var inside := stack + [Scope(n.start.tag, n.start.xpath, false)];
            NestAll(inside, FlatItems(n.body[..k])) == Some(inside)
    decreases n, 0, k
  {
    hide Nest, MarkOk;
    if k > 0 {
      var inside := stack + [Scope(n.start.tag, n.start.xpath, false)];
      var i := n.body[k - 1];
      BodyAccepted(n, depth, stack, k - 1);
      assert n.body[..k][..k - 1] == n.body[..k - 1];
      assert ItemOk(i, n.start, depth);
      if i.Inner? {
        FlatAccepted(i.nested, depth + 1, inside);
      } else {
        NestOne(inside, i.event);
        MarkAccepted(inside, i.event, n.start, depth);
      }
      NestAppend(inside, FlatItems(n.body[..k - 1]), FlatItem(i));
    }
  }

  lemma {:induction false} ForestAccepted(forest: seq<Nested>)
    requires ForestOk(forest, 0)
    ensures Accepts(FlatForest(forest))
  {
    if forest != [] {
      ForestAccepted(forest[..|forest| - 1]);
      FlatAccepted(forest[|forest| - 1], 0, []);
      NestAppend([], FlatForest(forest[..|forest| - 1]), Flat(forest[|forest| - 1]));
    }
  }

  // ----- every accepted stream is a word of the grammar -----

  /** An element whose end has not come yet. */
  datatype Open = Open(start: Event, body: seq<Item>)

  function FlatOpen(opens: seq<Open>): seq<Event> {
    if opens == [] then []
    else
      var last := opens[|opens| - 1];
      FlatOpen(opens[..|opens| - 1]) + [last.start] + FlatItems(last.body)
  }

  predicate OpenOk(o: Open, depth: nat) {
    && o.start.kind == START && o.start.depth == depth < MAX_DEPTH && o.start.tag != []
    && forall i :: i in o.body ==> ItemOk(i, o.start, depth)
  }

  /** What has been read so far: finished elements, then the open ones, which the stack mirrors. */
  predicate Reading(forest: seq<Nested>, opens: seq<Open>, stack: seq<Scope>) {
    && ForestOk(forest, 0)
    && |opens| == |stack|
    && forall k :: 0 <= k < |opens| ==>
         OpenOk(opens[k], k) && stack[k].tag == opens[k].start.tag && stack[k].path == opens[k].start.xpath
  }

  lemma FlatItemsSnoc(items: seq<Item>, i: Item)
    ensures FlatItems(items + [i]) == FlatItems(items) + FlatItem(i)
  {
    assert (items + [i])[..|items|] == items;
  }

  lemma AddItem(o: Open, i: Item, depth: nat)
    requires OpenOk(o, depth) && ItemOk(i, o.start, depth)
    ensures OpenOk(o.(body := o.body + [i]), depth)
    ensures FlatItems(o.body + [i]) == FlatItems(o.body) + FlatItem(i)
  {
    FlatItemsSnoc(o.body, i);
  }

  lemma FlatOpenSnoc(opens: seq<Open>, o: Open)
    ensures FlatOpen(opens + [o]) == FlatOpen(opens) + [o.start] + FlatItems(o.body)
  {
    assert (opens + [o])[..|opens|] == opens;
  }

  lemma FlatForestSnoc(forest: seq<Nested>, n: Nested)
    ensures FlatForest(forest + [n]) == FlatForest(forest) + Flat(n)
  {
    assert (forest + [n])[..|forest|] == forest;
  }

  /** Adding an item to the innermost open element. */
  lemma ReadItem(forest: seq<Nested>, opens: seq<Open>, stack: seq<Scope>, i: Item) returns (opens': seq<Open>)
    requires Reading(forest, opens, stack) && opens != []
    requires ItemOk(i, opens[|opens| - 1].start, |opens| - 1)
    ensures Reading(forest, opens', stack) && FlatOpen(opens') == FlatOpen(opens) + FlatItem(i)
  {
    hide ItemOk, OpenOk, ForestOk, FlatItems, FlatItem, FlatOpen;
    var init, last := opens[..|opens| - 1], opens[|opens| - 1];
    AddItem(last, i, |opens| - 1);
    var last' := last.(body := last.body + [i]);
    opens' := init + [last'];
    FlatOpenSnoc(init, last);
    FlatOpenSnoc(init, last');
    assert opens == init + [last];
  }

  lemma RegroupEnd(a: seq<Event>, b: seq<Event>, c: seq<Event>, d: seq<Event>)
    ensures a + b + c + d == a + (b + c + d)
  {
  }

  /** An end event finishes the innermost open element. */
  lemma ReadEnd(forest: seq<Nested>, opens: seq<Open>, stack: seq<Scope>, e: Event)
    returns (forest': seq<Nested>, opens': seq<Open>)
    requires Reading(forest, opens, stack) && e.kind == END && Nest(stack, e, false).Some?
    ensures Reading(forest', opens', stack[..|stack| - 1])
    ensures FlatForest(forest') + FlatOpen(opens') == FlatForest(forest) + (FlatOpen(opens) + [e])
  {
    EndMatches(forest, opens, stack, e);
    hide Nest, ItemOk, OpenOk, FlatItems, FlatItem, FlatOpen, Flat, FlatForest, ForestOk, NestedOk;
    var init, last := opens[..|opens| - 1], opens[|opens| - 1];
    var n := Nested(last.start, last.body, e);
    Closed(last, e, |init|);
    FlatOpenSnoc(init, last);
    FlatOpenNil();
    assert opens == init + [last];
    RegroupEnd(FlatOpen(init), [last.start], FlatItems(last.body), [e]);
    RegroupEnd(FlatForest(forest), FlatOpen(init), Flat(n), []);
    if init == [] {
      forest', opens' := forest + [n], [];
      FlatForestSnoc(forest, n);
      ForestOkSnoc(forest, n);
    } else {
      forest' := forest;
      opens' := ReadItem(forest, init, stack[..|stack| - 1], Inner(n));
    }
  }

  /** What the machine checks at an end event. */
  lemma EndMatches(forest: seq<Nested>, opens: seq<Open>, stack: seq<Scope>, e: Event)
    requires Reading(forest, opens, stack) && e.kind == END && Nest(stack, e, false).Some?
    ensures opens != [] && e.depth == |opens| - 1
    ensures var start := opens[|opens| - 1].start; e.tag == start.tag && e.xpath == start.xpath
  {
    hide ItemOk, ForestOk;
  }

  lemma ForestOkSnoc(forest: seq<Nested>, n: Nested)
    requires ForestOk(forest, 0) && NestedOk(n, 0)
    ensures ForestOk(forest + [n], 0)
  {
    hide NestedOk;
  }

  lemma FlatOpenNil()
    ensures FlatOpen([]) == []
  {
  }

  lemma Closed(o: Open, e: Event, depth: nat)
    requires OpenOk(o, depth) && e.kind == END && e.depth == depth && e.tag == o.start.tag && e.xpath == o.start.xpath
    ensures NestedOk(Nested(o.start, o.body, e), depth)
    ensures depth > 0 ==> ItemOk(Inner(Nested(o.start, o.body, e)), o.start, depth - 1)
    ensures Flat(Nested(o.start, o.body, e)) == [o.start] + FlatItems(o.body) + [e]
    ensures FlatItem(Inner(Nested(o.start, o.body, e))) == Flat(Nested(o.start, o.body, e))
  {
  }

  lemma ReadOne(forest: seq<Nested>, opens: seq<Open>, stack: seq<Scope>, e: Event)
    returns (forest': seq<Nested>, opens': seq<Open>)
    requires Reading(forest, opens, stack) && Nest(stack, e, false).Some?
    ensures Reading(forest', opens', Nest(stack, e, false).value)
    ensures FlatForest(forest') + FlatOpen(opens') == FlatForest(forest) + (FlatOpen(opens) + [e])
  {
    if e.kind == END {
      forest', opens' := ReadEnd(forest, opens, stack, e);
    } else if e.kind == START {
      forest', opens' := forest, opens + [Open(e, [])];
      FlatOpenSnoc(opens, Open(e, []));
    } else {
      forest' := forest;
      opens' := ReadItem(forest, opens, stack, Mark(e));
    }
  }

  lemma {:induction false} ReadAll(events: seq<Event>) returns (forest: seq<Nested>, opens: seq<Open>)
    requires NestAll([], events).Some?
    ensures Reading(forest, opens, NestAll([], events).value)
    ensures FlatForest(forest) + FlatOpen(opens) == events
  {
    ReadNothing();
    hide Reading, Nest, FlatForest, FlatOpen;
    if events == [] {
      return [], [];
    }
    var init, e := events[..|events| - 1], events[|events| - 1];
    var forest0, opens0 := ReadAll(init);
    forest, opens := ReadOne(forest0, opens0, NestAll([], init).value, e);
    SnocRegroup(FlatForest(forest0), FlatOpen(opens0), events);
  }

  lemma ReadNothing()
    ensures Reading([], [], []) && FlatForest([]) + FlatOpen([]) == []
  {
  }

  lemma SnocRegroup(a: seq<Event>, b: seq<Event>, events: seq<Event>)
    requires events != [] && a + b == events[..|events| - 1]
    ensures a + (b + [events[|events| - 1]]) == events
  {
    assert a + (b + [events[|events| - 1]]) == (a + b) + [events[|events| - 1]];
  }

  /** The machine accepts exactly the balanced nestings with matching tags, paths and depths below 256. */
  lemma AcceptsExactlyForests(events: seq<Event>)
    ensures Accepts(events) <==> exists forest :: ForestOk(forest, 0) && FlatForest(forest) == events
  {
    if Accepts(events) {
      var forest, opens := ReadAll(events);
      assert ForestOk(forest, 0) && FlatForest(forest) == events;
    }
    forall forest | ForestOk(forest, 0) && FlatForest(forest) == events ensures Accepts(events) {
      ForestAccepted(forest);
    }
  }
}
