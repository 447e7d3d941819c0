/** Hidden subtrees leave no trace in the preview (src/core/gfx_ir.cpp). */
module GfxHidden {
  import opened Bytes
  import opened EventStream
  import opened IrModel
  import opened Nesting
  import opened GfxEncoding
  import opened GfxIr

  /** What is left of a stream, and how many hidden elements are open, after dropping every hidden subtree. */
  datatype Cutting = Cutting(kept: seq<Event>, open: nat)

  /** Decided by the events alone: a hidden start opens a cut, which lasts until its matching end. */
  function CutStep(c: Cutting, e: Event): Cutting {
    if c.open == 0 then
      if e.kind == START && Hidden(e) then Cutting(c.kept, 1) else Cutting(c.kept + [e], 0)
    else if e.kind == START then c.(open := c.open + 1)
    else if e.kind == END then c.(open := c.open - 1)
    else c
  }

  function Cut(events: seq<Event>): Cutting {
    if events == [] then Cutting([], 0) else CutStep(Cut(events[..|events| - 1]), events[|events| - 1])
  }

  function WithoutHidden(events: seq<Event>): seq<Event> { Cut(events).kept }

  /** The scopes outside any cut are visible, the `open` innermost ones are hidden. */
  predicate CutStack(stack: seq<Scope>, open: nat) {
    && open <= |stack|
    && (forall k :: 0 <= k < |stack| - open ==> !stack[k].hidden)
    && (forall k :: |stack| - open <= k < |stack| ==> stack[k].hidden)
  }

  lemma RunSnoc(o: GfxOptions, events: seq<Event>, e: Event)
    requires DimensionsOk(o)
    ensures Run(o, events).Success? ==> Run(o, events + [e]) == Step(Run(o, events).value, o, e)
  {
    assert (events + [e])[..|events|] == events;
  }

  /** `p` is where the run on the whole stream is; the run on what was kept is there too, less the hidden scopes. */
  predicate InPace(o: GfxOptions, p: Preview, c: Cutting)
    requires DimensionsOk(o)
  {
    && CutStack(p.stack, c.open)
    && Run(o, c.kept) == Success(Preview(p.stack[..|p.stack| - c.open], p.pen))
  }

  /** One event outside every cut behaves the same with and without the cuts before it. */
  lemma KeptStep(p: Preview, o: GfxOptions, c: Cutting, e: Event)
    requires DimensionsOk(o) && Step(p, o, e).Success? && InPace(o, p, c)
    requires c.open == 0 && !(e.kind == START && Hidden(e))
    ensures InPace(o, Step(p, o, e).value, CutStep(c, e))
  {
    hide Step, Run, Hidden;
    assert p.stack[..|p.stack|] == p.stack;
    var p' := Step(p, o, e).value;
    RunSnoc(o, c.kept, e);
    assert p'.stack[..|p'.stack|] == p'.stack;
    StaysVisible(p, o, e);
  }

  /** Outside every cut, only a hidden start could hide anything. */
  lemma StaysVisible(p: Preview, o: GfxOptions, e: Event)
    requires DimensionsOk(o) && Step(p, o, e).Success? && CutStack(p.stack, 0)
    requires !(e.kind == START && Hidden(e))
    ensures CutStack(Step(p, o, e).value.stack, 0)
  {
    hide Draw, Run, Hidden;
  }

  /** One event inside a cut touches only the hidden part of the stack. */
  lemma SkippedStep(p: Preview, o: GfxOptions, c: Cutting, e: Event)
    requires DimensionsOk(o) && Step(p, o, e).Success? && InPace(o, p, c)
    requires c.open > 0 || (e.kind == START && Hidden(e))
    ensures InPace(o, Step(p, o, e).value, CutStep(c, e))
  {
    hide Draw, Run, Hidden;
    var c', p' := CutStep(c, e), Step(p, o, e).value;
    assert CutStack(p'.stack, c'.open);
    assert p'.stack[..|p'.stack| - c'.open] == p.stack[..|p.stack| - c.open];
  }

  /** The run on the cut stream keeps pace: same pen, and the stack without its hidden part. */
  lemma {:induction false} CutKeepsPace(o: GfxOptions, events: seq<Event>)
    requires DimensionsOk(o) && Run(o, events).Success?
    ensures InPace(o, Run(o, events).value, Cut(events))
  {
    if events != [] {
      var init, e := events[..|events| - 1], events[|events| - 1];
      CutKeepsPace(o, init);
      if Cut(init).open == 0 && !(e.kind == START && Hidden(e)) {
        KeptStep(Run(o, init).value, o, Cut(init), e);
      } else {
        SkippedStep(Run(o, init).value, o, Cut(init), e);
      }
    }
  }

  lemma {:induction false} CutCostsLess(events: seq<Event>)
    ensures var a, b := Total(WithoutHidden(events)), Total(events);
            a.events <= b.events && a.attributes <= b.attributes && a.bytes <= b.bytes
  {
    hide Cost, Hidden;
    if events != [] {
      var init, e := events[..|events| - 1], events[|events| - 1];
      CutCostsLess(init);
      if Cut(events).kept != Cut(init).kept {
        TotalSnoc(Cut(init).kept, e);
      }
    }
  }

  /** Hiding does not change what the preview's machine accepts. */
  lemma {:induction false} RunNests(o: GfxOptions, events: seq<Event>)
    requires DimensionsOk(o)
    ensures match Run(o, events)
            case Success(p) => NestAll([], events).Some? && SameScopes(p.stack, NestAll([], events).value)
            case Failure(error) => true
    ensures NestAll([], events).None? ==> Run(o, events).Failure?
  {
    if events != [] {
      RunNests(o, events[..|events| - 1]);
    }
  }

  predicate SameScopes(a: seq<Scope>, b: seq<Scope>) {
    |a| == |b| && forall k :: 0 <= k < |a| ==> a[k].tag == b[k].tag && a[k].path == b[k].path
  }

  lemma NestIgnoresHidden(a: seq<Scope>, b: seq<Scope>, e: Event, hidden: bool)
    requires SameScopes(a, b)
    ensures Nest(a, e, hidden).Some? <==> Nest(b, e, false).Some?
  {
  }

  lemma RunSnocFails(o: GfxOptions, events: seq<Event>, e: Event)
    requires DimensionsOk(o) && Run(o, events).Failure?
    ensures Run(o, events + [e]) == Run(o, events)
  {
    assert (events + [e])[..|events|] == events;
  }

  /** One event outside every cut fails with and without the cuts before it, or with neither. */
  lemma KeptFails(p: Preview, o: GfxOptions, c: Cutting, e: Event)
    requires DimensionsOk(o) && InPace(o, p, c) && c.open == 0 && !(e.kind == START && Hidden(e))
    ensures Run(o, CutStep(c, e).kept) == Step(p, o, e)
  {
    hide Step, Run, Hidden;
    assert p.stack[..|p.stack|] == p.stack;
    RunSnoc(o, c.kept, e);
  }

  /** One well-nested event inside a cut cannot fail. */
  lemma SkippedSucceeds(p: Preview, o: GfxOptions, c: Cutting, e: Event)
    requires DimensionsOk(o) && InPace(o, p, c) && (c.open > 0 || (e.kind == START && Hidden(e)))
    requires Nest(p.stack, e, Unseen(p.stack, e)).Some?
    ensures Step(p, o, e).Success?
  {
    hide Run, Hidden, Nest, Draw;
  }

  /** On a well-nested stream, the run fails where the run on the cut stream fails, and with the same error. */
  lemma {:induction false} CutFails(o: GfxOptions, events: seq<Event>)
    requires DimensionsOk(o) && NestAll([], events).Some? && Run(o, events).Failure?
    ensures Run(o, Cut(events).kept) == Run(o, events)
  {
    hide Step, Hidden, Nest, InPace, Unseen;
    var init, e := events[..|events| - 1], events[|events| - 1];
    if Run(o, init).Failure? {
      CutFails(o, init);
      RunSnocFails(o, Cut(init).kept, e);
    } else {
      var p, c := Run(o, init).value, Cut(init);
      CutKeepsPace(o, init);
      RunNests(o, init);
      NestIgnoresHidden(p.stack, NestAll([], init).value, e, Unseen(p.stack, e));
      if c.open == 0 && !(e.kind == START && Hidden(e)) {
        KeptFails(p, o, c, e);
      } else {
        SkippedSucceeds(p, o, c, e);
      }
    }
  }

  /**
   * Cutting every hidden subtree out of a well-nested stream within the budget leaves the outcome unchanged: the same
   * bytes, or the same error.
   */
  lemma HiddenSubtreesDoNotMatter(events: seq<Event>, o: GfxOptions)
    requires Accepts(events) && Fits(Total(events))
    ensures Emit(WithoutHidden(events), o) == Emit(events, o)
  {
    CutCostsLess(events);
    if DimensionsOk(o) {
      if Run(o, events).Failure? {
        CutFails(o, events);
      } else {
        CutKeepsPace(o, events);
        RunNests(o, events);
        var p := Run(o, events).value;
        assert p.stack == [] && p.stack[..0] == [];
      }
    }
  }

  /** A stream that previews is well nested and within the budget; nothing hidden is left open. */
  lemma PreviewedIsAccepted(events: seq<Event>, o: GfxOptions)
    requires Emit(events, o).Success?
    ensures Accepts(events) && Fits(Total(events)) && Cut(events).open == 0
  {
    CutKeepsPace(o, events);
    RunNests(o, events);
  }

  /** So what is previewed depends on what is left after cutting, and on nothing else. */
  lemma PreviewDependsOnVisibleOnly(a: seq<Event>, b: seq<Event>, o: GfxOptions)
    requires Accepts(a) && Fits(Total(a)) && Accepts(b) && Fits(Total(b)) && WithoutHidden(a) == WithoutHidden(b)
    ensures Emit(a, o) == Emit(b, o)
  {
    hide Emit, Accepts, Fits, Total, WithoutHidden;
    HiddenSubtreesDoNotMatter(a, o);
    HiddenSubtreesDoNotMatter(b, o);
  }

  /** Nothing hidden is left, so cutting again changes nothing. */
  lemma {:induction false} CutIsComplete(events: seq<Event>)
    ensures forall e :: e in WithoutHidden(events) && e.kind == START ==> !Hidden(e)
    ensures Cut(WithoutHidden(events)) == Cutting(WithoutHidden(events), 0)
  {
    if events != [] {
      var init, e := events[..|events| - 1], events[|events| - 1];
      CutIsComplete(init);
      if Cut(events).kept != Cut(init).kept {
        assert Cut(events).kept[..|Cut(init).kept|] == Cut(init).kept;
      }
    }
  }
}
