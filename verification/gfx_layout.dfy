/** Where the glyphs of the preview go: which share a line, and where a space stands (src/core/gfx_ir.cpp). */
module GfxLayout {
  import opened Bytes
  import opened Utf8
  import opened EventStream
  import opened IrModel
  import opened Nesting
  import opened GfxEncoding
  import opened GfxIr
  import opened GfxHidden
  import opened GfxWrap

  // ----- the signs a stream of visible events consists of -----

  datatype Sign = Blank | Break | Glyph(bytes: Str)

  /** The glyphs and blanks of a text. A lead byte takes as many bytes as it announces. */
  function SignsOf(text: Str): seq<Sign>
    decreases |text|
  {
    if text == [] then []
    else if IsBlankByte(text[0]) then [Blank] + SignsOf(text[1..])
    else
      var n := Max(1, Min(LeadLength(text[0]), |text|));
      [Glyph(text[..n])] + SignsOf(text[n..])
  }

  function EventSigns(e: Event): seq<Sign> { (if Breaks(e) then [Break] else []) + SignsOf(Marks(e)) }

  function AllSigns(events: seq<Event>): seq<Sign> {
    if events == [] then [] else AllSigns(events[..|events| - 1]) + EventSigns(events[|events| - 1])
  }

  // ----- what stands between two glyphs -----

  datatype Gap = Nothing | Space | NewLine

  /** What the signs since the last glyph amount to: a break outweighs blanks, and so does the start of the text. */
  function GapAfter(signs: seq<Sign>): Gap {
    if signs == [] then NewLine
    else
      match signs[|signs| - 1]
      case Glyph(_) => Nothing
      case Break => NewLine
      case Blank => if GapAfter(signs[..|signs| - 1]) == NewLine then NewLine else Space
  }

  /** A glyph, and what stands in front of it. */
  datatype Set = Set(bytes: Str, gap: Gap)

  function Sets(signs: seq<Sign>): seq<Set> {
    if signs == [] then []
    else
      var init := signs[..|signs| - 1];
      Sets(init) + if signs[|signs| - 1].Glyph? then [Set(signs[|signs| - 1].bytes, GapAfter(init))] else []
  }

  // ----- lines -----

  /** The text of a line: its glyphs, and one space wherever blanks stand between two of them. */
  function LineText(line: seq<Set>): Str {
    if line == [] then []
    else
      var init, last := line[..|line| - 1], line[|line| - 1];
      LineText(init) + (if init != [] && last.gap == Space then " " else []) + last.bytes
  }

  function Columns(line: seq<Set>): nat {
    if line == [] then 0
    else
      var init, last := line[..|line| - 1], line[|line| - 1];
      Columns(init) + (if init != [] && last.gap == Space then 2 else 1)
  }

  /** Whether a glyph still fits behind what is on a line. */
  predicate HasRoom(line: seq<Set>, g: Set, o: GfxOptions) {
    Columns(line) + (if g.gap == Space then 1 else 0) < Width(o) && |LineText(line)| + |g.bytes| + 1 <= MAX_GFX_TEXT_BYTES
  }

  /** A glyph goes on a line behind others exactly if no break stands in front of it and it fits. */
  predicate Follows(line: seq<Set>, g: Set, o: GfxOptions) { g.gap != NewLine && HasRoom(line, g, o) }

  function Flatten(lines: seq<seq<Set>>): seq<Set> {
    if lines == [] then [] else Flatten(lines[..|lines| - 1]) + lines[|lines| - 1]
  }

  predicate LineFilled(line: seq<Set>, o: GfxOptions) {
    line != [] && forall i :: 0 < i < |line| ==> Follows(line[..i], line[i], o)
  }

  predicate LineFull(line: seq<Set>, next: seq<Set>, o: GfxOptions) { next != [] && !Follows(line, next[0], o) }

  /** The glyphs in order, each line as full as it can be. */
  predicate IsLayout(sets: seq<Set>, lines: seq<seq<Set>>, o: GfxOptions) {
    Flatten(lines) == sets
    && (forall k :: 0 <= k < |lines| ==> LineFilled(lines[k], o))
    && forall k :: 0 < k < |lines| ==> LineFull(lines[k - 1], lines[k], o)
  }

  // ----- the layout, glyph by glyph -----

  function LayoutOf(sets: seq<Set>, o: GfxOptions): seq<seq<Set>> {
    if sets == [] then []
    else PutSet(LayoutOf(sets[..|sets| - 1], o), sets[|sets| - 1], o)
  }

  function PutSet(lines: seq<seq<Set>>, g: Set, o: GfxOptions): seq<seq<Set>> {
    if lines != [] && Follows(lines[|lines| - 1], g, o)
    then lines[..|lines| - 1] + [lines[|lines| - 1] + [g]]
    else lines + [[g]]
  }

  function TextsOf(lines: seq<seq<Set>>): seq<Str> { seq(|lines|, k requires 0 <= k < |lines| => LineText(lines[k])) }

  function FrameTexts(text: seq<GfxText>): seq<Str> { seq(|text|, k requires 0 <= k < |text| => text[k].text) }

  // ----- the pen follows the layout -----

  /** What the pen holds when these are the lines so far, and this is pending. */
  predicate PenAt(pen: Pen, lines: seq<seq<Set>>, gap: Gap) {
    (gap != NewLine ==> lines != [])
    && (pen.space <==> gap == Space)
    && if gap == NewLine then pen.line == [] && pen.columns == 0 && FrameTexts(pen.text) == TextsOf(lines)
       else
         var n := |lines| - 1;
         pen.line == LineText(lines[n]) && pen.line != [] && pen.columns == Columns(lines[n])
         && FrameTexts(pen.text) == TextsOf(lines[..n])
  }

  lemma TextsSnoc(lines: seq<seq<Set>>, line: seq<Set>)
    ensures TextsOf(lines + [line]) == TextsOf(lines) + [LineText(line)]
  {
  }

  lemma FrameTextsSnoc(text: seq<GfxText>, c: GfxText)
    ensures FrameTexts(text + [c]) == FrameTexts(text) + [c.text]
  {
  }

  lemma BreakFollows(pen: Pen, o: GfxOptions, lines: seq<seq<Set>>, gap: Gap)
    requires DimensionsOk(o) && PenAt(pen, lines, gap) && Newline(pen, o).Success?
    ensures PenAt(Newline(pen, o).value, lines, NewLine)
  {
    if gap != NewLine {
      var n := |lines| - 1;
      Unsnoc(lines);
      TextsSnoc(lines[..n], lines[n]);
      FrameTextsSnoc(pen.text, GfxText(LineX(o), 16 + |pen.text| * 18, pen.line));
    }
  }

  lemma LineSnoc(line: seq<Set>, g: Set)
    ensures LineText(line + [g]) == LineText(line) + (if line != [] && g.gap == Space then " " else []) + g.bytes
    ensures Columns(line + [g]) == Columns(line) + (if line != [] && g.gap == Space then 2 else 1)
  {
    assert (line + [g])[..|line|] == line;
  }

  predicate NoneEmpty(lines: seq<seq<Set>>) { forall k :: 0 <= k < |lines| ==> lines[k] != [] }

  lemma GlyphOnLine(pen: Pen, lines: seq<seq<Set>>, g: Set)
    requires PenAt(pen, lines, g.gap) && g.gap != NewLine && g.bytes != [] && NoneEmpty(lines)
    ensures var n := |lines| - 1;
            var lines' := lines[..n] + [lines[n] + [g]];
            PenAt(WriteGlyph(WriteSpace(pen), g.bytes), lines', Nothing) && NoneEmpty(lines')
  {
    hide TextsOf, FrameTexts, LineText, Columns;
    var n := |lines| - 1;
    var lines' := lines[..n] + [lines[n] + [g]];
    LineSnoc(lines[n], g);
    assert lines'[..n] == lines[..n] && lines'[n] == lines[n] + [g];
    EmptyIsUnit(LineText(lines[n]));
    Associate(LineText(lines[n]), " ", g.bytes);
  }

  lemma GlyphOnNew(pen: Pen, lines: seq<seq<Set>>, g: Set)
    requires PenAt(pen, lines, NewLine) && g.bytes != [] && NoneEmpty(lines)
    ensures var lines' := lines + [[g]];
            PenAt(WriteGlyph(WriteSpace(pen), g.bytes), lines', Nothing) && NoneEmpty(lines')
  {
    OneOnLine(g);
    hide TextsOf, FrameTexts, LineText, Columns;
    var lines' := lines + [[g]];
    assert lines'[..|lines|] == lines && lines'[|lines|] == [g];
    EmptyIsUnit(g.bytes);
  }

  lemma OneOnLine(g: Set)
    ensures LineText([g]) == g.bytes && Columns([g]) == 1
  {
    assert [g][..0] == [];
  }

  lemma GlyphFollows(pen: Pen, o: GfxOptions, lines: seq<seq<Set>>, gap: Gap, glyph: Str)
    requires DimensionsOk(o) && PenAt(pen, lines, gap) && 0 < |glyph| <= 4 && PutGlyph(pen, o, glyph).Success?
    requires NoneEmpty(lines)
    ensures PenAt(PutGlyph(pen, o, glyph).value, PutSet(lines, Set(glyph, gap), o), Nothing)
    ensures NoneEmpty(PutSet(lines, Set(glyph, gap), o))
  {
    hide WriteSpace, WriteGlyph, NoneEmpty, LineText, Columns;
    var g := Set(glyph, gap);
    if gap != NewLine && HasRoom(lines[|lines| - 1], g, o) {
      RoomIsThere(pen, o, lines, gap, glyph);
      GlyphOnLine(pen, lines, g);
    } else {
      RoomIsNew(pen, o, lines, gap, glyph);
      GlyphOnNew(MakeRoom(pen, o, |glyph|).value, lines, g);
    }
  }

  lemma RoomIsThere(pen: Pen, o: GfxOptions, lines: seq<seq<Set>>, gap: Gap, glyph: Str)
    requires DimensionsOk(o) && PenAt(pen, lines, gap)
    requires gap != NewLine && HasRoom(lines[|lines| - 1], Set(glyph, gap), o)
    ensures MakeRoom(pen, o, |glyph|) == Success(pen)
  {
  }

  lemma RoomIsNew(pen: Pen, o: GfxOptions, lines: seq<seq<Set>>, gap: Gap, glyph: Str)
    requires DimensionsOk(o) && PenAt(pen, lines, gap) && 0 < |glyph| <= 4 && MakeRoom(pen, o, |glyph|).Success?
    requires gap == NewLine || !HasRoom(lines[|lines| - 1], Set(glyph, gap), o)
    ensures PenAt(MakeRoom(pen, o, |glyph|).value, lines, NewLine)
  {
    if gap != NewLine {
      BreakFollows(pen, o, lines, gap);
    }
  }

  // ----- whole runs -----

  lemma SignsAppendOne(signs: seq<Sign>, x: Sign)
    ensures GapAfter(signs + [x])
            == match x case Glyph(_) => Nothing case Break => NewLine
                       case Blank => if GapAfter(signs) == NewLine then NewLine else Space
    ensures Sets(signs + [x]) == Sets(signs) + if x.Glyph? then [Set(x.bytes, GapAfter(signs))] else []
  {
    assert (signs + [x])[..|signs|] == signs;
  }

  lemma LayoutSnoc(sets: seq<Set>, g: Set, o: GfxOptions)
    ensures LayoutOf(sets + [g], o) == PutSet(LayoutOf(sets, o), g, o)
  {
    assert (sets + [g])[..|sets|] == sets;
  }

  /** The pen stands where the layout of these signs says. */
  predicate InStep(pen: Pen, o: GfxOptions, signs: seq<Sign>) {
    var lines := LayoutOf(Sets(signs), o);
    PenAt(pen, lines, GapAfter(signs)) && NoneEmpty(lines)
  }

  lemma BlankInStep(pen: Pen, o: GfxOptions, signs: seq<Sign>)
    requires InStep(pen, o, signs)
    ensures InStep(pen.(space := pen.line != []), o, signs + [Blank])
  {
    hide LayoutOf, TextsOf, FrameTexts, LineText, Columns, Sets, GapAfter;
    SignsAppendOne(signs, Blank);
    EmptyIsUnit(Sets(signs));
  }

  lemma GlyphInStep(pen: Pen, o: GfxOptions, signs: seq<Sign>, glyph: Str)
    requires DimensionsOk(o) && InStep(pen, o, signs) && 0 < |glyph| <= 4 && PutGlyph(pen, o, glyph).Success?
    ensures InStep(PutGlyph(pen, o, glyph).value, o, signs + [Glyph(glyph)])
  {
    hide LayoutOf, PenAt, PutGlyph, PutSet, Sets, GapAfter, NoneEmpty;
    SignsAppendOne(signs, Glyph(glyph));
    LayoutSnoc(Sets(signs), Set(glyph, GapAfter(signs)), o);
    GlyphFollows(pen, o, LayoutOf(Sets(signs), o), GapAfter(signs), glyph);
  }

  lemma BreakInStep(pen: Pen, o: GfxOptions, signs: seq<Sign>)
    requires DimensionsOk(o) && InStep(pen, o, signs) && Newline(pen, o).Success?
    ensures InStep(Newline(pen, o).value, o, signs + [Break])
  {
    hide LayoutOf, PenAt, Newline, Sets, GapAfter, NoneEmpty;
    SignsAppendOne(signs, Break);
    EmptyIsUnit(Sets(signs));
    BreakFollows(pen, o, LayoutOf(Sets(signs), o), GapAfter(signs));
  }

  lemma {:induction false} AppendInStep(pen: Pen, o: GfxOptions, signs: seq<Sign>, text: Str)
    requires DimensionsOk(o) && InStep(pen, o, signs) && Append(pen, o, text).Success?
    ensures InStep(Append(pen, o, text).value, o, signs + SignsOf(text))
    decreases |text|
  {
    hide InStep, PutGlyph;
    if text == [] {
      EmptyIsUnit(signs);
    } else if IsBlankByte(text[0]) {
      BlankInStep(pen, o, signs);
      AppendInStep(pen.(space := pen.line != []), o, signs + [Blank], text[1..]);
      Associate(signs, [Blank], SignsOf(text[1..]));
    } else {
      var n := LeadLength(text[0]);
      GlyphInStep(pen, o, signs, text[..n]);
      AppendInStep(PutGlyph(pen, o, text[..n]).value, o, signs + [Glyph(text[..n])], text[n..]);
      Associate(signs, [Glyph(text[..n])], SignsOf(text[n..]));
    }
  }

  lemma DrawInStep(pen: Pen, o: GfxOptions, signs: seq<Sign>, e: Event)
    requires DimensionsOk(o) && InStep(pen, o, signs) && Draw(pen, o, e).Success?
    ensures InStep(Draw(pen, o, e).value, o, signs + EventSigns(e))
  {
    hide InStep, Append, Newline, Marks, Breaks, SignsOf;
    if Breaks(e) {
      BreakInStep(pen, o, signs);
      AppendInStep(Newline(pen, o).value, o, signs + [Break], Marks(e));
      Associate(signs, [Break], SignsOf(Marks(e)));
    } else {
      AppendInStep(pen, o, signs, Marks(e));
      EmptyIsUnit(SignsOf(Marks(e)));
    }
  }

  lemma SignsSnoc(events: seq<Event>, e: Event)
    ensures AllSigns(events + [e]) == AllSigns(events) + EventSigns(e)
  {
    assert (events + [e])[..|events|] == events;
  }

  lemma NothingInStep(o: GfxOptions)
    ensures InStep(EMPTY_PEN, o, AllSigns([]))
  {
  }

  lemma StepInStep(o: GfxOptions, p: Preview, kept: seq<Event>, e: Event)
    requires DimensionsOk(o) && Step(p, o, e).Success? && InStep(p.pen, o, AllSigns(kept))
    ensures InStep(Step(p, o, e).value.pen, o, AllSigns(if Unseen(p.stack, e) then kept else kept + [e]))
  {
    hide Draw, InStep, Unseen, AllSigns, EventSigns;
    if !Unseen(p.stack, e) {
      DrawInStep(p.pen, o, AllSigns(kept), e);
      SignsSnoc(kept, e);
    }
  }

  lemma {:induction false} RunInStep(o: GfxOptions, events: seq<Event>)
    requires DimensionsOk(o) && Run(o, events).Success?
    ensures InStep(Run(o, events).value.pen, o, AllSigns(WithoutHidden(events)))
  {
    hide InStep, Step, AllSigns, Unseen;
    if events == [] {
      NothingInStep(o);
    } else {
      var init, e := events[..|events| - 1], events[|events| - 1];
      RunInStep(o, init);
      CutKeepsPace(o, init);
      var p := Run(o, init).value;
      SeenOrCut(p.stack, Cut(init), e);
      StepInStep(o, p, Cut(init).kept, e);
    }
  }

  /** The glyphs of what is visible, each with what stands in front of it. */
  function VisibleSets(events: seq<Event>): seq<Set> { Sets(AllSigns(WithoutHidden(events))) }

  lemma FrameIsLaidOut(o: GfxOptions, events: seq<Event>)
    requires DimensionsOk(o) && LowerToFrame(o, events).Success?
    ensures FrameTexts(LowerToFrame(o, events).value.text) == TextsOf(LayoutOf(VisibleSets(events), o))
  {
    hide Run, AllSigns, WithoutHidden, LayoutOf, TextsOf, FrameTexts, Sets, GapAfter, Newline, NoneEmpty, LineText, Columns;
    RunInStep(o, events);
    var signs := AllSigns(WithoutHidden(events));
    BreakFollows(Run(o, events).value.pen, o, LayoutOf(Sets(signs), o), GapAfter(signs));
  }

  // ----- the layout is the only one -----

  lemma FlattenSnoc(lines: seq<seq<Set>>, line: seq<Set>)
    ensures Flatten(lines + [line]) == Flatten(lines) + line
  {
    assert (lines + [line])[..|lines|] == lines;
  }

  /** A layout of one glyph more is the layout of the others with that glyph put where it belongs. */
  lemma PutIsLayout(sets: seq<Set>, lines: seq<seq<Set>>, g: Set, o: GfxOptions)
    requires IsLayout(sets, lines, o)
    ensures IsLayout(sets + [g], PutSet(lines, g, o), o)
  {
    hide HasRoom, Follows;
    var n, lines' := |lines| - 1, PutSet(lines, g, o);
    if lines != [] && Follows(lines[n], g, o) {
      var line := lines[n] + [g];
      Unsnoc(lines);
      FlattenSnoc(lines[..n], lines[n]);
      FlattenSnoc(lines[..n], line);
      Associate(Flatten(lines[..n]), lines[n], [g]);
      FilledSnoc(lines[n], g, o);
      assert line[0] == lines[n][0];
    } else {
      FlattenSnoc(lines, [g]);
    }
  }

  lemma FilledSnoc(line: seq<Set>, g: Set, o: GfxOptions)
    requires LineFilled(line, o) && Follows(line, g, o)
    ensures LineFilled(line + [g], o)
  {
    hide Follows;
    var all := line + [g];
    forall i | 0 < i < |all| ensures Follows(all[..i], all[i], o) {
      assert all[..i] == if i < |line| then line[..i] else line;
    }
  }

  lemma {:induction false} LayoutIsLayout(sets: seq<Set>, o: GfxOptions)
    ensures IsLayout(sets, LayoutOf(sets, o), o)
  {
    hide PutSet;
    if sets != [] {
      var init, g := sets[..|sets| - 1], sets[|sets| - 1];
      LayoutIsLayout(init, o);
      PutIsLayout(init, LayoutOf(init, o), g, o);
      Unsnoc(sets);
    } else {
      NoLines(o);
    }
  }

  lemma NoLines(o: GfxOptions)
    ensures IsLayout([], [], o)
  {
  }

  lemma LinesThere(sets: seq<Set>, lines: seq<seq<Set>>, o: GfxOptions)
    requires IsLayout(sets, lines, o)
    ensures sets == [] <==> lines == []
    ensures lines != [] ==> lines[|lines| - 1] != [] && sets == Flatten(lines[..|lines| - 1]) + lines[|lines| - 1]
  {
    hide Follows;
  }

  /** The last glyph stands alone on its line. */
  lemma LastAlone(sets: seq<Set>, lines: seq<seq<Set>>, o: GfxOptions)
    requires IsLayout(sets, lines, o) && lines != [] && |lines[|lines| - 1]| == 1
    ensures sets != [] && IsLayout(sets[..|sets| - 1], lines[..|lines| - 1], o)
    ensures lines == PutSet(lines[..|lines| - 1], sets[|sets| - 1], o)
  {
    hide Follows, Flatten;
    var n := |lines| - 1;
    var before, last := lines[..n], lines[n];
    LinesThere(sets, lines, o);
    assert sets[..|sets| - 1] == Flatten(before) && sets[|sets| - 1] == last[0] && last == [last[0]];
    assert n > 0 ==> LineFull(lines[n - 1], last, o) && before[n - 1] == lines[n - 1];
    Unsnoc(lines);
  }

  /** The last glyph stands behind others. */
  lemma LastBehind(sets: seq<Set>, lines: seq<seq<Set>>, o: GfxOptions)
    requires IsLayout(sets, lines, o) && lines != [] && |lines[|lines| - 1]| > 1
    ensures sets != []
    ensures var n := |lines| - 1;
            var shorter := lines[..n] + [lines[n][..|lines[n]| - 1]];
            IsLayout(sets[..|sets| - 1], shorter, o) && lines == PutSet(shorter, sets[|sets| - 1], o)
  {
    hide Follows, Flatten;
    var n := |lines| - 1;
    var before, last := lines[..n], lines[n];
    var line, g := last[..|last| - 1], last[|last| - 1];
    var shorter := before + [line];
    LinesThere(sets, lines, o);
    FlattenSnoc(before, line);
    Unsnoc(last);
    assert sets == (Flatten(before) + line) + [g];
    assert LineFilled(last, o) && Follows(last[..|last| - 1], last[|last| - 1], o);
    FilledShorter(last, o);
    assert n > 0 ==> LineFull(lines[n - 1], last, o) && line[0] == last[0];
    assert shorter[..n] == before;
    Unsnoc(lines);
  }

  lemma FilledShorter(line: seq<Set>, o: GfxOptions)
    requires LineFilled(line, o) && |line| > 1
    ensures LineFilled(line[..|line| - 1], o)
  {
    hide Follows;
    var shorter := line[..|line| - 1];
    forall i | 0 < i < |shorter| ensures Follows(shorter[..i], shorter[i], o) {
      assert shorter[..i] == line[..i];
    }
  }

  /** There is one layout only. */
  lemma {:induction false} LayoutIsUnique(sets: seq<Set>, lines: seq<seq<Set>>, o: GfxOptions)
    requires IsLayout(sets, lines, o)
    ensures lines == LayoutOf(sets, o)
    decreases |sets|
  {
    hide IsLayout, PutSet;
    LinesThere(sets, lines, o);
    if lines != [] {
      var n := |lines| - 1;
      if |lines[n]| == 1 {
        LastAlone(sets, lines, o);
        LayoutIsUnique(sets[..|sets| - 1], lines[..n], o);
      } else {
        LastBehind(sets, lines, o);
        LayoutIsUnique(sets[..|sets| - 1], lines[..n] + [lines[n][..|lines[n]| - 1]], o);
      }
    }
  }

  // ----- what a client sees -----

  /**
   * Between two glyphs with no other between them: a line break if there is a break among the signs, otherwise a space if
   * there is a blank, otherwise nothing.
   */
  lemma {:induction false} GapBetween(signs: seq<Sign>, k: nat)
    requires k < |signs| && signs[k].Glyph? && forall i :: k < i < |signs| ==> !signs[i].Glyph?
    ensures GapAfter(signs) == NewLine <==> Break in signs[k + 1..]
    ensures GapAfter(signs) == Space <==> Break !in signs[k + 1..] && Blank in signs[k + 1..]
    ensures GapAfter(signs) == Nothing <==> k == |signs| - 1
    decreases |signs|
  {
    if k < |signs| - 1 {
      var init, last := signs[..|signs| - 1], signs[|signs| - 1];
      GapBetween(init, k);
      assert signs[k + 1..] == init[k + 1..] + [last];
    } else {
      assert signs[k + 1..] == [];
    }
  }

  /** The lines of a decoded preview are the one layout of what is visible: each glyph where it belongs, spaces and all. */
  lemma PreviewIsLaidOut(events: seq<Event>, o: GfxOptions, lines: seq<seq<Set>>)
    requires Emit(events, o).Success? && IsLayout(VisibleSets(events), lines, o)
    ensures var decoded := ParseFrame(Emit(events, o).value);
            decoded.Some? && FrameTexts(decoded.value.text) == TextsOf(lines)
  {
    hide Run, LayoutOf, TextsOf, FrameTexts, VisibleSets, IsLayout, LowerToFrame;
    LayoutIsUnique(VisibleSets(events), lines, o);
    var frame := LowerToFrame(o, events).value;
    FrameIsLaidOut(o, events);
    FrameBijection(FrameWire(frame), frame);
  }

  // ----- when the lines are too many or too large -----

  function SizeOf(texts: seq<Str>): nat {
    if texts == [] then 0 else SizeOf(texts[..|texts| - 1]) + 13 + |texts[|texts| - 1]|
  }

  /** As many lines as the frame may have and as the surface is deep, and no more bytes than it may have. */
  predicate Limits(texts: seq<Str>) {
    |texts| <= MAX_GFX_COMMANDS && 16 + (|texts| - 1) * 18 <= MAX_GFX_CONTENT_HEIGHT && 17 + SizeOf(texts) <= MAX_GFX_BYTES
  }

  lemma SizeSnoc(texts: seq<Str>, t: Str)
    ensures SizeOf(texts + [t]) == SizeOf(texts) + 13 + |t|
  {
    assert (texts + [t])[..|texts|] == texts;
  }

  lemma {:induction false} FrameSize(text: seq<GfxText>)
    ensures SizeOf(FrameTexts(text)) == CommandsSize(text)
  {
    if text != [] {
      var init, last := text[..|text| - 1], text[|text| - 1];
      FrameSize(init);
      FrameTextsSnoc(init, last);
      SizeSnoc(FrameTexts(init), last.text);
      Unsnoc(text);
    }
  }

  /** A line is broken unless the lines up to it exceed the limits. */
  lemma BreakLimits(pen: Pen, o: GfxOptions, lines: seq<seq<Set>>, gap: Gap)
    requires DimensionsOk(o) && PenAt(pen, lines, gap) && Accounted(pen)
    ensures Newline(pen, o).Failure? <==> gap != NewLine && !Limits(TextsOf(lines))
    ensures Newline(pen, o).Failure? ==> Newline(pen, o) == Failure(ResourceLimit)
  {
    FrameSize(pen.text);
    if gap != NewLine {
      var n := |lines| - 1;
      Unsnoc(lines);
      TextsSnoc(lines[..n], lines[n]);
      SizeSnoc(TextsOf(lines[..n]), LineText(lines[n]));
    }
  }

  lemma LongerLine(lines: seq<seq<Set>>, g: Set, o: GfxOptions)
    ensures var a, b := TextsOf(lines), TextsOf(PutSet(lines, g, o)); |a| <= |b| && SizeOf(a) <= SizeOf(b)
  {
    hide Follows, LineText;
    if lines != [] && Follows(lines[|lines| - 1], g, o) {
      var n := |lines| - 1;
      Unsnoc(lines);
      TextsSnoc(lines[..n], lines[n]);
      TextsSnoc(lines[..n], lines[n] + [g]);
      SizeSnoc(TextsOf(lines[..n]), LineText(lines[n]));
      SizeSnoc(TextsOf(lines[..n]), LineText(lines[n] + [g]));
      LineSnoc(lines[n], g);
    } else {
      TextsSnoc(lines, [g]);
      SizeSnoc(TextsOf(lines), LineText([g]));
    }
  }

  /** The lines of the signs so far. */
  function LinesOf(signs: seq<Sign>, o: GfxOptions): seq<Str> { TextsOf(LayoutOf(Sets(signs), o)) }

  lemma {:induction false} MoreSigns(signs: seq<Sign>, more: seq<Sign>, o: GfxOptions)
    requires Limits(LinesOf(signs + more, o))
    ensures Limits(LinesOf(signs, o))
    decreases |more|
  {
    hide LayoutOf, TextsOf, Sets, PutSet;
    if more == [] {
      EmptyIsUnit(signs);
    } else {
      var init, last := more[..|more| - 1], more[|more| - 1];
      Unsnoc(more);
      Associate(signs, init, [last]);
      SignsAppendOne(signs + init, last);
      if last.Glyph? {
        var g := Set(last.bytes, GapAfter(signs + init));
        LayoutSnoc(Sets(signs + init), g, o);
        LongerLine(LayoutOf(Sets(signs + init), o), g, o);
      } else {
        EmptyIsUnit(Sets(signs + init));
      }
      MoreSigns(signs, init, o);
    }
  }

  /** What is appended runs out only if the lines it makes exceed the limits. */
  lemma {:induction false} AppendLimits(pen: Pen, o: GfxOptions, signs: seq<Sign>, text: Str)
    requires DimensionsOk(o) && InStep(pen, o, signs) && Accounted(pen)
    requires Append(pen, o, text) == Failure(ResourceLimit)
    ensures !Limits(LinesOf(signs + SignsOf(text), o))
    decreases |text|
  {
    hide InStep, Accounted, PutGlyph, Limits, LinesOf;
    if IsBlankByte(text[0]) {
      BlankInStep(pen, o, signs);
      AccountedSpace(pen);
      AppendLimits(pen.(space := pen.line != []), o, signs + [Blank], text[1..]);
      Associate(signs, [Blank], SignsOf(text[1..]));
    } else {
      var n := LeadLength(text[0]);
      var glyph := text[..n];
      Associate(signs, [Glyph(glyph)], SignsOf(text[n..]));
      if PutGlyph(pen, o, glyph).Success? {
        GlyphInStep(pen, o, signs, glyph);
        AccountedGlyph(pen, o, glyph);
        AppendLimits(PutGlyph(pen, o, glyph).value, o, signs + [Glyph(glyph)], text[n..]);
      } else {
        GlyphLimits(pen, o, signs, glyph);
        if Limits(LinesOf(signs + SignsOf(text), o)) { MoreSigns(signs, SignsOf(text), o); }
      }
    }
  }

  lemma AccountedSpace(pen: Pen)
    requires Accounted(pen)
    ensures Accounted(pen.(space := pen.line != []))
  {
  }

  lemma AccountedGlyph(pen: Pen, o: GfxOptions, glyph: Str)
    requires DimensionsOk(o) && Accounted(pen) && PutGlyph(pen, o, glyph).Success?
    ensures Accounted(PutGlyph(pen, o, glyph).value)
  {
    hide Newline;
    if Newline(pen, o).Success? { NewlineAccounted(pen, o); }
  }

  lemma GlyphLimits(pen: Pen, o: GfxOptions, signs: seq<Sign>, glyph: Str)
    requires DimensionsOk(o) && InStep(pen, o, signs) && Accounted(pen) && PutGlyph(pen, o, glyph).Failure?
    ensures !Limits(LinesOf(signs, o))
  {
    hide PenAt, Newline, Accounted, LayoutOf, TextsOf, Sets, GapAfter, Limits, NoneEmpty;
    BreakLimits(pen, o, LayoutOf(Sets(signs), o), GapAfter(signs));
  }

  lemma DrawLimits(pen: Pen, o: GfxOptions, signs: seq<Sign>, e: Event)
    requires DimensionsOk(o) && InStep(pen, o, signs) && Accounted(pen) && Draw(pen, o, e) == Failure(ResourceLimit)
    ensures !Limits(LinesOf(signs + EventSigns(e), o))
  {
    hide InStep, Append, Newline, Marks, Breaks, SignsOf, Accounted, Limits, LinesOf;
    if Breaks(e) {
      if Newline(pen, o).Success? {
        BreakInStep(pen, o, signs);
        NewlineAccounted(pen, o);
        AppendLimits(Newline(pen, o).value, o, signs + [Break], Marks(e));
        Associate(signs, [Break], SignsOf(Marks(e)));
      } else {
        LineLimits(pen, o, signs);
        if Limits(LinesOf(signs + EventSigns(e), o)) { MoreSigns(signs, EventSigns(e), o); }
      }
    } else {
      AppendLimits(pen, o, signs, Marks(e));
      EmptyIsUnit(SignsOf(Marks(e)));
    }
  }

  lemma LineLimits(pen: Pen, o: GfxOptions, signs: seq<Sign>)
    requires DimensionsOk(o) && InStep(pen, o, signs) && Accounted(pen) && Newline(pen, o).Failure?
    ensures !Limits(LinesOf(signs, o))
  {
    hide PenAt, Newline, Accounted, LayoutOf, TextsOf, Sets, GapAfter, Limits, NoneEmpty;
    BreakLimits(pen, o, LayoutOf(Sets(signs), o), GapAfter(signs));
  }

  /** A run that runs out has more visible lines than the limits allow. */
  lemma {:induction false} RunLimits(o: GfxOptions, events: seq<Event>)
    requires DimensionsOk(o) && Run(o, events) == Failure(ResourceLimit)
    ensures !Limits(LinesOf(AllSigns(WithoutHidden(events)), o))
  {
    hide InStep, Draw, AllSigns, Unseen, Limits, LinesOf, Accounted, EventSigns, Nest, Hidden;
    var init, e := events[..|events| - 1], events[|events| - 1];
    SignsSnoc(Cut(init).kept, e);
    if Run(o, init).Failure? {
      RunLimits(o, init);
      CutGrows(init, e);
      Unsnoc(events);
      if Limits(LinesOf(AllSigns(WithoutHidden(events)), o)) && WithoutHidden(events) != WithoutHidden(init) {
        MoreSigns(AllSigns(WithoutHidden(init)), EventSigns(e), o);
      }
    } else {
      RunInStep(o, init);
      RunAccounted(o, init);
      CutKeepsPace(o, init);
      var p := Run(o, init).value;
      SeenOrCut(p.stack, Cut(init), e);
      DrawLimits(p.pen, o, AllSigns(WithoutHidden(init)), e);
    }
  }

  lemma CutGrows(events: seq<Event>, e: Event)
    ensures var a, b := WithoutHidden(events), WithoutHidden(events + [e]); b == a || b == a + [e]
  {
    hide Hidden;
    assert (events + [e])[..|events|] == events;
  }

  /** The last line runs out only if all lines together exceed the limits, and so does the whole frame. */
  lemma FrameLimits(o: GfxOptions, events: seq<Event>)
    requires DimensionsOk(o) && (Run(o, events).Success? || Run(o, events) == Failure(ResourceLimit))
    requires Run(o, events).Success? ==> Run(o, events).value.stack == []
    ensures LowerToFrame(o, events).Success? <==> Limits(TextsOf(LayoutOf(VisibleSets(events), o)))
    ensures LowerToFrame(o, events).Success? || LowerToFrame(o, events) == Failure(ResourceLimit)
  {
    hide Run, AllSigns, WithoutHidden, LayoutOf, TextsOf, Sets, GapAfter, Newline, NoneEmpty, Limits, PenAt, Accounted;
    if Run(o, events).Success? {
      var pen, signs := Run(o, events).value.pen, AllSigns(WithoutHidden(events));
      RunInStep(o, events);
      RunAccounted(o, events);
      BreakLimits(pen, o, LayoutOf(Sets(signs), o), GapAfter(signs));
      if Newline(pen, o).Success? {
        NewlineAccounted(pen, o);
        FrameIsLaidOut(o, events);
        FrameInLimits(o, events);
      }
    } else {
      RunLimits(o, events);
    }
  }

  lemma FrameInLimits(o: GfxOptions, events: seq<Event>)
    requires DimensionsOk(o) && LowerToFrame(o, events).Success?
    ensures Limits(FrameTexts(LowerToFrame(o, events).value.text))
  {
    var text := LowerToFrame(o, events).value.text;
    FrameFaithful(o, events);
    FrameSize(text);
    hide Run, FrameTexts, LowerToFrame, CommandsSize, SizeOf, WithoutHidden, Ink, Lines, AllMarks;
    if text != [] { assert LineOk(text[|text| - 1], |text| - 1, o); }
    assert |FrameTexts(text)| == |text| by { TextsLength(text); }
  }

  lemma TextsLength(text: seq<GfxText>)
    ensures |FrameTexts(text)| == |text|
  {
  }
}
