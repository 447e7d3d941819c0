/** Wrapping loses no text and respects its bounds (src/core/gfx_ir.cpp). */
module GfxWrap {
  import opened Bytes
  import opened Utf8
  import opened EventStream
  import opened IrModel
  import opened Nesting
  import opened GfxEncoding
  import opened GfxIr
  import opened GfxHidden

  // ----- ink: the bytes that are not blank -----

  function Ink(s: Str): Str {
    if s == [] then [] else Ink(s[..|s| - 1]) + if IsBlankByte(s[|s| - 1]) then [] else [s[|s| - 1]]
  }

  lemma {:induction false} InkAppend(a: Str, b: Str)
    ensures Ink(a + b) == Ink(a) + Ink(b)
  {
    if b == [] {
      assert a + b == a;
    } else {
      InkAppend(a, b[..|b| - 1]);
      assert (a + b)[..|a + b| - 1] == a + b[..|b| - 1];
    }
  }

  /** The text of all lines, one after the other. */
  function Lines(text: seq<GfxText>): Str {
    if text == [] then [] else Lines(text[..|text| - 1]) + text[|text| - 1].text
  }

  function InkOf(pen: Pen): Str { Ink(Lines(pen.text)) + Ink(pen.line) }

  /** What a stream of visible events writes, in order. */
  function AllMarks(events: seq<Event>): Str {
    if events == [] then [] else AllMarks(events[..|events| - 1]) + Marks(events[|events| - 1])
  }

  lemma NewlineKeepsInk(pen: Pen, o: GfxOptions)
    requires DimensionsOk(o) && Newline(pen, o).Success?
    ensures InkOf(Newline(pen, o).value) == InkOf(pen)
  {
    if pen.line != [] {
      var text := Newline(pen, o).value.text;
      assert text[..|text| - 1] == pen.text;
      InkAppend(Lines(pen.text), pen.line);
    }
  }

  lemma WriteSpaceInk(pen: Pen)
    ensures InkOf(WriteSpace(pen)) == InkOf(pen)
  {
    InkAppend(pen.line, " ");
    assert " "[..0] == [];
  }

  lemma PutGlyphInk(pen: Pen, o: GfxOptions, glyph: Str)
    requires DimensionsOk(o) && PutGlyph(pen, o, glyph).Success?
    ensures InkOf(PutGlyph(pen, o, glyph).value) == InkOf(pen) + Ink(glyph)
  {
    hide Newline, WriteSpace, Ink, Lines, Width;
    if Newline(pen, o).Success? {
      NewlineKeepsInk(pen, o);
    }
    var room := MakeRoom(pen, o, |glyph|).value;
    WriteSpaceInk(room);
    InkAppend(WriteSpace(room).line, glyph);
  }

  lemma {:induction false} AppendInk(pen: Pen, o: GfxOptions, text: Str)
    requires DimensionsOk(o) && Append(pen, o, text).Success?
    ensures InkOf(Append(pen, o, text).value) == InkOf(pen) + Ink(text)
    decreases |text|
  {
    if text != [] {
      var n := if IsBlankByte(text[0]) then 1 else LeadLength(text[0]);
      assert text == text[..n] + text[n..];
      InkAppend(text[..n], text[n..]);
      if IsBlankByte(text[0]) {
        assert text[..1] == [text[0]] && [text[0]][..0] == [];
        AppendInk(pen.(space := pen.line != []), o, text[1..]);
      } else {
        PutGlyphInk(pen, o, text[..n]);
        AppendInk(PutGlyph(pen, o, text[..n]).value, o, text[n..]);
      }
    }
  }

  lemma DrawInk(pen: Pen, o: GfxOptions, e: Event)
    requires DimensionsOk(o) && Draw(pen, o, e).Success?
    ensures InkOf(Draw(pen, o, e).value) == InkOf(pen) + Ink(Marks(e))
  {
    hide Marks, Append, Newline, InkOf;
    if Breaks(e) {
      NewlineKeepsInk(pen, o);
      AppendInk(Newline(pen, o).value, o, Marks(e));
    } else {
      AppendInk(pen, o, Marks(e));
    }
  }

  // ----- columns: one for each lead byte and what it announces -----

  predicate Whole(s: Str) {
    s == [] || (0 < LeadLength(s[0]) <= |s| && Whole(s[LeadLength(s[0])..]))
  }

  function Cells(s: Str): nat
    requires Whole(s)
  {
    if s == [] then 0 else 1 + Cells(s[LeadLength(s[0])..])
  }

  lemma {:induction false} WholeAppend(a: Str, b: Str)
    requires Whole(a) && Whole(b)
    ensures Whole(a + b) && Cells(a + b) == Cells(a) + Cells(b)
  {
    if a == [] {
      assert a + b == b;
    } else {
      var n := LeadLength(a[0]);
      WholeAppend(a[n..], b);
      assert (a + b)[n..] == a[n..] + b;
    }
  }

  /** For UTF-8, columns are scalar values. */
  lemma {:induction false} CellsAreScalars(s: Str)
    requires IsUtf8(s)
    ensures Whole(s) && Cells(s) == |Decode(s)|
  {
    if s != [] {
      CellsAreScalars(s[LeadLength(s[0])..]);
    }
  }

  // ----- layout: where lines go and how large they get -----

  predicate LineOk(c: GfxText, k: nat, o: GfxOptions)
    requires DimensionsOk(o)
  {
    && c.x == LineX(o) && c.y == 16 + 18 * k <= MAX_GFX_CONTENT_HEIGHT
    && 0 < |c.text| <= MAX_GFX_TEXT_BYTES
    && Whole(c.text) && Cells(c.text) <= Width(o)
  }

  predicate Laid(text: seq<GfxText>, o: GfxOptions)
    requires DimensionsOk(o)
  {
    forall k :: 0 <= k < |text| ==> LineOk(text[k], k, o)
  }

  predicate PenOk(pen: Pen, o: GfxOptions)
    requires DimensionsOk(o)
  {
    && Laid(pen.text, o)
    && Whole(pen.line) && pen.columns == Cells(pen.line) <= Width(o)
    && |pen.line| <= MAX_GFX_TEXT_BYTES
  }

  lemma NewlineLays(pen: Pen, o: GfxOptions)
    requires DimensionsOk(o) && PenOk(pen, o) && Newline(pen, o).Success?
    ensures PenOk(Newline(pen, o).value, o)
  {
  }

  /** One glyph: a lead byte and the bytes it announces. */
  predicate IsGlyph(s: Str) { s != [] && LeadLength(s[0]) == |s| }

  lemma OneCell(s: Str)
    requires IsGlyph(s)
    ensures Whole(s) && Cells(s) == 1
  {
    assert s[|s|..] == [];
  }

  /** Room has been made: one glyph, and a space if one is pending, still fit. */
  predicate Roomy(pen: Pen, o: GfxOptions, n: nat)
    requires DimensionsOk(o)
  {
    var spaces := if pen.space then 1 else 0;
    pen.columns + spaces + 1 <= Width(o) && |pen.line| + spaces + n <= MAX_GFX_TEXT_BYTES
  }

  lemma MakeRoomWorks(pen: Pen, o: GfxOptions, n: nat)
    requires DimensionsOk(o) && PenOk(pen, o) && n <= 4 && MakeRoom(pen, o, n).Success?
    ensures PenOk(MakeRoom(pen, o, n).value, o) && Roomy(MakeRoom(pen, o, n).value, o, n)
  {
    if Newline(pen, o).Success? {
      NewlineLays(pen, o);
    }
  }

  lemma PutGlyphLays(pen: Pen, o: GfxOptions, glyph: Str)
    requires DimensionsOk(o) && PenOk(pen, o) && IsGlyph(glyph) && PutGlyph(pen, o, glyph).Success?
    ensures PenOk(PutGlyph(pen, o, glyph).value, o)
  {
    hide MakeRoom, Laid, Width;
    MakeRoomWorks(pen, o, |glyph|);
    OneCell(glyph);
    OneCell(" ");
    var room := MakeRoom(pen, o, |glyph|).value;
    WholeAppend(room.line, " ");
    WholeAppend(WriteSpace(room).line, glyph);
  }

  lemma {:induction false} AppendLays(pen: Pen, o: GfxOptions, text: Str)
    requires DimensionsOk(o) && PenOk(pen, o) && Append(pen, o, text).Success?
    ensures PenOk(Append(pen, o, text).value, o)
    decreases |text|
  {
    if text != [] {
      if IsBlankByte(text[0]) {
        AppendLays(pen.(space := pen.line != []), o, text[1..]);
      } else {
        var n := LeadLength(text[0]);
        PutGlyphLays(pen, o, text[..n]);
        AppendLays(PutGlyph(pen, o, text[..n]).value, o, text[n..]);
      }
    }
  }

  lemma DrawLays(pen: Pen, o: GfxOptions, e: Event)
    requires DimensionsOk(o) && PenOk(pen, o) && Draw(pen, o, e).Success?
    ensures PenOk(Draw(pen, o, e).value, o)
  {
    hide Marks, Append, Newline, PenOk;
    if Breaks(e) {
      NewlineLays(pen, o);
      AppendLays(Newline(pen, o).value, o, Marks(e));
    } else {
      AppendLays(pen, o, Marks(e));
    }
  }

  // ----- valid input makes valid lines -----

  predicate CleanPen(pen: Pen) {
    TextOk(pen.line) && forall c :: c in pen.text ==> TextOk(c.text)
  }

  lemma TextOkAppend(a: Str, b: Str)
    requires TextOk(a) && TextOk(b)
    ensures TextOk(a + b)
  {
    Utf8Append(a, b);
  }

  lemma NewlineCleans(pen: Pen, o: GfxOptions)
    requires DimensionsOk(o) && CleanPen(pen)
    ensures Newline(pen, o).Success? ==> CleanPen(Newline(pen, o).value)
  {
    assert TextOk([]);
  }

  lemma PutGlyphCleans(pen: Pen, o: GfxOptions, glyph: Str)
    requires DimensionsOk(o) && CleanPen(pen) && TextOk(glyph) && PutGlyph(pen, o, glyph).Success?
    ensures CleanPen(PutGlyph(pen, o, glyph).value)
  {
    assert TextOk(" ") by { assert " "[1..] == []; }
    NewlineCleans(pen, o);
    hide TextOk, Newline, Width;
    var room := MakeRoom(pen, o, |glyph|).value;
    TextOkAppend(room.line, " ");
    TextOkAppend(WriteSpace(room).line, glyph);
  }

  lemma GlyphOk(text: Str)
    requires FrontOk(text) && !IsBlankByte(text[0])
    ensures TextOk(text[..LeadLength(text[0])])
  {
    var n := LeadLength(text[0]);
    var glyph := text[..n];
    assert FrontOk(glyph) && glyph[n..] == [];
    forall c | c in glyph ensures !IsControl(c) {
      var i :| 0 <= i < n && glyph[i] == c;
      assert i > 0 ==> IsContinuation(text[i]);
    }
  }

  lemma {:induction false} AppendCleans(pen: Pen, o: GfxOptions, text: Str)
    requires DimensionsOk(o) && CleanPen(pen) && IsUtf8(text) && Append(pen, o, text).Success?
    ensures CleanPen(Append(pen, o, text).value)
    decreases |text|
  {
    if text != [] {
      if IsBlankByte(text[0]) {
        AppendCleans(pen.(space := pen.line != []), o, text[1..]);
      } else {
        var n := LeadLength(text[0]);
        GlyphOk(text);
        PutGlyphCleans(pen, o, text[..n]);
        AppendCleans(PutGlyph(pen, o, text[..n]).value, o, text[n..]);
      }
    }
  }

  predicate ValidMarks(e: Event) { e.kind == TEXT ==> IsUtf8(e.value) }

  lemma MarksUtf8(e: Event)
    requires ValidMarks(e)
    ensures IsUtf8(Marks(e))
  {
    AsciiUtf8("* ");
    AsciiUtf8("[input]");
    AsciiUtf8("[image]");
  }

  lemma {:induction false} AsciiUtf8(s: Str)
    requires forall i :: 0 <= i < |s| ==> s[i] as int < 128
    ensures IsUtf8(s)
  {
    if s != [] {
      AsciiUtf8(s[1..]);
    }
  }

  lemma DrawCleans(pen: Pen, o: GfxOptions, e: Event)
    requires DimensionsOk(o) && CleanPen(pen) && ValidMarks(e) && Draw(pen, o, e).Success?
    ensures CleanPen(Draw(pen, o, e).value)
  {
    hide Marks, Append, IsUtf8;
    MarksUtf8(e);
    NewlineCleans(pen, o);
    AppendCleans(if Breaks(e) then Newline(pen, o).value else pen, o, Marks(e));
  }

  // ----- whole runs -----

  predicate ValidTexts(events: seq<Event>) { forall e :: e in events ==> ValidMarks(e) }

  /** Where a run stands: bounds kept, ink conserved, and clean lines as long as the visible text is UTF-8. */
  predicate Faithful(o: GfxOptions, pen: Pen, kept: seq<Event>)
    requires DimensionsOk(o)
  {
    PenOk(pen, o) && InkOf(pen) == Ink(AllMarks(kept)) && (ValidTexts(kept) ==> CleanPen(pen))
  }

  lemma DrawFaithful(o: GfxOptions, pen: Pen, kept: seq<Event>, e: Event)
    requires DimensionsOk(o) && Faithful(o, pen, kept) && Draw(pen, o, e).Success?
    ensures Faithful(o, Draw(pen, o, e).value, kept + [e])
  {
    hide Draw, PenOk, CleanPen, InkOf, Ink, Marks, IsUtf8;
    DrawLays(pen, o, e);
    DrawInk(pen, o, e);
    assert (kept + [e])[..|kept|] == kept;
    InkAppend(AllMarks(kept), Marks(e));
    if ValidTexts(kept + [e]) {
      assert forall k :: k in kept || k == e ==> k in kept + [e];
      DrawCleans(pen, o, e);
    }
  }

  /** Outside every cut an event is seen; inside one, or opening one, it is not. */
  lemma SeenOrCut(stack: seq<Scope>, c: Cutting, e: Event)
    requires CutStack(stack, c.open)
    ensures Unseen(stack, e) <==> CutStep(c, e).kept == c.kept
    ensures !Unseen(stack, e) ==> CutStep(c, e).kept == c.kept + [e]
  {
    if c.open == 0 && !(e.kind == START && Hidden(e)) {
      assert |c.kept + [e]| != |c.kept|;
    }
  }

  lemma {:induction false} RunFaithful(o: GfxOptions, events: seq<Event>)
    requires DimensionsOk(o) && Run(o, events).Success?
    ensures Faithful(o, Run(o, events).value.pen, WithoutHidden(events))
  {
    if events == [] {
      NothingYet(o);
    } else {
      var init, e := events[..|events| - 1], events[|events| - 1];
      RunFaithful(o, init);
      CutKeepsPace(o, init);
      var p := Run(o, init).value;
      SeenOrCut(p.stack, Cut(init), e);
      StepFaithful(o, p, Cut(init).kept, e);
    }
  }

  lemma NothingYet(o: GfxOptions)
    requires DimensionsOk(o)
    ensures Faithful(o, EMPTY_PEN, [])
  {
  }

  lemma StepFaithful(o: GfxOptions, p: Preview, kept: seq<Event>, e: Event)
    requires DimensionsOk(o) && Step(p, o, e).Success? && Faithful(o, p.pen, kept)
    ensures Faithful(o, Step(p, o, e).value.pen, if Unseen(p.stack, e) then kept else kept + [e])
  {
    hide Draw, Faithful, Unseen;
    if !Unseen(p.stack, e) {
      DrawFaithful(o, p.pen, kept, e);
    }
  }

  /** The last line is flushed at the end. */
  lemma FrameFaithful(o: GfxOptions, events: seq<Event>)
    requires DimensionsOk(o) && LowerToFrame(o, events).Success?
    ensures var frame := LowerToFrame(o, events).value;
            && frame.surface == o
            && Laid(frame.text, o)
            && Ink(Lines(frame.text)) == Ink(AllMarks(WithoutHidden(events)))
            && (ValidTexts(WithoutHidden(events)) ==> forall c :: c in frame.text ==> TextOk(c.text))
            && |frame.text| <= MAX_GFX_COMMANDS && 17 + CommandsSize(frame.text) <= MAX_GFX_BYTES
  {
    hide Run, Ink, AllMarks, WithoutHidden, TextOk, Laid, Lines, CommandsSize;
    RunFaithful(o, events);
    RunAccounted(o, events);
    var pen := Run(o, events).value.pen;
    NewlineLays(pen, o);
    NewlineKeepsInk(pen, o);
    if CleanPen(pen) {
      NewlineCleans(pen, o);
    }
    NewlineAccounted(pen, o);
    InkNil();
  }

  lemma InkNil()
    ensures forall s: Str :: Ink(s) + Ink([]) == Ink(s)
  {
  }

  /** A laid-out line is inside a surface exactly when the surface is at least 24 wide. */
  lemma LineFitsFrom24(c: GfxText, k: nat, o: GfxOptions)
    requires DimensionsOk(o) && LineOk(c, k, o)
    ensures c.x < o.width
    ensures c.x + 8 * Cells(c.text) <= o.width <==> o.width >= 24
  {
    assert Cells(c.text) >= 1;
  }

  /** For valid input the final encoding never objects to the frame the preview built. */
  lemma EncodeNeverRejects(o: GfxOptions, events: seq<Event>)
    requires DimensionsOk(o) && LowerToFrame(o, events).Success? && ValidTexts(WithoutHidden(events))
    ensures FrameOk(LowerToFrame(o, events).value)
  {
    FrameFaithful(o, events);
    var frame := LowerToFrame(o, events).value;
    forall c | c in frame.text ensures CommandOk(c, o) {
      var k :| 0 <= k < |frame.text| && frame.text[k] == c;
      LineFitsFrom24(c, k, o);
    }
  }

  /**
   * What a client that decodes an emitted preview sees: the visible ink of the stream, in order and complete, on
   * lines of at most `Width(o)` scalar values and 4096 bytes, in their places.
   */
  lemma PreviewConservesText(events: seq<Event>, o: GfxOptions)
    requires Emit(events, o).Success?
    ensures var decoded := ParseFrame(Emit(events, o).value);
            && decoded.Some?
            && decoded.value.surface == o
            && Ink(Lines(decoded.value.text)) == Ink(AllMarks(WithoutHidden(events)))
            && Laid(decoded.value.text, o)
            && forall c :: c in decoded.value.text ==> IsUtf8(c.text) && |Decode(c.text)| <= Width(o)
  {
    var frame := LowerToFrame(o, events).value;
    FrameFaithful(o, events);
    FrameBijection(FrameWire(frame), frame);
    forall c | c in frame.text ensures IsUtf8(c.text) && |Decode(c.text)| <= Width(o) {
      assert CommandOk(c, o);
      var k :| 0 <= k < |frame.text| && frame.text[k] == c;
      assert LineOk(frame.text[k], k, o);
      CellsAreScalars(c.text);
    }
  }
}
