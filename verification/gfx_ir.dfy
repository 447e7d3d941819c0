/** The text preview (src/core/gfx_ir.cpp): a nesting machine drives a wrapping pen, and the lines become a frame. */
module GfxIr {
  import opened Bytes
  import opened Utf8
  import opened Dom
  import opened EventStream
  import opened IrModel
  import opened Nesting
  import opened GfxEncoding

  // ----- which elements break lines, and which are hidden -----

  predicate Block(tag: Str) {
    tag in {"p", "div", "section", "article", "main", "li", "tr", "pre", "blockquote"}
    || (|tag| == 2 && tag[0] == 'h' && '1' <= tag[1] <= '6')
  }

  const HIDDEN_TAGS: set<Str> := {"head", "script", "style", "template", "textarea", "select"}

  function WithoutSpaces(s: Str): Str {
    if s == [] then []
    else WithoutSpaces(s[..|s| - 1]) + if IsSpace(s[|s| - 1]) then [] else [s[|s| - 1]]
  }

  /** A `hidden` attribute, or an inline style that says so, whatever its spacing and case. */
  predicate Hides(a: Attribute) {
    a.name == "hidden"
    || (a.name == "style"
        && var style := Lower(WithoutSpaces(a.value));
           FindStr(style, "display:none", 0).Some? || FindStr(style, "visibility:hidden", 0).Some?)
  }

  predicate Hidden(e: Event) { e.tag in HIDDEN_TAGS || exists a :: a in e.attributes && Hides(a) }

  // ----- the pen: finished lines and the line being filled -----

  datatype Pen = Pen(text: seq<GfxText>, line: Str, columns: nat, space: bool, bytes: nat)

  const EMPTY_PEN: Pen := Pen([], [], 0, false, 17)

  /** Columns of the preview grid, at least one. */
  function Width(o: GfxOptions): nat {
    Max(1, (if o.width > 32 then o.width - 32 else 8) / 8)
  }

  function LineX(o: GfxOptions): nat
    requires DimensionsOk(o)
  {
    Min(16, o.width - 1)
  }

  function Newline(pen: Pen, o: GfxOptions): Result<Pen>
    requires DimensionsOk(o)
  {
    if pen.line == [] then Success(pen.(space := false))
    else if |pen.text| >= MAX_GFX_COMMANDS
            || 16 + |pen.text| * 18 > MAX_GFX_CONTENT_HEIGHT
            || 13 + |pen.line| + pen.bytes > MAX_GFX_BYTES then Failure(ResourceLimit)
    else
      Success(Pen(pen.text + [GfxText(LineX(o), 16 + |pen.text| * 18, pen.line)], [], 0, false,
                  pen.bytes + 13 + |pen.line|))
  }

  predicate IsBlankByte(c: Byte) { c as int <= 32 || c as int == 127 }

  /** Starts a new line when a glyph of `n` bytes, with its pending space, does not fit on this one. */
  function MakeRoom(pen: Pen, o: GfxOptions, n: nat): Result<Pen>
    requires DimensionsOk(o)
  {
    if pen.columns + (if pen.space then 1 else 0) >= Width(o) || |pen.line| + n + 1 > MAX_GFX_TEXT_BYTES
    then Newline(pen, o) else Success(pen)
  }

  function WriteSpace(pen: Pen): Pen {
    if pen.space then pen.(line := pen.line + " ", columns := pen.columns + 1, space := false) else pen
  }

  function WriteGlyph(pen: Pen, glyph: Str): Pen {
    pen.(line := pen.line + glyph, columns := pen.columns + 1)
  }

  function PutGlyph(pen: Pen, o: GfxOptions, glyph: Str): Result<Pen>
    requires DimensionsOk(o)
  {
    var room :- MakeRoom(pen, o, |glyph|);
    Success(WriteGlyph(WriteSpace(room), glyph))
  }

  function Append(pen: Pen, o: GfxOptions, text: Str): Result<Pen>
    requires DimensionsOk(o)
    decreases |text|
  {
    if text == [] then Success(pen)
    else if IsBlankByte(text[0]) then Append(pen.(space := pen.line != []), o, text[1..])
    else
      var n := LeadLength(text[0]);
      if n == 0 || n > |text| then Failure(ParseError)
      else
        var pen' :- PutGlyph(pen, o, text[..n]);
        Append(pen', o, text[n..])
  }

  /** What a visible event writes. */
  function Marks(e: Event): Str {
    if e.kind == TEXT then e.value
    else if e.kind == START && e.tag == "li" then "* "
    else if e.kind == START && e.tag == "input" then "[input]"
    else if e.kind == START && e.tag == "img" then "[image]"
    else []
  }

  predicate Breaks(e: Event) {
    (e.kind == START && (Block(e.tag) || e.tag == "br")) || (e.kind == END && Block(e.tag))
  }

  function Draw(pen: Pen, o: GfxOptions, e: Event): Result<Pen>
    requires DimensionsOk(o)
  {
    var broken :- if Breaks(e) then Newline(pen, o) else Success(pen);
    Append(broken, o, Marks(e))
  }

  // ----- the whole machine -----

  datatype Preview = Preview(stack: seq<Scope>, pen: Pen)

  predicate InHidden(stack: seq<Scope>) { stack != [] && stack[|stack| - 1].hidden }

  /** Whether the event is, or is inside, a hidden element. */
  predicate Unseen(stack: seq<Scope>, e: Event) { InHidden(stack) || (e.kind == START && Hidden(e)) }

  function Step(p: Preview, o: GfxOptions, e: Event): Result<Preview>
    requires DimensionsOk(o)
  {
    match Nest(p.stack, e, Unseen(p.stack, e))
    case None => Failure(ParseError)
    case Some(stack) =>
      if Unseen(p.stack, e) then Success(Preview(stack, p.pen))
      else
        var pen :- Draw(p.pen, o, e);
        Success(Preview(stack, pen))
  }

  function Run(o: GfxOptions, events: seq<Event>): Result<Preview>
    requires DimensionsOk(o)
  {
    if events == [] then Success(Preview([], EMPTY_PEN))
    else
      var p :- Run(o, events[..|events| - 1]);
      Step(p, o, events[|events| - 1])
  }

  /** The frame a whole stream is lowered to, before it is encoded. */
  function LowerToFrame(o: GfxOptions, events: seq<Event>): Result<GfxFrame>
    requires DimensionsOk(o)
  {
    var p :- Run(o, events);
    if p.stack != [] then Failure(ParseError)
    else
      var pen :- Newline(p.pen, o);
      Success(GfxFrame(o, pen.text))
  }

  function Emit(events: seq<Event>, o: GfxOptions): Result<Str> {
    if !Fits(Total(events)) then Failure(ResourceLimit)
    else if !DimensionsOk(o) then Failure(InvalidArgument)
    else
      var frame :- LowerToFrame(o, events);
      if FrameOk(frame) then Success(FrameWire(frame)) else Failure(ParseError)
  }

  // ----- the code -----

  method IsHidden(e: Event) returns (r: bool)
    ensures r <==> Hidden(e)
  {
    if e.tag == "head" || e.tag == "script" || e.tag == "style" ||
       e.tag == "template" || e.tag == "textarea" || e.tag == "select" { return true; }
    for i := 0 to |e.attributes|
      invariant e.tag !in HIDDEN_TAGS
      invariant forall a :: a in e.attributes[..i] ==> !Hides(a)
    {
      var attribute := e.attributes[i];
      assert attribute in e.attributes && e.attributes[..i + 1] == e.attributes[..i] + [attribute];
      if attribute.name == "hidden" { return true; }
      if attribute.name != "style" { continue; }
      var style := Lower(WithoutSpaces(attribute.value));
      if FindStr(style, "display:none", 0).Some? || FindStr(style, "visibility:hidden", 0).Some? { return true; }
    }
    assert e.attributes[..|e.attributes|] == e.attributes;
    return false;
  }

  class GfxEmitter {
    const options: GfxOptions
    var stack: seq<Scope>
    var text: seq<GfxText>
    var line: Str
    var columns: nat
    var space: bool
    var bytes: nat

    ghost predicate Valid()
      reads this
    {
      DimensionsOk(options) && bytes <= MAX_GFX_BYTES && |text| <= MAX_GFX_COMMANDS
    }

    function ThePen(): Pen
      reads this
    {
      Pen(text, line, columns, space, bytes)
    }

    function State(): Preview
      reads this
    {
      Preview(stack, ThePen())
    }

    constructor (options: GfxOptions)
      requires DimensionsOk(options)
      ensures Valid() && this.options == options && State() == Preview([], EMPTY_PEN)
    {
      this.options := options;
      stack, text, line, columns, space, bytes := [], [], [], 0, false, 17;
    }

    /** The `newline` closure; an error is what it throws. */
    method BreakLine() returns (thrown: Option<ErrorCode>)
      requires Valid()
      modifies this`text, this`line, this`columns, this`space, this`bytes
      ensures Valid()
      ensures match Newline(old(ThePen()), options)
              case Success(pen) => thrown == None && ThePen() == pen
              case Failure(error) => thrown == Some(error)
    {
      if line != [] {
        if |text| >= MAX_GFX_COMMANDS || 16 + |text| * 18 > MAX_GFX_CONTENT_HEIGHT ||
           13 + |line| > MAX_GFX_BYTES - bytes { return Some(ResourceLimit); }
        bytes := bytes + 13 + |line|;
        text := text + [GfxText(Min(16, options.width - 1), 16 + |text| * 18, line)];
        line, columns := [], 0;
      }
      space := false;
      return None;
    }

    method AppendGlyph(glyph: Str) returns (thrown: Option<ErrorCode>)
      requires Valid()
      modifies this`text, this`line, this`columns, this`space, this`bytes
      ensures Valid()
      ensures match PutGlyph(old(ThePen()), options, glyph)
              case Success(pen) => thrown == None && ThePen() == pen
              case Failure(error) => thrown == Some(error)
    {
      thrown := None;
      if columns + (if space then 1 else 0) >= Width(options) || |line| + |glyph| + 1 > MAX_GFX_TEXT_BYTES {
        thrown := BreakLine();
        if thrown.Some? { return; }
      }
      if space { line, columns, space := line + " ", columns + 1, false; }
      line, columns := line + glyph, columns + 1;
    }

    /** The `append` closure. */
    method AppendText(value: Str) returns (thrown: Option<ErrorCode>)
      requires Valid()
      modifies this`text, this`line, this`columns, this`space, this`bytes
      ensures Valid()
      ensures match Append(old(ThePen()), options, value)
              case Success(pen) => thrown == None && ThePen() == pen
              case Failure(error) => thrown == Some(error)
    {
      var i := 0;
      while i < |value|
        invariant 0 <= i <= |value| && Valid()
        invariant Append(old(ThePen()), options, value) == Append(ThePen(), options, value[i..])
      {
        ghost var rest := value[i..];
        var c := value[i];
        if IsBlankByte(c) {
          space := line != [];
          i := i + 1;
          assert rest[1..] == value[i..];
          continue;
        }
        var n := LeadLength(c);
        if n == 0 || n > |value| - i { return Some(ParseError); }
        assert rest[..n] == value[i..i + n] && rest[n..] == value[i + n..];
        thrown := AppendGlyph(value[i..i + n]);
        if thrown.Some? { return; }
        i := i + n;
      }
      return None;
    }

    /** A visible start event's drawing: the line break, then the marker of its tag. */
    method DrawStart(tag: Str) returns (thrown: Option<ErrorCode>)
      requires Valid()
      modifies this`text, this`line, this`columns, this`space, this`bytes
      ensures Valid()
      ensures forall e: Event | e.kind == START && e.tag == tag ::
                match Draw(old(ThePen()), options, e)
                case Success(pen) => thrown == None && ThePen() == pen
                case Failure(error) => thrown == Some(error)
    {
      thrown := None;
      if Block(tag) || tag == "br" {
        thrown := BreakLine();
        if thrown.Some? { return; }
      }
      if tag == "li" {
        thrown := AppendText("* ");
        if thrown.Some? { return; }
      }
      if tag == "input" {
        thrown := AppendText("[input]");
        if thrown.Some? { return; }
      }
      if tag == "img" {
        thrown := AppendText("[image]");
      }
    }

    /** The callback `replay` is given. */
    method OnEvent(e: Event) returns (thrown: Option<ErrorCode>)
      requires Valid()
      modifies this
      ensures Valid()
      ensures match Step(old(State()), options, e)
              case Success(p) => thrown == None && State() == p
              case Failure(error) => thrown == Some(error)
    {
      hide Append, Newline, Block, Hidden;
      thrown := None;
      if e.kind == START {
        if |stack| >= MAX_DEPTH || e.depth != |stack| || e.tag == [] { return Some(ParseError); }
        var hidden := stack != [] && stack[|stack| - 1].hidden;
        if !hidden { hidden := IsHidden(e); }
        stack := stack + [Scope(e.tag, e.xpath, hidden)];
        if !hidden { thrown := DrawStart(e.tag); }
        return;
      }
      if stack == [] { return Some(ParseError); }
      var top := stack[|stack| - 1];
      if e.kind == END {
        if e.depth != |stack| - 1 || e.tag != top.tag || e.xpath != top.path { return Some(ParseError); }
        thrown := DrawEnd(e, top.hidden);
        if thrown.Some? { return; }
        stack := stack[..|stack| - 1];
      } else if e.kind == TEXT {
        if e.depth != |stack| || e.tag != top.tag { return Some(ParseError); }
        if !top.hidden { thrown := AppendText(e.value); }
      } else if e.kind == ATTRIBUTE {
        if e.depth != |stack| - 1 || e.tag != top.tag || e.xpath != top.path { return Some(ParseError); }
        AppendNothing(ThePen(), options);
      } else {
        return Some(ParseError);
      }
    }

    method DrawEnd(e: Event, hidden: bool) returns (thrown: Option<ErrorCode>)
      requires Valid() && e.kind == END
      modifies this`text, this`line, this`columns, this`space, this`bytes
      ensures Valid()
      ensures match (if hidden then Success(old(ThePen())) else Draw(old(ThePen()), options, e))
              case Success(pen) => thrown == None && ThePen() == pen
              case Failure(error) => thrown == Some(error)
    {
      thrown := None;
      if !hidden && Block(e.tag) { thrown := BreakLine(); }
    }
  }

  lemma AppendNothing(pen: Pen, o: GfxOptions)
    requires DimensionsOk(o)
    ensures Append(pen, o, []) == Success(pen)
  {
  }

  /** A run that has failed stays failed, with the same error. */
  lemma {:induction false} RunStaysFailed(o: GfxOptions, events: seq<Event>, k: nat)
    requires DimensionsOk(o) && k <= |events| && Run(o, events[..k]).Failure?
    ensures Run(o, events) == Run(o, events[..k])
    decreases |events|
  {
    if k == |events| {
      assert events[..k] == events;
    } else {
      var init := events[..|events| - 1];
      assert init[..k] == events[..k];
      RunStaysFailed(o, init, k);
    }
  }

  /** The accounting the pen keeps of the frame it is building. */
  predicate Accounted(pen: Pen) {
    |pen.text| <= MAX_GFX_COMMANDS && pen.bytes == 17 + CommandsSize(pen.text) <= MAX_GFX_BYTES
  }

  lemma NewlineAccounted(pen: Pen, o: GfxOptions)
    requires DimensionsOk(o) && Accounted(pen) && Newline(pen, o).Success?
    ensures Accounted(Newline(pen, o).value)
  {
    if pen.line != [] {
      var text := Newline(pen, o).value.text;
      assert text[..|text| - 1] == pen.text;
    }
  }

  lemma {:induction false} AppendAccounted(pen: Pen, o: GfxOptions, text: Str)
    requires DimensionsOk(o) && Accounted(pen) && Append(pen, o, text).Success?
    ensures Accounted(Append(pen, o, text).value)
    decreases |text|
  {
    if text != [] {
      var n := LeadLength(text[0]);
      if IsBlankByte(text[0]) {
        AppendAccounted(pen.(space := pen.line != []), o, text[1..]);
      } else {
        if Newline(pen, o).Success? {
          NewlineAccounted(pen, o);
        }
        AppendAccounted(PutGlyph(pen, o, text[..n]).value, o, text[n..]);
      }
    }
  }

  lemma {:induction false} RunAccounted(o: GfxOptions, events: seq<Event>)
    requires DimensionsOk(o) && Run(o, events).Success?
    ensures Accounted(Run(o, events).value.pen)
  {
    if events != [] {
      var init, e := events[..|events| - 1], events[|events| - 1];
      RunAccounted(o, init);
      var p := Run(o, init).value;
      if !Unseen(p.stack, e) {
        if Breaks(e) {
          NewlineAccounted(p.pen, o);
          AppendAccounted(Newline(p.pen, o).value, o, Marks(e));
        } else {
          AppendAccounted(p.pen, o, Marks(e));
        }
      }
    }
  }

  /** The replay loop. */
  method Replay(emitter: GfxEmitter, events: seq<Event>) returns (thrown: Option<ErrorCode>)
    requires emitter.Valid() && emitter.State() == Preview([], EMPTY_PEN)
    modifies emitter
    ensures emitter.Valid()
    ensures match Run(emitter.options, events)
            case Success(p) => thrown == None && emitter.State() == p
            case Failure(error) => thrown == Some(error)
  {
    hide Step;
    for i := 0 to |events|
      invariant emitter.Valid()
      invariant Run(emitter.options, events[..i]) == Success(emitter.State())
    {
      assert events[..i + 1][..i] == events[..i];
      thrown := emitter.OnEvent(events[i]);
      if thrown.Some? {
        RunStaysFailed(emitter.options, events, i + 1);
        return;
      }
    }
    assert events[..|events|] == events;
    return None;
  }

  /** `emit_gfx_ir`. */
  method EmitGfxIr(events: seq<Event>, options: GfxOptions) returns (r: Result<Str>)
    ensures r == Emit(events, options)
  {
    hide Run;
    TotalCountsEvents(events);
    if |events| > MAX_EVENTS { return Failure(ResourceLimit); }
    var budget := new EventStreamBudget();
    var fits := ConsumeAll(budget, events);
    if !fits { return Failure(ResourceLimit); }
    var reader := OpenReader(events);
    if reader.Failure? { return Failure(ResourceLimit); }
    var dimensions := CheckEmptyFrame(options);
    if !dimensions { return Failure(InvalidArgument); }
    var emitter := new GfxEmitter(options);
    var thrown := Replay(emitter, reader.value);
    if thrown.Some? { return Failure(thrown.value); }
    if emitter.stack != [] { return Failure(ParseError); }
    RunAccounted(options, events);
    ghost var pen := emitter.ThePen();
    thrown := emitter.BreakLine();
    if thrown.Some? { return Failure(thrown.value); }
    NewlineAccounted(pen, options);
    r := EncodeGfxFrame(GfxFrame(options, emitter.text));
  }

  /** `encode_gfx_frame` on the empty frame, which can only object to the dimensions. */
  method CheckEmptyFrame(options: GfxOptions) returns (ok: bool)
    ensures ok <==> DimensionsOk(options)
  {
    var encoded := EncodeGfxFrame(GfxFrame(options, []));
    ok := encoded.Success?;
  }
}
