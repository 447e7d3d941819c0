/** PGFX1 frames (src/core/gfx_encoding.cpp): a strict binary form for positioned text. */
module GfxEncoding {
  import opened Bytes
  import opened Division
  import opened Wire
  import opened Utf8

  const MAX_GFX_BYTES: nat := 4 * 1024 * 1024
  const MAX_GFX_COMMANDS: nat := 50000
  const MAX_GFX_TEXT_BYTES: nat := 4096
  const MAX_GFX_DIMENSION: nat := 16384
  const MAX_GFX_CONTENT_HEIGHT: nat := 1000000

  datatype GfxOptions = GfxOptions(width: U32, height: U32)
  datatype GfxText = GfxText(x: U32, y: U32, text: Str)
  datatype GfxFrame = GfxFrame(surface: GfxOptions, text: seq<GfxText>)

  predicate IsControl(c: Byte) { c as int < 32 || c as int == 127 }

  predicate NoControls(s: Str) { forall c :: c in s ==> !IsControl(c) }

  // ----- what a frame is, independently of how it is written -----

  predicate DimensionsOk(s: GfxOptions) {
    0 < s.width <= MAX_GFX_DIMENSION && 0 < s.height <= MAX_GFX_DIMENSION
  }

  predicate TextOk(s: Str) { IsUtf8(s) && NoControls(s) }

  predicate CommandOk(c: GfxText, surface: GfxOptions) {
    c.x < surface.width && c.y <= MAX_GFX_CONTENT_HEIGHT && |c.text| <= MAX_GFX_TEXT_BYTES && TextOk(c.text)
  }

  predicate CommandsOk(cs: seq<GfxText>, surface: GfxOptions) {
    forall c :: c in cs ==> CommandOk(c, surface)
  }

  function CommandsSize(cs: seq<GfxText>): nat {
    if cs == [] then 0 else CommandsSize(cs[..|cs| - 1]) + 13 + |cs[|cs| - 1].text|
  }

  predicate FrameOk(f: GfxFrame) {
    && DimensionsOk(f.surface)
    && |f.text| <= MAX_GFX_COMMANDS
    && CommandsOk(f.text, f.surface)
    && 17 + CommandsSize(f.text) <= MAX_GFX_BYTES
  }

  // ----- the wire form -----

  const OP_TEXT: Byte := ToByte(1)

  function CommandWire(c: GfxText): Str {
    [OP_TEXT] + LE32(c.x) + LE32(c.y) + LE32(|c.text|) + c.text
  }

  function CommandsWire(cs: seq<GfxText>): Str {
    if cs == [] then [] else CommandsWire(cs[..|cs| - 1]) + CommandWire(cs[|cs| - 1])
  }

  function HeaderWire(surface: GfxOptions, count: nat): (s: Str)
    ensures |s| == 17
  {
    "PGFX1" + LE32(surface.width) + LE32(surface.height) + LE32(count)
  }

  function FrameWire(f: GfxFrame): Str {
    HeaderWire(f.surface, |f.text|) + CommandsWire(f.text)
  }

  lemma {:induction false} CommandsWireLength(cs: seq<GfxText>)
    ensures |CommandsWire(cs)| == CommandsSize(cs) >= 13 * |cs|
  {
    if cs != [] {
      CommandsWireLength(cs[..|cs| - 1]);
    }
  }

  predicate Printable(vs: seq<Scalar>) { forall v :: v in vs ==> 32 <= v && v != 127 }

  /** Section 4 of RFC 3629, less the control characters: what `valid_text` accepts. */
  lemma TextOkIsPrintableUtf8(s: Str)
    ensures TextOk(s) <==>
            exists vs: seq<Scalar> :: Encode(vs) == s && Printable(vs)
  {
    if TextOk(s) {
      var vs := Decode(s);
      ControlsSurviveEncoding(vs);
      assert Encode(vs) == s && Printable(vs);
    }
    forall vs: seq<Scalar> | Encode(vs) == s && Printable(vs)
      ensures TextOk(s)
    {
      EncodingIsUtf8(vs);
      ControlsSurviveEncoding(vs);
    }
  }

  lemma {:induction false} ControlsSurviveEncoding(vs: seq<Scalar>)
    ensures NoControls(Encode(vs)) <==> Printable(vs)
  {
    if vs != [] {
      ControlsSurviveEncoding(vs[1..]);
      ScalarControls(vs[0]);
      NoControlsAppend(EncodeScalar(vs[0]), Encode(vs[1..]));
      PrintableCons(vs[0], vs[1..]);
      hide NoControls, EncodeScalar, Printable;
      assert vs == [vs[0]] + vs[1..];
    }
  }

  lemma PrintableCons(v: Scalar, vs: seq<Scalar>)
    ensures Printable([v] + vs) <==> 32 <= v && v != 127 && Printable(vs)
  {
    assert v in [v] + vs && forall w :: w in vs ==> w in [v] + vs;
  }

  lemma ScalarControls(v: Scalar)
    ensures NoControls(EncodeScalar(v)) <==> 32 <= v && v != 127
  {
    var front := EncodeScalar(v);
    assert front[0] in front && forall c :: c in front && c != front[0] ==> 128 <= c as int;
  }

  lemma NoControlsInNothing()
    ensures NoControls([]) && IsUtf8([])
  {
  }

  lemma NoControlsOne(c: Byte)
    ensures NoControls([c]) <==> !IsControl(c)
  {
    assert c in [c];
  }

  lemma ControlShows(text: Str, at: nat)
    requires at < |text| && IsControl(text[at])
    ensures !NoControls(text)
  {
    assert text[at] in text;
  }

  lemma Utf8Step(s: Str)
    requires s != []
    ensures IsUtf8(s) <==> FrontOk(s) && IsUtf8(s[LeadLength(s[0])..])
  {
  }

  lemma NoControlsAppend(a: Str, b: Str)
    ensures NoControls(a + b) <==> NoControls(a) && NoControls(b)
  {
    assert forall c :: c in a + b <==> c in a || c in b;
  }

  /** A sequence of more than one byte holds no control byte. */
  lemma FrontHasNoControls(s: Str)
    requires FrontOk(s) && s[0] as int >= 128
    ensures NoControls(s[..LeadLength(s[0])])
  {
  }

  method ValidText(text: Str) returns (ok: bool)
    ensures ok <==> TextOk(text)
  {
    hide IsUtf8, NoControls;
    var i := 0;
    NoControlsInNothing();
    while i < |text|
      invariant 0 <= i <= |text|
      invariant NoControls(text[..i])
      invariant IsUtf8(text) <==> IsUtf8(text[i..])
    {
      ghost var at, front := i, text[i..];
      var c := text[i];
      i := i + 1;
      Utf8Step(front);
      if IsControl(c) {
        ControlShows(text, at);
        return false;
      }
      if c as int < 128 {
        SliceAfter(text, at, 1);
        TakeMore(text, at);
        NoControlsAppend(text[..at], [c]);
        NoControlsOne(c);
        continue;
      }
      var n := if 0xC2 <= c as int <= 0xDF then 1
               else if 0xE0 <= c as int <= 0xEF then 2
               else if 0xF0 <= c as int <= 0xF4 then 3
               else 0;
      if n == 0 || |text| - i < n { return false; }
      var first := text[i] as int;
      assert front[1] == text[i];
      if (c as int == 0xE0 && first < 0xA0) || (c as int == 0xED && first >= 0xA0) ||
         (c as int == 0xF0 && first < 0x90) || (c as int == 0xF4 && first >= 0x90) { return false; }
      for j := 0 to n
        invariant i == at + 1 + j
        invariant forall k :: 1 <= k <= j ==> IsContinuation(front[k])
      {
        assert text[i] == front[j + 1];
        if !IsContinuation(text[i]) { return false; }
        i := i + 1;
      }
      SliceAfter(text, at, n + 1);
      FrontHasNoControls(front);
      NoControlsAppend(text[..at], front[..n + 1]);
    }
    assert text[i..] == [];
    TakeAll(text);
    return true;
  }

  // ----- reading the wire form -----

  function ParseCommand(s: Str, surface: GfxOptions): Option<(GfxText, Str)> {
    if s == [] || s[0] != OP_TEXT then None
    else
      var (x, s1) :- ParseU32(s[1..]);
      var (y, s2) :- ParseU32(s1);
      var (length, s3) :- ParseU32(s2);
      if length > MAX_GFX_TEXT_BYTES || length > |s3| then None
      else
        var c := GfxText(x, y, s3[..length]);
        if CommandOk(c, surface) then Some((c, s3[length..])) else None
  }

  function ParseCommands(s: Str, n: nat, surface: GfxOptions): Option<(seq<GfxText>, Str)> {
    if n == 0 then Some(([], s))
    else
      var (cs, rest) :- ParseCommands(s, n - 1, surface);
      var (c, rest') :- ParseCommand(rest, surface);
      Some((cs + [c], rest'))
  }

  function ParseHeader(s: Str): Option<(GfxOptions, U32, Str)> {
    if !StartsWith(s, "PGFX1") then None
    else
      var (width, s1) :- ParseU32(s[5..]);
      var (height, s2) :- ParseU32(s1);
      var (count, s3) :- ParseU32(s2);
      Some((GfxOptions(width, height), count, s3))
  }

  function ParseFrame(s: Str): Option<GfxFrame> {
    if |s| > MAX_GFX_BYTES then None
    else
      var (surface, count, body) :- ParseHeader(s);
      if !DimensionsOk(surface) || count > MAX_GFX_COMMANDS then None
      else
        var (cs, rest) :- ParseCommands(body, count, surface);
        if rest == [] then Some(GfxFrame(surface, cs)) else None
  }

  lemma CommandReadBack(c: GfxText, surface: GfxOptions, t: Str)
    requires CommandOk(c, surface)
    ensures ParseCommand(CommandWire(c) + t, surface) == Some((c, t))
  {
    hide TextOk, LE32, ParseU32;
    Regroup([OP_TEXT], LE32(c.x), LE32(c.y), LE32(|c.text|), c.text, t);
    var s3 := c.text + t;
    var s2 := LE32(|c.text|) + s3;
    var s1 := LE32(c.y) + s2;
    var s0 := LE32(c.x) + s1;
    U32Bijection(s0, c.x, s1);
    U32Bijection(s1, c.y, s2);
    U32Bijection(s2, |c.text|, s3);
    assert ([OP_TEXT] + s0)[1..] == s0;
    assert s3[..|c.text|] == c.text && s3[|c.text|..] == t;
  }

  lemma CommandWriteBack(s: Str, surface: GfxOptions)
    requires ParseCommand(s, surface).Some?
    ensures var (c, t) := ParseCommand(s, surface).value; CommandOk(c, surface) && s == CommandWire(c) + t
  {
    hide TextOk, LE32, ParseU32;
    var (x, s1) := ParseU32(s[1..]).value;
    var (y, s2) := ParseU32(s1).value;
    var (length, s3) := ParseU32(s2).value;
    U32Bijection(s[1..], x, s1);
    U32Bijection(s1, y, s2);
    U32Bijection(s2, length, s3);
    var text, t := s3[..length], s3[length..];
    assert s3 == text + t;
    Regroup([OP_TEXT], LE32(x), LE32(y), LE32(length), text, t);
    assert s == [OP_TEXT] + s[1..];
  }

  lemma Regroup(a: Str, b: Str, c: Str, d: Str, e: Str, t: Str)
    ensures a + (b + (c + (d + (e + t)))) == a + b + c + d + e + t
  {
  }

  lemma {:induction false} CommandsReadBack(surface: GfxOptions, cs: seq<GfxText>, t: Str)
    requires CommandsOk(cs, surface)
    ensures ParseCommands(CommandsWire(cs) + t, |cs|, surface) == Some((cs, t))
  {
    if cs == [] {
      assert CommandsWire(cs) + t == t;
    } else {
      hide CommandWire, ParseCommand, CommandOk;
      var init, c := cs[..|cs| - 1], cs[|cs| - 1];
      CommandsReadBack(surface, init, CommandWire(c) + t);
      CommandReadBack(c, surface, t);
      Associate(CommandsWire(init), CommandWire(c), t);
      assert init + [c] == cs;
    }
  }

  lemma {:induction false} CommandsWriteBack(s: Str, n: nat, surface: GfxOptions)
    requires ParseCommands(s, n, surface).Some?
    ensures var (cs, t) := ParseCommands(s, n, surface).value;
            |cs| == n && CommandsOk(cs, surface) && s == CommandsWire(cs) + t
  {
    if n > 0 {
      CommandsWriteBack(s, n - 1, surface);
      var (init, rest) := ParseCommands(s, n - 1, surface).value;
      CommandWriteBack(rest, surface);
      var (c, t) := ParseCommand(rest, surface).value;
      CommandsWireSnoc(init, c);
      Associate(CommandsWire(init), CommandWire(c), t);
    }
  }

  lemma CommandsWireSnoc(cs: seq<GfxText>, c: GfxText)
    ensures CommandsWire(cs + [c]) == CommandsWire(cs) + CommandWire(c)
  {
    assert (cs + [c])[..|cs|] == cs;
  }

  lemma HeaderBijection(s: Str, surface: GfxOptions, count: U32, body: Str)
    ensures ParseHeader(s) == Some((surface, count, body)) <==> s == HeaderWire(surface, count) + body
  {
    var s2 := LE32(count) + body;
    var s1 := LE32(surface.height) + s2;
    if s == HeaderWire(surface, count) + body {
      assert s[5..] == LE32(surface.width) + s1;
      U32Bijection(s[5..], surface.width, s1);
      U32Bijection(s1, surface.height, s2);
      U32Bijection(s2, count, body);
    }
    if ParseHeader(s) == Some((surface, count, body)) {
      var (width, r1) := ParseU32(s[5..]).value;
      var (height, r2) := ParseU32(r1).value;
      U32Bijection(s[5..], width, r1);
      U32Bijection(r1, height, r2);
      U32Bijection(r2, count, body);
      assert s == "PGFX1" + s[5..];
    }
  }

  /** PGFX1 is a bijection between the acceptable frames and the accepted byte strings. */
  lemma FrameBijection(s: Str, f: GfxFrame)
    ensures ParseFrame(s) == Some(f) <==> FrameOk(f) && FrameWire(f) == s
  {
    hide ParseFrame, FrameOk, FrameWire;
    if FrameOk(f) && FrameWire(f) == s {
      FrameReadBack(f);
    }
    if ParseFrame(s) == Some(f) {
      FrameWriteBack(s);
    }
  }

  lemma FrameReadBack(f: GfxFrame)
    requires FrameOk(f)
    ensures ParseFrame(FrameWire(f)) == Some(f)
  {
    hide ParseHeader, HeaderWire, ParseCommands, CommandsWire, CommandsOk, DimensionsOk;
    CommandsWireLength(f.text);
    HeaderBijection(FrameWire(f), f.surface, |f.text|, CommandsWire(f.text));
    CommandsReadBack(f.surface, f.text, []);
    EmptyIsUnit(CommandsWire(f.text));
  }

  lemma FrameWriteBack(s: Str)
    requires ParseFrame(s).Some?
    ensures FrameOk(ParseFrame(s).value) && FrameWire(ParseFrame(s).value) == s
  {
    hide ParseHeader, HeaderWire, ParseCommands, CommandsWire, CommandsOk, DimensionsOk;
    var f := ParseFrame(s).value;
    var (surface, count, body) := ParseHeader(s).value;
    HeaderBijection(s, surface, count, body);
    CommandsWriteBack(body, count, surface);
    CommandsWireLength(f.text);
    EmptyIsUnit(CommandsWire(f.text));
  }

  /** A decoder that has failed after `i` commands fails for every count from `i` on. */
  lemma {:induction false} ParseStaysFailed(s: Str, i: nat, n: nat, surface: GfxOptions)
    requires i <= n && ParseCommands(s, i, surface).None?
    ensures ParseCommands(s, n, surface).None?
  {
    hide ParseCommand;
    if i < n {
      ParseStaysFailed(s, i, n - 1, surface);
    }
  }

  /** Why the decoder may bound `count` by a thirteenth of the bytes left. */
  lemma CountBound(s: Str, n: nat, surface: GfxOptions)
    ensures ParseCommands(s, n, surface).Some? ==> 13 * n <= |s|
  {
    if ParseCommands(s, n, surface).Some? {
      var (cs, t) := ParseCommands(s, n, surface).value;
      CommandsWriteBack(s, n, surface);
      CommandsWireLength(cs);
    }
  }

  // ----- the code -----

  method Check(command: GfxText, surface: GfxOptions) returns (ok: bool)
    ensures ok <==> CommandOk(command, surface)
  {
    if command.x >= surface.width || command.y > MAX_GFX_CONTENT_HEIGHT ||
       |command.text| > MAX_GFX_TEXT_BYTES { return false; }
    ok := ValidText(command.text);
  }

  lemma {:induction false} CommandsSizeGrows(cs: seq<GfxText>, i: nat)
    requires i <= |cs|
    ensures CommandsSize(cs[..i]) <= CommandsSize(cs)
    decreases |cs| - i
  {
    if i == |cs| {
      assert cs[..i] == cs;
    } else {
      CommandsSizeGrows(cs, i + 1);
      assert cs[..i + 1][..i] == cs[..i];
    }
  }

  method CheckFrame(frame: GfxFrame) returns (r: Result<nat>)
    ensures r.Success? <==> FrameOk(frame)
    ensures r == Failure(InvalidArgument) <==> !DimensionsOk(frame.surface)
    ensures r == Failure(ParseError) ==> !CommandsOk(frame.text, frame.surface)
    ensures r == Failure(ResourceLimit) ==>
              |frame.text| > MAX_GFX_COMMANDS || 17 + CommandsSize(frame.text) > MAX_GFX_BYTES
    ensures r.Failure? ==> r.error in {InvalidArgument, ParseError, ResourceLimit}
  {
    if !DimensionsOk(frame.surface) { return Failure(InvalidArgument); }
    if |frame.text| > MAX_GFX_COMMANDS { return Failure(ResourceLimit); }
    var size := 17;
    for i := 0 to |frame.text|
      invariant size == 17 + CommandsSize(frame.text[..i]) <= MAX_GFX_BYTES
      invariant CommandsOk(frame.text[..i], frame.surface)
    {
      var command := frame.text[i];
      assert frame.text[..i + 1] == frame.text[..i] + [command] && frame.text[..i + 1][..i] == frame.text[..i];
      var ok := Check(command, frame.surface);
      if !ok { assert command in frame.text; return Failure(ParseError); }
      if 13 + |command.text| > MAX_GFX_BYTES - size {
        CommandsSizeGrows(frame.text, i + 1);
        return Failure(ResourceLimit);
      }
      size := size + 13 + |command.text|;
    }
    assert frame.text[..|frame.text|] == frame.text;
    return Success(size);
  }

  method EncodeGfxFrame(frame: GfxFrame) returns (r: Result<Str>)
    ensures r.Success? <==> FrameOk(frame)
    ensures r.Success? ==> r.value == FrameWire(frame)
    ensures r == Failure(InvalidArgument) <==> !DimensionsOk(frame.surface)
    ensures r == Failure(ParseError) ==> !CommandsOk(frame.text, frame.surface)
    ensures r == Failure(ResourceLimit) ==>
              |frame.text| > MAX_GFX_COMMANDS || 17 + CommandsSize(frame.text) > MAX_GFX_BYTES
    ensures r.Failure? ==> r.error in {InvalidArgument, ParseError, ResourceLimit}
  {
    var size :- CheckFrame(frame);
    var bytes := new ByteVector("PGFX1");
    bytes.WriteU32(frame.surface.width);
    bytes.WriteU32(frame.surface.height);
    bytes.WriteU32(|frame.text|);
    assert bytes.data == HeaderWire(frame.surface, |frame.text|);
    EncodeCommands(bytes, frame.text);
    return Success(bytes.data);
  }

  method EncodeCommands(bytes: ByteVector, commands: seq<GfxText>)
    modifies bytes
    ensures bytes.data == old(bytes.data) + CommandsWire(commands)
  {
    for i := 0 to |commands|
      invariant bytes.data == old(bytes.data) + CommandsWire(commands[..i])
    {
      hide CommandWire, CommandsWire;
      EncodeCommand(bytes, commands[i]);
      CommandsWireSnoc(commands[..i], commands[i]);
      TakeMore(commands, i);
      Associate(old(bytes.data), CommandsWire(commands[..i]), CommandWire(commands[i]));
    }
    TakeAll(commands);
  }

  method EncodeCommand(bytes: ByteVector, command: GfxText)
    modifies bytes
    ensures bytes.data == old(bytes.data) + CommandWire(command)
  {
    bytes.PushBack(OP_TEXT);
    bytes.WriteU32(command.x);
    bytes.WriteU32(command.y);
    bytes.WriteU32(|command.text|);
    bytes.Insert(command.text);
  }

  method DecodeCommand(cursor: Cursor, surface: GfxOptions) returns (r: Option<GfxText>)
    requires cursor.Valid()
    modifies cursor
    ensures cursor.Valid()
    ensures match ParseCommand(old(cursor.Rest()), surface)
            case None => r == None
            case Some((c, rest)) => r == Some(c) && cursor.Rest() == rest
  {
    if cursor.pos == |cursor.bytes| { return None; }
    var op := cursor.Take(1);
    if op[0] != OP_TEXT { return None; }
    var x :- cursor.ReadU32();
    var y :- cursor.ReadU32();
    var length :- cursor.ReadU32();
    if length > MAX_GFX_TEXT_BYTES || length > |cursor.bytes| - cursor.pos { return None; }
    var text := cursor.Take(length);
    var command := GfxText(x, y, text);
    var ok := Check(command, surface);
    if !ok { return None; }
    return Some(command);
  }

  method DecodeHeader(cursor: Cursor) returns (r: Option<(GfxOptions, U32)>)
    requires cursor.Valid() && cursor.pos == 0
    modifies cursor
    ensures cursor.Valid()
    ensures match ParseHeader(cursor.bytes)
            case None => r == None
            case Some((surface, count, body)) => r == Some((surface, count)) && cursor.Rest() == body
  {
    if |cursor.bytes| < 5 || cursor.bytes[..5] != "PGFX1" { return None; }
    var magic := cursor.Take(5);
    var width :- cursor.ReadU32();
    var height :- cursor.ReadU32();
    var count :- cursor.ReadU32();
    return Some((GfxOptions(width, height), count));
  }

  method DecodeCommands(cursor: Cursor, count: nat, surface: GfxOptions) returns (r: Option<seq<GfxText>>)
    requires cursor.Valid()
    modifies cursor
    ensures cursor.Valid()
    ensures match ParseCommands(old(cursor.Rest()), count, surface)
            case None => r == None
            case Some((cs, rest)) => r == Some(cs) && cursor.Rest() == rest
  {
    hide ParseCommand;
    ghost var body := cursor.Rest();
    var text: seq<GfxText> := [];
    for i := 0 to count
      invariant cursor.Valid()
      invariant ParseCommands(body, i, surface) == Some((text, cursor.Rest()))
    {
      var command := DecodeCommand(cursor, surface);
      if command.None? {
        ParseStaysFailed(body, i + 1, count, surface);
        return None;
      }
      text := text + [command.value];
    }
    return Some(text);
  }

  method DecodeGfxFrame(bytes: Str) returns (r: Result<GfxFrame>)
    ensures match ParseFrame(bytes)
            case None => r == Failure(ParseError)
            case Some(frame) => r == Success(frame)
  {
    hide ParseCommands, ParseHeader, DimensionsOk;
    ShortHeader(bytes);
    if |bytes| < 17 || |bytes| > MAX_GFX_BYTES { return Failure(ParseError); }
    var cursor := new Cursor(bytes);
    var header := DecodeHeader(cursor);
    if header.None? { return Failure(ParseError); }
    var (surface, count) := header.value;
    if !DimensionsOk(surface) { return Failure(ParseError); }
    CountBound(cursor.Rest(), count, surface);
    CountTest(count, |bytes| - cursor.pos);
    if count > MAX_GFX_COMMANDS || count > (|bytes| - cursor.pos) / 13 { return Failure(ParseError); }
    var text := DecodeCommands(cursor, count, surface);
    if text.None? || cursor.pos != |bytes| { return Failure(ParseError); }
    return Success(GfxFrame(surface, text.value));
  }

  lemma CountTest(n: nat, left: nat)
    ensures n > left / 13 <==> 13 * n > left
  {
    Parts(left, 13);
  }

  lemma ShortHeader(s: Str)
    ensures |s| < 17 ==> ParseHeader(s).None?
  {
  }
}
