/** Where each number and text of a PGFX1 frame stands, byte by byte (src/core/gfx_encoding.cpp). */
module GfxPositions {
  import opened Bytes
  import opened Wire
  import opened Utf8
  import opened GfxEncoding

  /** A text command: the byte 1, then column, row and length, four bytes each, then the text. */
  predicate CommandAt(s: Str, at: nat, c: GfxText) {
    at + 13 + |c.text| <= |s| && s[at] as int == 1
    && NumberAt(s, at + 1, c.x) && NumberAt(s, at + 5, c.y) && NumberAt(s, at + 9, |c.text|)
    && s[at + 13..at + 13 + |c.text|] == c.text
  }

  /** The commands one behind the other, and nothing behind them. */
  predicate CommandsAt(s: Str, at: nat, cs: seq<GfxText>)
    decreases |cs|
  {
    if cs == [] then at == |s| else CommandAt(s, at, cs[0]) && CommandsAt(s, at + 13 + |cs[0].text|, cs[1..])
  }

  /** The mark, then width, height and count, four bytes each, then the commands. */
  predicate IsFrame(s: Str, f: GfxFrame) {
    |s| >= 17 && s[..5] == "PGFX1"
    && NumberAt(s, 5, f.surface.width) && NumberAt(s, 9, f.surface.height) && NumberAt(s, 13, |f.text|)
    && CommandsAt(s, 17, f.text)
  }

  /** Text in UTF-8 without control characters. */
  ghost predicate IsPrintable(text: Str) {
    exists vs: seq<Scalar> :: Encode(vs) == text && forall v :: v in vs ==> 32 <= v && v != 127
  }

  ghost predicate TextInBounds(c: GfxText, surface: GfxOptions) {
    c.x < surface.width && c.y <= 1000000 && |c.text| <= 4096 && IsPrintable(c.text)
  }

  /** A frame of legal size, in at most four mebibytes: its texts inside the surface, short and printable. */
  ghost predicate InBounds(f: GfxFrame, size: nat) {
    && 0 < f.surface.width <= 16384 && 0 < f.surface.height <= 16384 && |f.text| <= 50000 && size <= 4 * 1024 * 1024
    && forall c :: c in f.text ==> TextInBounds(c, f.surface)
  }

  lemma PrintableAgree(text: Str)
    ensures TextOk(text) <==> IsPrintable(text)
  {
    hide TextOk, Encode;
    TextOkIsPrintableUtf8(text);
    if TextOk(text) {
      var vs: seq<Scalar> :| Encode(vs) == text && Printable(vs);
      assert forall v :: v in vs ==> 32 <= v && v != 127;
    }
    if IsPrintable(text) {
      var vs: seq<Scalar> :| Encode(vs) == text && forall v :: v in vs ==> 32 <= v && v != 127;
      assert Printable(vs);
    }
  }

  lemma BoundsAgree(f: GfxFrame)
    ensures FrameOk(f) <==> InBounds(f, 17 + CommandsSize(f.text))
  {
    forall c | c in f.text ensures CommandOk(c, f.surface) <==> TextInBounds(c, f.surface) {
      PrintableAgree(c.text);
    }
    hide CommandOk, TextInBounds, CommandsSize;
  }

  lemma OneCommand(s: Str, at: nat, c: GfxText)
    requires at + 13 + |c.text| <= |s| && |c.text| < 0x1_0000_0000
    ensures CommandAt(s, at, c) <==> s[at..at + 13 + |c.text|] == CommandWire(c)
  {
    U32ByWeight(s, at + 1, c.x);
    U32ByWeight(s, at + 5, c.y);
    U32ByWeight(s, at + 9, |c.text|);
    hide LE32, NumberAt;
    var w := s[at..at + 13 + |c.text|];
    FiveParts(w, LE32(c.x), LE32(c.y), LE32(|c.text|), c.text);
    assert w[1..5] == s[at + 1..at + 5] && w[5..9] == s[at + 5..at + 9] && w[9..13] == s[at + 9..at + 13];
    assert w[13..] == s[at + 13..at + 13 + |c.text|];
  }

  lemma FiveParts(w: Str, x: Str, y: Str, n: Str, text: Str)
    requires |x| == 4 && |y| == 4 && |n| == 4 && |w| == 13 + |text|
    ensures w == [OP_TEXT] + x + y + n + text
            <==> w[0] as int == 1 && w[1..5] == x && w[5..9] == y && w[9..13] == n && w[13..] == text
  {
    assert w == [w[0]] + w[1..5] + w[5..9] + w[9..13] + w[13..];
    var v := [OP_TEXT] + x + y + n + text;
    assert v[1..5] == x && v[5..9] == y && v[9..13] == n && v[13..] == text;
  }

  lemma {:induction false} CommandsWireCons(c: GfxText, cs: seq<GfxText>)
    ensures CommandsWire([c] + cs) == CommandWire(c) + CommandsWire(cs)
  {
    hide CommandWire;
    if cs == [] {
      assert [c] + cs == [c] && [c][..0] == [];
      EmptyIsUnit(CommandWire(c));
    } else {
      var init, last := cs[..|cs| - 1], cs[|cs| - 1];
      CommandsWireCons(c, init);
      CommandsWireSnoc([c] + init, last);
      assert [c] + init + [last] == [c] + cs;
      Associate(CommandWire(c), CommandsWire(init), CommandWire(last));
    }
  }

  lemma {:induction false} AllCommands(s: Str, at: nat, cs: seq<GfxText>)
    requires at <= |s| && forall c :: c in cs ==> |c.text| < 0x1_0000_0000
    ensures CommandsAt(s, at, cs) <==> s[at..] == CommandsWire(cs)
    decreases |cs|
  {
    hide CommandAt, CommandWire, CommandsWire;
    if cs == [] {
      NothingWritten();
    } else {
      var c, rest := cs[0], cs[1..];
      assert c in cs && cs == [c] + rest;
      CommandsWireCons(c, rest);
      CommandLength(c);
      var n := 13 + |c.text|;
      if at + n <= |s| {
        OneCommand(s, at, c);
        AllCommands(s, at + n, rest);
        TwoParts(s, at, n, CommandWire(c), CommandsWire(rest));
      } else {
        TooShort(s, at, c);
      }
    }
  }

  lemma NothingWritten()
    ensures CommandsWire([]) == []
  {
  }

  lemma CommandLength(c: GfxText)
    ensures |CommandWire(c)| == 13 + |c.text|
  {
  }

  lemma TooShort(s: Str, at: nat, c: GfxText)
    requires at + 13 + |c.text| > |s|
    ensures !CommandAt(s, at, c)
  {
  }

  lemma FourNumbers(s: Str, f: GfxFrame)
    requires |s| >= 17 && |f.text| < 0x1_0000_0000
    ensures s[..17] == HeaderWire(f.surface, |f.text|)
            <==> s[..5] == "PGFX1" && NumberAt(s, 5, f.surface.width) && NumberAt(s, 9, f.surface.height)
                 && NumberAt(s, 13, |f.text|)
  {
    U32ByWeight(s, 5, f.surface.width);
    U32ByWeight(s, 9, f.surface.height);
    U32ByWeight(s, 13, |f.text|);
    hide LE32, NumberAt;
    FourParts(s[..17], LE32(f.surface.width), LE32(f.surface.height), LE32(|f.text|));
    assert s[..17][5..9] == s[5..9] && s[..17][9..13] == s[9..13] && s[..17][13..] == s[13..17];
    assert s[..17][..5] == s[..5];
  }

  lemma FourParts(w: Str, x: Str, y: Str, n: Str)
    requires |x| == 4 && |y| == 4 && |n| == 4 && |w| == 17
    ensures w == "PGFX1" + x + y + n <==> w[..5] == "PGFX1" && w[5..9] == x && w[9..13] == y && w[13..] == n
  {
    assert w == w[..5] + w[5..9] + w[9..13] + w[13..];
    var v := "PGFX1" + x + y + n;
    assert v[..5] == "PGFX1" && v[5..9] == x && v[9..13] == y && v[13..] == n;
  }

  lemma FrameIsWire(s: Str, f: GfxFrame)
    requires forall c :: c in f.text ==> |c.text| < 0x1_0000_0000
    requires |f.text| < 0x1_0000_0000
    ensures IsFrame(s, f) <==> FrameWire(f) == s
    ensures FrameWire(f) == s ==> |s| == 17 + CommandsSize(f.text)
  {
    CommandsWireLength(f.text);
    hide CommandAt, NumberAt, CommandsAt, CommandsWire, HeaderWire, CommandsSize;
    if |s| >= 17 {
      FourNumbers(s, f);
      AllCommands(s, 17, f.text);
      TwoParts(s, 0, 17, HeaderWire(f.surface, |f.text|), CommandsWire(f.text));
      assert s[0..] == s && s[0..17] == s[..17];
    }
  }

  /** A byte string is accepted as a frame exactly when the frame is within bounds and each part of it stands in its place. */
  lemma FrameByPosition(s: Str, f: GfxFrame)
    ensures ParseFrame(s) == Some(f) <==> InBounds(f, |s|) && IsFrame(s, f)
  {
    FrameBijection(s, f);
    BoundsAgree(f);
    hide ParseFrame, FrameWire, FrameOk, IsFrame, CommandsSize, TextInBounds, IsPrintable;
    if InBounds(f, |s|) || FrameOk(f) {
      forall c | c in f.text ensures |c.text| < 0x1_0000_0000 { TextIsShort(c, f.surface); }
      FrameIsWire(s, f);
    }
  }

  lemma TextIsShort(c: GfxText, surface: GfxOptions)
    ensures TextInBounds(c, surface) ==> |c.text| < 0x1_0000_0000
  {
  }
}
