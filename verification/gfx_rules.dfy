/** What the preview breaks at, draws and hides, and how wide its lines are (src/core/gfx_ir.cpp). */
module GfxRules {
  import opened Bytes
  import opened Dom
  import opened EventStream
  import opened IrModel
  import opened GfxEncoding
  import opened GfxIr

  // ----- breaks and markers -----

  const BLOCKS: set<Str> := {"p", "div", "section", "article", "main", "li", "tr", "pre", "blockquote",
                             "h1", "h2", "h3", "h4", "h5", "h6"}

  lemma BlockIff(tag: Str)
    ensures Block(tag) <==> tag in BLOCKS
  {
    if |tag| == 2 {
      assert tag == [tag[0], tag[1]];
      assert "h1" == ['h', '1'] && "h6" == ['h', '6'];
    }
  }

  /** A line breaks where a block starts or ends and at `br`, and there alone; lists, inputs and images have markers. */
  lemma DrawnBy(e: Event)
    ensures Breaks(e) <==> (e.kind == "start" && (e.tag in BLOCKS || e.tag == "br")) || (e.kind == "end" && e.tag in BLOCKS)
    ensures Marks(e)
            == if e.kind == "text" then e.value
               else if e.kind != "start" then []
               else if e.tag == "li" then "* " else if e.tag == "input" then "[input]" else if e.tag == "img" then "[image]"
               else []
  {
    BlockIff(e.tag);
    hide Block, BLOCKS;
  }

  // ----- what hides -----

  /** The text is the word, whatever blanks stand in it and whichever letters are capitals. */
  predicate Reads(s: Str, word: Str)
    decreases |s|
  {
    if s == [] then word == []
    else if IsSpace(s[0]) then Reads(s[1..], word)
    else word != [] && LowerByte(s[0]) == word[0] && Reads(s[1..], word[1..])
  }

  predicate Mentions(s: Str, word: Str) { exists i, j :: 0 <= i <= j <= |s| && Reads(s[i..j], word) }

  function Squeezed(s: Str): Str { Lower(WithoutSpaces(s)) }

  lemma {:induction false} SpacesAppend(a: Str, b: Str)
    ensures WithoutSpaces(a + b) == WithoutSpaces(a) + WithoutSpaces(b)
  {
    if b == [] {
      EmptyIsUnit(a);
      EmptyIsUnit(WithoutSpaces(a));
    } else {
      var init, last := b[..|b| - 1], b[|b| - 1];
      SpacesAppend(a, init);
      assert (a + b)[..|a + b| - 1] == a + init;
      Associate(WithoutSpaces(a), WithoutSpaces(init), if IsSpace(last) then [] else [last]);
    }
  }

  lemma SqueezedAppend(a: Str, b: Str)
    ensures Squeezed(a + b) == Squeezed(a) + Squeezed(b)
  {
    SpacesAppend(a, b);
    hide WithoutSpaces;
    var x, y := WithoutSpaces(a), WithoutSpaces(b);
    assert Lower(x + y) == Lower(x) + Lower(y);
  }

  lemma SqueezedOne(c: Byte)
    ensures Squeezed([c]) == if IsSpace(c) then [] else [LowerByte(c)]
  {
    assert [c][..0] == [];
    assert WithoutSpaces([c]) == if IsSpace(c) then [] else [c];
  }

  lemma {:induction false} ReadsIsSqueezed(s: Str, word: Str)
    ensures Reads(s, word) <==> Squeezed(s) == word
    decreases |s|
  {
    if s != [] {
      var c, rest := s[0], s[1..];
      assert s == [c] + rest;
      SqueezedAppend([c], rest);
      SqueezedOne(c);
      hide Squeezed, IsSpace, LowerByte;
      if IsSpace(c) {
        ReadsIsSqueezed(rest, word);
        EmptyIsUnit(Squeezed(rest));
      } else if word != [] {
        ReadsIsSqueezed(rest, word[1..]);
        assert word == [word[0]] + word[1..];
      }
    }
  }

  /** Where a squeezed text is cut, the text can be cut. */
  lemma {:induction false} CutSqueezed(s: Str, n: nat) returns (i: nat)
    requires n <= |Squeezed(s)|
    ensures i <= |s| && Squeezed(s[..i]) == Squeezed(s)[..n] && Squeezed(s[i..]) == Squeezed(s)[n..]
  {
    hide Squeezed;
    if n == |Squeezed(s)| {
      i := |s|;
      assert s[..i] == s && s[i..] == [] && Squeezed([]) == [] by { SqueezedNothing(); }
    } else {
      if s == [] {
        SqueezedNothing();
      }
      var init, last := s[..|s| - 1], s[|s| - 1];
      Unsnoc(s);
      SqueezedAppend(init, [last]);
      SqueezedOne(last);
      i := CutSqueezed(init, n);
      assert s[..i] == init[..i] && s[i..] == init[i..] + [last];
      SqueezedAppend(init[i..], [last]);
    }
  }

  lemma SqueezedNothing()
    ensures Squeezed([]) == []
  {
  }

  lemma MentionsIff(s: Str, word: Str)
    ensures FindStr(Squeezed(s), word, 0).Some? <==> Mentions(s, word)
  {
    hide Squeezed, FindStr, Reads;
    var t := Squeezed(s);
    if FindStr(t, word, 0).Some? {
      var at := FindStr(t, word, 0).value;
      var j := CutSqueezed(s, at + |word|);
      assert Squeezed(s[..j])[..at] == t[..at];
      var i := CutSqueezed(s[..j], at);
      assert s[..j][i..] == s[i..j] && t[..at + |word|][at..] == word;
      ReadsIsSqueezed(s[i..j], word);
      assert Reads(s[i..j], word);
    }
    if Mentions(s, word) {
      var i, j :| 0 <= i <= j <= |s| && Reads(s[i..j], word);
      ReadsIsSqueezed(s[i..j], word);
      assert s == s[..i] + s[i..j] + s[j..];
      SqueezedAppend(s[..i] + s[i..j], s[j..]);
      SqueezedAppend(s[..i], s[i..j]);
      OccursInside(Squeezed(s[..i]), word, Squeezed(s[j..]));
    }
  }

  lemma OccursInside(a: Str, word: Str, b: Str)
    ensures OccursAt(a + word + b, word, |a|)
  {
    assert (a + word + b)[|a|..|a| + |word|] == word;
  }

  predicate StyleHides(style: Str) { Mentions(style, "display:none") || Mentions(style, "visibility:hidden") }

  /**
   * An element is hidden by its tag, by a `hidden` attribute, or by a style that mentions one of two declarations, with
   * any blanks inside and in any case.
   */
  lemma HiddenIff(e: Event)
    ensures Hidden(e)
            <==> e.tag in {"head", "script", "style", "template", "textarea", "select"}
                 || exists a :: a in e.attributes && (a.name == "hidden" || (a.name == "style" && StyleHides(a.value)))
  {
    forall a | a in e.attributes
      ensures Hides(a) <==> a.name == "hidden" || (a.name == "style" && StyleHides(a.value))
    {
      HidesIff(a);
    }
    hide Hides, StyleHides;
  }

  lemma HidesIff(a: Attribute)
    ensures Hides(a) <==> a.name == "hidden" || (a.name == "style" && StyleHides(a.value))
  {
    MentionsIff(a.value, "display:none");
    MentionsIff(a.value, "visibility:hidden");
    hide FindStr, Mentions, Lower, WithoutSpaces;
  }

  // ----- how wide a line is -----

  /**
   * As many glyphs as fit, each eight wide, between margins of sixteen, and at least one; the left margin is sixteen
   * unless the surface is no wider than that.
   */
  lemma WidthIs(o: GfxOptions, n: nat)
    requires DimensionsOk(o) && n >= 1
    ensures n <= Width(o) <==> n == 1 || 16 + 8 * n + 16 <= o.width
    ensures LineX(o) == if o.width > 16 then 16 else o.width - 1
  {
  }
}
