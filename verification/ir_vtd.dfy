/** ProwseVTD (src/core/ir_vtd.cpp): the event stream as length-prefixed tokens, and its strict decoder. */
module IrVtd {
  import opened Bytes
  import opened Dom
  import opened Layout
  import opened Slashes
  import opened EventStream
  import opened IrModel
  import opened Wire

  // ----- tokens and their wire form -----

  datatype Token = Token(code: Byte, depth: nat, path: Str, name: Str, value: Str)

  /** Type codes 1 to 4; any other kind would be written as 0. */
  function TypeCode(kind: Str): Byte {
    if kind == START then ToByte(1) else if kind == ATTRIBUTE then ToByte(2)
    else if kind == TEXT then ToByte(3) else if kind == END then ToByte(4) else ToByte(0)
  }

  /** The wire has one name field: the attribute name, or the tag when there is none. */
  function TokenOf(e: Event): Token {
    Token(TypeCode(e.kind), e.depth, e.xpath, if e.name == [] then e.tag else e.name, e.value)
  }

  predicate KnownCode(code: Byte) { 1 <= code as int <= 4 }

  /** Reading the token back: only an attribute keeps the name, and takes its tag from the path. */
  function EventOf(t: Token): Event
    requires KnownCode(t.code)
  {
    if t.code as int == 2 then Event(ATTRIBUTE, t.path, TagFromPath(t.path), t.name, t.value, t.depth, [], [])
    else
      Event(if t.code as int == 1 then START else if t.code as int == 3 then TEXT else END,
            t.path, t.name, [], t.value, t.depth, [], [])
  }

  function StringWire(s: Str): Str { LE32(|s|) + s }

  function TokenWire(t: Token): Str {
    [t.code] + LE32(t.depth) + StringWire(t.path) + StringWire(t.name) + StringWire(t.value)
  }

  function TokensWire(ts: seq<Token>): Str {
    if ts == [] then [] else TokensWire(ts[..|ts| - 1]) + TokenWire(ts[|ts| - 1])
  }

  function TokensOf(events: seq<Event>): seq<Token> {
    seq(|events|, i requires 0 <= i < |events| => TokenOf(events[i]))
  }

  function StreamOf(ts: seq<Token>): Str { "PVTD1" + LE32(|ts|) + TokensWire(ts) }

  /** The encoding of an event stream. */
  function VtdWire(events: seq<Event>): Str { StreamOf(TokensOf(events)) }

  // ----- reading -----

  function ParseString(s: Str): Option<(Str, Str)> {
    var (length, rest) :- ParseU32(s);
    if length > |rest| then None else Some((rest[..length], rest[length..]))
  }

  function ParseToken(s: Str): Option<(Token, Str)> {
    if s == [] then None
    else
      var (depth, s1) :- ParseU32(s[1..]);
      var (path, s2) :- ParseString(s1);
      var (name, s3) :- ParseString(s2);
      var (value, s4) :- ParseString(s3);
      if KnownCode(s[0]) then Some((Token(s[0], depth, path, name, value), s4)) else None
  }

  function ParseTokens(s: Str, n: nat): Option<(seq<Token>, Str)> {
    if n == 0 then Some(([], s))
    else
      var (ts, rest) :- ParseTokens(s, n - 1);
      var (t, rest') :- ParseToken(rest);
      Some((ts + [t], rest'))
  }

  function ParseStream(s: Str): Option<seq<Token>> {
    if !StartsWith(s, "PVTD1") then None
    else
      var (count, body) :- ParseU32(s[5..]);
      var (ts, rest) :- ParseTokens(body, count);
      if rest == [] then Some(ts) else None
  }

  predicate StringOk(s: Str) { |s| < 0x1_0000_0000 }

  predicate TokenOk(t: Token) {
    KnownCode(t.code) && t.depth < 0x1_0000_0000 && StringOk(t.path) && StringOk(t.name) && StringOk(t.value)
  }

  predicate TokensOk(ts: seq<Token>) { forall i :: 0 <= i < |ts| ==> TokenOk(ts[i]) }

  // ----- the wire form is a bijection -----

  lemma StringReadBack(s: Str, t: Str)
    requires StringOk(s)
    ensures ParseString(StringWire(s) + t) == Some((s, t))
  {
    U32Bijection(LE32(|s|) + (s + t), |s|, s + t);
    assert StringWire(s) + t == LE32(|s|) + (s + t);
    assert (s + t)[..|s|] == s && (s + t)[|s|..] == t;
  }

  lemma StringWriteBack(s: Str)
    requires ParseString(s).Some?
    ensures var (v, t) := ParseString(s).value; StringOk(v) && s == StringWire(v) + t
  {
    var (length, rest) := ParseU32(s).value;
    U32Bijection(s, length, rest);
    assert rest == rest[..length] + rest[length..];
  }

  lemma TokenReadBack(t: Token, rest: Str)
    requires TokenOk(t)
    ensures ParseToken(TokenWire(t) + rest) == Some((t, rest))
  {
    hide LE32, StringWire, ParseString, ParseU32;
    var s3 := StringWire(t.value) + rest;
    var s2 := StringWire(t.name) + s3;
    var s1 := StringWire(t.path) + s2;
    var s0 := LE32(t.depth) + s1;
    U32Bijection(s0, t.depth, s1);
    StringReadBack(t.path, s2);
    StringReadBack(t.name, s3);
    StringReadBack(t.value, rest);
    assert TokenWire(t) + rest == [t.code] + s0;
  }

  lemma TokenWriteBack(s: Str)
    requires ParseToken(s).Some?
    ensures var (t, rest) := ParseToken(s).value; TokenOk(t) && s == TokenWire(t) + rest
  {
    hide LE32, StringWire, ParseString, ParseU32, StringOk;
    var (depth, s1) := ParseU32(s[1..]).value;
    U32Bijection(s[1..], depth, s1);
    StringWriteBack(s1);
    var (path, s2) := ParseString(s1).value;
    StringWriteBack(s2);
    var (name, s3) := ParseString(s2).value;
    StringWriteBack(s3);
    var (value, s4) := ParseString(s3).value;
    RegroupToken(s[0], LE32(depth), StringWire(path), StringWire(name), StringWire(value), s4);
    assert s == [s[0]] + s[1..];
  }

  lemma RegroupToken(a: Byte, b: Str, c: Str, d: Str, e: Str, t: Str)
    ensures [a] + (b + (c + (d + (e + t)))) == [a] + b + c + d + e + t
  {
  }

  lemma TokensWireSnoc(ts: seq<Token>, t: Token)
    ensures TokensWire(ts + [t]) == TokensWire(ts) + TokenWire(t)
  {
    assert (ts + [t])[..|ts|] == ts;
  }

  lemma {:induction false} TokensReadBack(ts: seq<Token>, rest: Str)
    requires TokensOk(ts)
    ensures ParseTokens(TokensWire(ts) + rest, |ts|) == Some((ts, rest))
  {
    hide TokenWire, ParseToken, TokenOk;
    if ts == [] {
      assert TokensWire(ts) + rest == rest;
    } else {
      var init, t := ts[..|ts| - 1], ts[|ts| - 1];
      TokensReadBack(init, TokenWire(t) + rest);
      TokenReadBack(t, rest);
      Associate(TokensWire(init), TokenWire(t), rest);
      assert init + [t] == ts;
    }
  }

  lemma {:induction false} TokensWriteBack(s: Str, n: nat)
    requires ParseTokens(s, n).Some?
    ensures var (ts, rest) := ParseTokens(s, n).value;
            |ts| == n && TokensOk(ts) && s == TokensWire(ts) + rest
  {
    hide TokenWire, ParseToken, TokenOk;
    if n > 0 {
      TokensWriteBack(s, n - 1);
      var (init, rest0) := ParseTokens(s, n - 1).value;
      TokenWriteBack(rest0);
      var (t, rest) := ParseToken(rest0).value;
      TokensWireSnoc(init, t);
      Associate(TokensWire(init), TokenWire(t), rest);
    }
  }

  /** Tokens and accepted byte strings correspond one to one. */
  lemma StreamBijection(s: Str, ts: seq<Token>)
    requires |ts| < 0x1_0000_0000
    ensures ParseStream(s) == Some(ts) <==> TokensOk(ts) && StreamOf(ts) == s
  {
    hide LE32, TokensWire, TokenOk, ParseTokens, ParseU32;
    if TokensOk(ts) && StreamOf(ts) == s {
      assert s[5..] == LE32(|ts|) + TokensWire(ts);
      U32Bijection(s[5..], |ts|, TokensWire(ts));
      TokensReadBack(ts, []);
      assert TokensWire(ts) + [] == TokensWire(ts);
    }
    if ParseStream(s) == Some(ts) {
      var (count, body) := ParseU32(s[5..]).value;
      U32Bijection(s[5..], count, body);
      TokensWriteBack(body, count);
      assert TokensWire(ts) + [] == body;
      assert s == "PVTD1" + s[5..];
    }
  }

  lemma {:induction false} TokensSize(ts: seq<Token>)
    ensures |TokensWire(ts)| >= 17 * |ts|
  {
    if ts != [] {
      TokensSize(ts[..|ts| - 1]);
    }
  }

  /** An accepted count is at most a seventeenth of the input after the header, so the reservation holds it all. */
  lemma ReservationSuffices(s: Str)
    requires ParseStream(s).Some?
    ensures var n := |ParseStream(s).value|; 9 + 17 * n <= |s| && n <= |s| / 13 + 1
  {
    var (count, body) := ParseU32(s[5..]).value;
    TokensWriteBack(body, count);
    TokensSize(ParseStream(s).value);
  }

  // ----- which streams survive a round trip -----

  /** An event without what the wire does not carry: the start event's attributes and subtree text. */
  function Stripped(e: Event): Event { e.(attributes := [], subtreeText := []) }

  function EventsOf(ts: seq<Token>): seq<Event>
    requires TokensOk(ts)
  {
    seq(|ts|, i requires 0 <= i < |ts| => EventOf(ts[i]))
  }

  function AllStripped(events: seq<Event>): seq<Event> {
    seq(|events|, i requires 0 <= i < |events| => Stripped(events[i]))
  }

  /** Shapes the model gives its events: a name only on attributes. */
  predicate Canonical(e: Event) {
    e.kind in {START, ATTRIBUTE, TEXT, END} && (e.kind != ATTRIBUTE ==> e.name == [])
  }

  /** The attribute's own name is on the wire, and its path gives its tag back. */
  predicate Recoverable(e: Event) {
    e.kind == ATTRIBUTE ==> (e.name != [] || e.tag == []) && TagFromPath(e.xpath) == e.tag
  }

  lemma OneEvent(e: Event)
    requires Canonical(e)
    ensures KnownCode(TokenOf(e).code)
    ensures EventOf(TokenOf(e)) == Stripped(e) <==> Recoverable(e)
  {
  }

  predicate Sized(e: Event) {
    e.depth < 0x1_0000_0000 && StringOk(e.xpath) && StringOk(e.tag) && StringOk(e.name) && StringOk(e.value)
  }

  /** Decoding gives the stripped stream back exactly when every attribute is recoverable. */
  lemma DecodeInvertsEncode(events: seq<Event>)
    requires |events| < 0x1_0000_0000
    requires forall e :: e in events ==> Canonical(e) && Sized(e)
    ensures ParseStream(VtdWire(events)) == Some(TokensOf(events)) && TokensOk(TokensOf(events))
    ensures EventsOf(TokensOf(events)) == AllStripped(events) <==> forall e :: e in events ==> Recoverable(e)
  {
    hide Canonical, Sized, Recoverable, TokenOf, EventOf, Stripped, TokenOk, ParseStream, StreamOf;
    var ts := TokensOf(events);
    forall i | 0 <= i < |events|
      ensures TokenOk(ts[i])
      ensures KnownCode(ts[i].code) && (EventOf(ts[i]) == Stripped(events[i]) <==> Recoverable(events[i]))
    {
      assert events[i] in events;
      OneToken(events[i]);
      OneEvent(events[i]);
    }
    StreamBijection(VtdWire(events), ts);
    if forall e :: e in events ==> Recoverable(e) {
      forall i | 0 <= i < |events| ensures EventsOf(ts)[i] == AllStripped(events)[i] {
        assert events[i] in events;
      }
    }
    if EventsOf(ts) == AllStripped(events) {
      forall e | e in events ensures Recoverable(e) {
        var i :| 0 <= i < |events| && events[i] == e;
        assert EventsOf(ts)[i] == AllStripped(events)[i];
      }
    }
  }

  lemma OneToken(e: Event)
    requires Canonical(e) && Sized(e)
    ensures TokenOk(TokenOf(e))
  {
  }

  // ----- the streams of documents -----

  /** A tag that can be read back from a path. */
  predicate PlainTag(tag: Str) {
    tag == [] || ('/' !in tag && '[' !in tag && !StartsWith(tag, "@") && !StartsWith(tag, "text()"))
  }

  lemma TagFromPathShape(path: Str)
    ensures '/' !in TagFromPath(path) && '[' !in TagFromPath(path)
    ensures !StartsWith(TagFromPath(path), "@") && !StartsWith(TagFromPath(path), "text()")
  {
    var slash := FindLast(path, '/');
    if slash != -1 && slash + 1 < |path| {
      var segment := path[slash + 1..];
      assert forall i :: 0 <= i < |segment| ==> segment[i] == path[slash + 1 + i];
      var tag := segment[..Find(segment, '[', 0)];
      assert StartsWith(tag, "@") ==> StartsWith(segment, "@");
      assert StartsWith(tag, "text()") ==> StartsWith(segment, "text()");
    }
  }

  /** The tag comes back from an element's path exactly when it is plain. */
  lemma TagComesBack(parent: Str, name: Str, index: nat)
    ensures TagFromPath(parent + "/" + SegmentText(name, index)) == name <==> PlainTag(name)
  {
    var path := parent + "/" + SegmentText(name, index);
    TagFromPathShape(path);
    if PlainTag(name) {
      DecimalDigits(index);
      var segment := SegmentText(name, index);
      PlainSegment(name, index);
      LastSlashIn(parent, segment);
      assert path[|parent| + 1..] == segment;
    }
  }

  lemma PlainSegment(name: Str, index: nat)
    requires PlainTag(name)
    ensures var segment := SegmentText(name, index);
            && FindLast(segment, '/') == -1
            && Find(segment, '[', 0) == |name|
            && segment[..|name|] == name
            && !StartsWith(segment, "@") && !StartsWith(segment, "text()")
  {
    var segment := SegmentText(name, index);
    var digits := Decimal(index);
    DecimalDigits(index);
    assert segment[|name|] == '[';
    forall i | 0 <= i < |segment| ensures segment[i] != '/' && (i < |name| ==> segment[i] != '[') {
      if i < |name| {
        assert segment[i] == name[i] && segment[i] in name;
      } else if |name| < i < |segment| - 1 {
        assert segment[i] == digits[i - |name| - 1] && segment[i] in digits;
      }
    }
    assert segment[..|name|] == name;
    PrefixBeforeBracket(name, digits + "]", "@");
    PrefixBeforeBracket(name, digits + "]", "text()");
    assert segment == name + "[" + (digits + "]");
  }

  lemma PrefixBeforeBracket(name: Str, rest: Str, prefix: Str)
    requires '[' !in prefix
    ensures StartsWith(name + "[" + rest, prefix) ==> StartsWith(name, prefix)
  {
    var s := name + "[" + rest;
    assert s[|name|] == '[' && s[..|name|] == name;
    assert |name| < |prefix| ==> prefix[|name|] in prefix;
  }

  /** What the model promises of each event it makes. */
  predicate Shaped(e: Event) {
    && Canonical(e)
    && e.depth <= 256
    && (e.kind == ATTRIBUTE ==> (TagFromPath(e.xpath) == e.tag <==> PlainTag(e.tag)))
  }

  predicate AllShaped(events: seq<Event>) { forall e :: e in events ==> Shaped(e) }

  /** The path of an element gives its name back exactly when the name is plain. */
  predicate NamesBack(n: Node, path: Str) {
    n.kind.ElementNode? ==> (TagFromPath(path) == n.name <==> PlainTag(n.name))
  }

  lemma ChildNamesBack(n: Node, path: Str, i: nat)
    requires i < |n.children|
    ensures NamesBack(n.children[i], ChildPath(n, path, i))
  {
    var c := n.children[i];
    if c.kind.ElementNode? {
      TagComesBack(if n.kind.DocumentNode? then [] else path, c.name, 1 + ElderCount(n.children, i, c.name));
    }
  }

  lemma {:induction false} AttributesShaped(n: Node, path: Str, depth: nat, k: nat)
    requires n.kind.ElementNode? && NamesBack(n, path) && depth < 256 && k <= |n.attributes|
    ensures AllShaped(AttributeEvents(n, path, depth, k))
  {
    if k > 0 {
      AttributesShaped(n, path, depth, k - 1);
    }
  }

  lemma ShallowParts(a: seq<Event>, b: seq<Event>)
    requires Shallow(a + b)
    ensures Shallow(a) && Shallow(b)
  {
    assert forall e :: e in a || e in b ==> e in a + b;
  }

  lemma ShapedAppend(a: seq<Event>, b: seq<Event>)
    requires AllShaped(a) && AllShaped(b)
    ensures AllShaped(a + b)
  {
  }

  lemma {:induction false} TreeShaped(n: Node, path: Str, depth: nat)
    requires NamesBack(n, path) && Shallow(TreeEvents(n, path, depth))
    ensures AllShaped(TreeEvents(n, path, depth))
    decreases n, 1, 0
  {
    if n.kind.DocumentNode? {
      ChildrenShaped(n, path, depth, |n.children|);
    } else if n.kind.ElementNode? {
      var start, end := StartEvent(n, path, depth), EndEvent(n, path, depth);
      var opening, inner := OpeningEvents(n, path, depth), ChildrenEvents(n, path, depth, |n.children|);
      assert start in opening && start in opening + inner + [end];
      ShallowParts(opening + inner, [end]);
      ShallowParts(opening, inner);
      AttributesShaped(n, path, depth, |n.attributes|);
      ChildrenShaped(n, path, depth, |n.children|);
      assert Shaped(start) && Shaped(end);
      ShapedAppend(opening, inner);
      ShapedAppend(opening + inner, [end]);
    }
  }

  lemma {:induction false} ChildrenShaped(n: Node, path: Str, depth: nat, k: nat)
    requires n.kind.DocumentNode? || (n.kind.ElementNode? && depth < 256)
    requires k <= |n.children| && Shallow(ChildrenEvents(n, path, depth, k))
    ensures AllShaped(ChildrenEvents(n, path, depth, k))
    decreases n, 0, k
  {
    if k > 0 {
      var before, own := ChildrenEvents(n, path, depth, k - 1), ChildEvents(n, path, depth, k - 1);
      assert ChildrenEvents(n, path, depth, k) == before + own;
      ShallowParts(before, own);
      ChildrenShaped(n, path, depth, k - 1);
      ChildNamesBack(n, path, k - 1);
      var c := n.children[k - 1];
      if n.kind.DocumentNode? || c.kind.ElementNode? {
        TreeShaped(c, ChildPath(n, path, k - 1), if n.kind.DocumentNode? then depth else depth + 1);
      }
      ShapedAppend(before, own);
    }
  }

  lemma {:induction false} EachFits(events: seq<Event>)
    requires Total(events).bytes <= MAX_BYTES
    ensures forall e :: e in events ==> FieldBytes(e) <= MAX_BYTES
  {
    if events != [] {
      var init, last := events[..|events| - 1], events[|events| - 1];
      EachFits(init);
      assert events == init + [last];
    }
  }

  /** Every attribute has a name and belongs to an element with a plain tag. */
  predicate PlainAttributes(events: seq<Event>) {
    forall e :: e in events && e.kind == ATTRIBUTE ==> (e.name != [] || e.tag == []) && PlainTag(e.tag)
  }

  /**
   * For a document that lowers, decoding its encoding succeeds, nothing is truncated to 32 bits, and the stripped
   * stream comes back exactly when its attributes are plain.
   */
  lemma DocumentRoundTrip(root: Node)
    requires Lowers(root)
    ensures var events := DocumentEvents(root);
            && ParseStream(VtdWire(events)) == Some(TokensOf(events)) && TokensOk(TokensOf(events))
            && (EventsOf(TokensOf(events)) == AllStripped(events) <==> PlainAttributes(events))
  {
    var events := DocumentEvents(root);
    RootNamesBack(root);
    TreeShaped(root, PathOf(root, []), 0);
    EachFits(events);
    TotalCountsEvents(events);
    hide DocumentEvents;
    forall e | e in events ensures Canonical(e) && Sized(e) && Shaped(e) {
    }
    DecodeInvertsEncode(events);
    assert forall e :: e in events ==>
             (Recoverable(e) <==> (e.kind == ATTRIBUTE ==> (e.name != [] || e.tag == []) && PlainTag(e.tag)));
  }

  /** An element whose name holds a bracket, with one attribute. */
  const BRACKETED: Node := Node(ElementNode, "a[b", [Attribute("x", "y")], [], [])

  /** Its attribute comes back with another tag. */
  lemma BracketedTagIsLost()
    ensures Lowers(BRACKETED)
    ensures EventsOf(TokensOf(DocumentEvents(BRACKETED))) != AllStripped(DocumentEvents(BRACKETED))
  {
    hide *;
    BracketedLowers();
    BracketedIsNotPlain();
    DocumentRoundTrip(BRACKETED);
  }

  lemma BracketedLowers()
    ensures Lowers(BRACKETED)
  {
    var n, path := BRACKETED, PathOf(BRACKETED, []);
    var s, a, e := StartEvent(n, path, 0), AttributeEvent(n, path, 0, Attribute("x", "y")), EndEvent(n, path, 0);
    hide PathOf, Cost, Total, Fits;
    BracketedEvents(path);
    BracketedPath();
    BracketedCosts(path);
    TotalThree(s, a, e);
  }

  lemma BracketedIsNotPlain()
    ensures !PlainAttributes(DocumentEvents(BRACKETED))
  {
    var n, path := BRACKETED, PathOf(BRACKETED, []);
    var a := AttributeEvent(n, path, 0, Attribute("x", "y"));
    hide PathOf, StartEvent, EndEvent;
    BracketedEvents(path);
    assert a in DocumentEvents(n) && a.kind == ATTRIBUTE && a.tag == "a[b";
    assert "a[b"[1] == '[';
  }

  lemma BracketedEvents(path: Str)
    ensures TreeEvents(BRACKETED, path, 0)
            == [StartEvent(BRACKETED, path, 0), AttributeEvent(BRACKETED, path, 0, Attribute("x", "y")),
                EndEvent(BRACKETED, path, 0)]
  {
    hide StartEvent, AttributeEvent, EndEvent;
    var n := BRACKETED;
    assert AttributeEvents(n, path, 0, 1) == AttributeEvents(n, path, 0, 0) + [AttributeEvent(n, path, 0, n.attributes[0])];
    assert ChildrenEvents(n, path, 0, 0) == [];
  }

  lemma BracketedPath()
    ensures |PathOf(BRACKETED, [])| == 7
  {
    var own := SegmentText("a[b", 1);
    assert |own| == 6;
    SlashedSnoc([], own);
    assert [] + [own] == [own];
  }

  lemma BracketedCosts(path: Str)
    requires |path| == 7
    ensures Fits(Plus(Plus(Cost(StartEvent(BRACKETED, path, 0)),
                           Cost(AttributeEvent(BRACKETED, path, 0, Attribute("x", "y")))),
                      Cost(EndEvent(BRACKETED, path, 0))))
  {
    assert TextContent(BRACKETED) == [];
    assert AttributeBytes(BRACKETED.attributes) == 2 by {
      assert BRACKETED.attributes[..0] == [];
    }
  }

  lemma TotalThree(a: Event, b: Event, c: Event)
    ensures Total([a, b, c]) == Plus(Plus(Cost(a), Cost(b)), Cost(c))
  {
    hide Cost;
    TotalOne(a);
    TotalSnoc([a], b);
    TotalSnoc([a, b], c);
    assert [a] + [b] == [a, b] && [a, b] + [c] == [a, b, c];
  }

  lemma RootNamesBack(root: Node)
    ensures NamesBack(root, PathOf(root, []))
  {
    if root.kind.ElementNode? {
      var own := SegmentText(root.name, 1);
      TagComesBack([], root.name, 1);
      SlashedSnoc([], own);
      assert [] + [own] == [own] && Segments(root, []) == [own];
    }
  }

  // ----- accepted bytes re-encode to themselves -----

  /** A token whose name field survives the trip through an event. */
  predicate Stable(t: Token) { t.code as int == 2 ==> t.name != [] || TagFromPath(t.path) == [] }

  lemma OneTokenBack(t: Token)
    requires TokenOk(t)
    ensures TokenOk(TokenOf(EventOf(t)))
    ensures TokenOf(EventOf(t)) == t <==> Stable(t)
  {
  }

  /** Re-encoding what was decoded gives the same bytes exactly when every attribute name is there to be written. */
  lemma EncodeInvertsDecode(s: Str)
    requires ParseStream(s).Some?
    ensures TokensOk(ParseStream(s).value)
    ensures VtdWire(EventsOf(ParseStream(s).value)) == s <==> forall t :: t in ParseStream(s).value ==> Stable(t)
  {
    var ts := ParseStream(s).value;
    var (count, body) := ParseU32(s[5..]).value;
    TokensWriteBack(body, count);
    StreamBijection(s, ts);
    var again := TokensOf(EventsOf(ts));
    hide TokenOf, EventOf, TokenOk, Stable, ParseStream, StreamOf;
    forall i | 0 <= i < |ts| ensures TokenOk(again[i]) && (again[i] == ts[i] <==> Stable(ts[i])) {
      OneTokenBack(ts[i]);
    }
    StreamBijection(StreamOf(again), again);
    assert again == ts <==> forall i :: 0 <= i < |ts| ==> again[i] == ts[i];
  }

  /** An attribute token without a name, below an element. */
  const UNNAMED: Token := Token(ToByte(2), 0, "/a[1]", [], [])

  lemma UnnamedIsUnstable()
    ensures TokenOk(UNNAMED) && !Stable(UNNAMED)
  {
    var path, segment: Str := "/a[1]", "a[1]";
    assert path[0] == '/' && FindLast(path, '/') == 0 && path[1..] == segment;
    assert segment[0] == 'a' && segment[1] == '[' && Find(segment, '[', 0) == 1;
    assert TagFromPath(path) == segment[..1];
  }

  /** Its bytes are accepted, and re-encoding gives the tag as the name. */
  lemma UnnamedAttributeIsNamed()
    ensures ParseStream(StreamOf([UNNAMED])) == Some([UNNAMED])
    ensures VtdWire(EventsOf([UNNAMED])) != StreamOf([UNNAMED])
  {
    hide TokenOk, Stable, ParseStream, StreamOf;
    UnnamedIsUnstable();
    StreamBijection(StreamOf([UNNAMED]), [UNNAMED]);
    EncodeInvertsDecode(StreamOf([UNNAMED]));
    assert UNNAMED in [UNNAMED];
  }

  // ----- the code -----

  method WriteString(out: ByteVector, s: Str)
    modifies out
    ensures out.data == old(out.data) + StringWire(s)
  {
    out.WriteU32(|s|);
    out.Insert(s);
  }

  method WriteToken(out: ByteVector, t: Token)
    modifies out
    ensures out.data == old(out.data) + TokenWire(t)
  {
    hide LE32, StringWire;
    out.PushBack(t.code);
    out.WriteU32(t.depth);
    WriteString(out, t.path);
    WriteString(out, t.name);
    WriteString(out, t.value);
  }

  method WriteEvents(out: ByteVector, events: seq<Event>)
    modifies out
    ensures out.data == old(out.data) + TokensWire(TokensOf(events))
  {
    hide TokenWire, TokenOf;
    for i := 0 to |events|
      invariant out.data == old(out.data) + TokensWire(TokensOf(events[..i]))
    {
      var event := events[i];
      WriteToken(out, TokenOf(event));
      TokensWireSnoc(TokensOf(events[..i]), TokenOf(event));
      assert TokensOf(events[..i + 1]) == TokensOf(events[..i]) + [TokenOf(event)];
    }
    assert events[..|events|] == events;
  }

  /** `emit_prowse_vtd`. */
  method EmitVtd(root: Node) returns (r: Result<Str>)
    ensures r == if Lowers(root) then Success(VtdWire(DocumentEvents(root))) else Failure(ResourceLimit)
  {
    hide Lowers, DocumentEvents, LE32, TokensWire;
    var ir :- BuildIr(root);
    var binary := new ByteVector("PVTD1");
    binary.WriteU32(|ir.events|);
    WriteEvents(binary, ir.events);
    return Success(binary.data);
  }

  method ReadString(cursor: Cursor) returns (r: Option<Str>)
    requires cursor.Valid()
    modifies cursor
    ensures cursor.Valid()
    ensures match ParseString(old(cursor.Rest()))
            case None => r == None
            case Some((s, rest)) => r == Some(s) && cursor.Rest() == rest
  {
    var length :- cursor.ReadU32();
    if |cursor.bytes| - cursor.pos < length { return None; }
    var s := cursor.Take(length);
    return Some(s);
  }

  method ReadToken(cursor: Cursor) returns (r: Option<Event>)
    requires cursor.Valid()
    modifies cursor
    ensures cursor.Valid()
    ensures match ParseToken(old(cursor.Rest()))
            case None => r == None
            case Some((t, rest)) => r == Some(EventOf(t)) && cursor.Rest() == rest
  {
    hide ParseString, ParseU32, TagFromPath;
    if cursor.pos >= |cursor.bytes| { return None; }
    var first := cursor.Take(1);
    var code := first[0];
    var depth :- cursor.ReadU32();
    var xpath :- ReadString(cursor);
    var name :- ReadString(cursor);
    var value :- ReadString(cursor);
    match code as int {
      case 1 => return Some(Event(START, xpath, name, [], value, depth, [], []));
      case 2 => return Some(Event(ATTRIBUTE, xpath, TagFromPath(xpath), name, value, depth, [], []));
      case 3 => return Some(Event(TEXT, xpath, name, [], value, depth, [], []));
      case 4 => return Some(Event(END, xpath, name, [], value, depth, [], []));
      case _ => return None;
    }
  }

  lemma {:induction false} ParseStaysFailed(s: Str, i: nat, n: nat)
    requires i <= n && ParseTokens(s, i).None?
    ensures ParseTokens(s, n).None?
  {
    hide ParseToken;
    if i < n {
      ParseStaysFailed(s, i, n - 1);
    }
  }

  method ReadTokens(cursor: Cursor, count: nat) returns (r: Option<seq<Event>>)
    requires cursor.Valid()
    modifies cursor
    ensures cursor.Valid()
    ensures match ParseTokens(old(cursor.Rest()), count)
            case None => r == None
            case Some((ts, rest)) => TokensOk(ts) && r == Some(EventsOf(ts)) && cursor.Rest() == rest
  {
    hide ParseToken, EventOf, TokenOk;
    ghost var body := cursor.Rest();
    ghost var ts: seq<Token> := [];
    var events: seq<Event> := [];
    for i := 0 to count
      invariant cursor.Valid()
      invariant ParseTokens(body, i) == Some((ts, cursor.Rest()))
      invariant TokensOk(ts) && events == EventsOf(ts)
    {
      var event := ReadToken(cursor);
      if event.None? {
        ParseStaysFailed(body, i + 1, count);
        return None;
      }
      TokensWriteBack(body, i + 1);
      ts := ParseTokens(body, i + 1).value.0;
      events := events + [event.value];
    }
    return Some(events);
  }

  /** `decode_prowse_vtd`: the empty stream stands for any refusal. */
  method DecodeVtd(bytes: Str) returns (events: seq<Event>)
    ensures match ParseStream(bytes)
            case None => events == []
            case Some(ts) => TokensOk(ts) && events == EventsOf(ts)
  {
    hide ParseTokens, ParseU32, TokensOk;
    if |bytes| < 9 || bytes[..5] != "PVTD1" {
      ShortStream(bytes);
      return [];
    }
    var cursor := new Cursor(bytes);
    var magic := cursor.Take(5);
    var count := cursor.ReadU32();
    if count.None? { return []; }
    var read := ReadTokens(cursor, count.value);
    if read.None? || cursor.pos != |bytes| { return []; }
    return read.value;
  }

  lemma ShortStream(s: Str)
    ensures |s| < 9 ==> ParseStream(s).None?
  {
  }
}
