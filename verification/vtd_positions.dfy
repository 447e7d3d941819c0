/** Where each number and string of a token stream stands, byte by byte (src/core/ir_vtd.cpp). */
module VtdPositions {
  import opened Bytes
  import opened Dom
  import opened EventStream
  import opened IrModel
  import opened IrVtd
  import opened Layout
  import opened Wire

  /** A string: its length in four bytes, then itself. */
  predicate StringAt(s: Str, at: nat, v: Str) {
    at + 4 + |v| <= |s| && NumberAt(s, at, |v|) && s[at + 4..at + 4 + |v|] == v
  }

  function Size(t: Token): nat { 17 + |t.path| + |t.name| + |t.value| }

  /** A token: its code, its depth in four bytes, then path, name and value. */
  predicate TokenAt(s: Str, at: nat, t: Token) {
    at + Size(t) <= |s| && s[at] == t.code && NumberAt(s, at + 1, t.depth) && StringAt(s, at + 5, t.path)
    && StringAt(s, at + 9 + |t.path|, t.name) && StringAt(s, at + 13 + |t.path| + |t.name|, t.value)
  }

  /** The tokens one behind the other, and nothing behind them. */
  predicate TokensAt(s: Str, at: nat, ts: seq<Token>)
    decreases |ts|
  {
    if ts == [] then at == |s| else TokenAt(s, at, ts[0]) && TokensAt(s, at + Size(ts[0]), ts[1..])
  }

  /** The mark, the count in four bytes, then the tokens. */
  predicate IsStream(s: Str, ts: seq<Token>) {
    |s| >= 9 && s[..5] == "PVTD1" && NumberAt(s, 5, |ts|) && TokensAt(s, 9, ts)
  }

  // ----- the wire form puts everything in its place -----

  lemma OneString(s: Str, at: nat, v: Str)
    requires at + 4 + |v| <= |s| && StringOk(v)
    ensures StringAt(s, at, v) <==> s[at..at + 4 + |v|] == StringWire(v)
  {
    U32ByWeight(s, at, |v|);
    hide NumberAt, LE32;
    Cut(s, at, at + 4, at + 4 + |v|, LE32(|v|), v);
  }

  lemma Cut(s: Str, i: nat, j: nat, k: nat, a: Str, b: Str)
    requires i <= j <= k <= |s| && |a| == j - i
    ensures s[i..k] == a + b <==> s[i..j] == a && s[j..k] == b
  {
    assert s[i..k] == s[i..j] + s[j..k];
    assert (a + b)[..j - i] == a && (a + b)[j - i..] == b;
  }

  /** The fields of a token as stretches of bytes. */
  lemma TokenFields(s: Str, at: nat, t: Token)
    requires at + Size(t) <= |s| && TokenOk(t)
    ensures var (i, j, k) := (at + 5, at + 9 + |t.path|, at + 13 + |t.path| + |t.name|);
            TokenAt(s, at, t)
            <==> s[at] == t.code && s[at + 1..i] == LE32(t.depth) && s[i..j] == StringWire(t.path)
                 && s[j..k] == StringWire(t.name) && s[k..at + Size(t)] == StringWire(t.value)
  {
    hide StringAt, NumberAt, LE32, StringWire;
    U32ByWeight(s, at + 1, t.depth);
    OneString(s, at + 5, t.path);
    OneString(s, at + 9 + |t.path|, t.name);
    OneString(s, at + 13 + |t.path| + |t.name|, t.value);
  }

  lemma FiveCuts(s: Str, at: nat, i: nat, j: nat, k: nat, end: nat, code: Byte, d: Str, p: Str, n: Str, v: Str)
    requires at + 5 == i && i + |p| == j && j + |n| == k && k + |v| == end <= |s| && |d| == 4
    ensures s[at..end] == [code] + d + p + n + v
            <==> s[at] == code && s[at + 1..i] == d && s[i..j] == p && s[j..k] == n && s[k..end] == v
  {
    var a := [code] + d;
    var b := a + p;
    var c := b + n;
    Cut(s, at, k, end, c, v);
    Cut(s, at, j, k, b, n);
    Cut(s, at, i, j, a, p);
    Cut(s, at, at + 1, i, [code], d);
    assert s[at..at + 1] == [s[at]];
  }

  lemma OneToken(s: Str, at: nat, t: Token)
    requires at + Size(t) <= |s| && TokenOk(t)
    ensures TokenAt(s, at, t) <==> s[at..at + Size(t)] == TokenWire(t)
  {
    hide *;
    TokenFields(s, at, t);
    TokenParts(t);
    FiveCuts(s, at, at + 5, at + 9 + |t.path|, at + 13 + |t.path| + |t.name|, at + Size(t),
             t.code, LE32(t.depth), StringWire(t.path), StringWire(t.name), StringWire(t.value));
  }

  lemma TokenParts(t: Token)
    ensures |StringWire(t.path)| == 4 + |t.path| && |StringWire(t.name)| == 4 + |t.name|
    ensures |StringWire(t.value)| == 4 + |t.value| && |TokenWire(t)| == Size(t) == 17 + |t.path| + |t.name| + |t.value|
    ensures TokenWire(t) == [t.code] + LE32(t.depth) + StringWire(t.path) + StringWire(t.name) + StringWire(t.value)
  {
  }

  lemma {:induction false} TokensWireCons(t: Token, ts: seq<Token>)
    ensures TokensWire([t] + ts) == TokenWire(t) + TokensWire(ts)
  {
    hide TokenWire;
    if ts == [] {
      assert [t] + ts == [t] && [t][..0] == [];
      EmptyIsUnit(TokenWire(t));
    } else {
      var init, last := ts[..|ts| - 1], ts[|ts| - 1];
      TokensWireCons(t, init);
      TokensWireSnoc([t] + init, last);
      assert [t] + init + [last] == [t] + ts;
      Associate(TokenWire(t), TokensWire(init), TokenWire(last));
    }
  }

  lemma NothingWritten()
    ensures TokensWire([]) == []
  {
  }

  lemma TooShort(s: Str, at: nat, t: Token)
    requires at + Size(t) > |s|
    ensures !TokenAt(s, at, t)
  {
  }

  lemma {:induction false} AllTokens(s: Str, at: nat, ts: seq<Token>)
    requires at <= |s| && TokensOk(ts)
    ensures TokensAt(s, at, ts) <==> s[at..] == TokensWire(ts)
    decreases |ts|
  {
    hide TokenAt, TokenWire, TokensWire, TokenOk;
    if ts == [] {
      NothingWritten();
    } else {
      var t, rest := ts[0], ts[1..];
      assert ts == [t] + rest;
      TokensWireCons(t, rest);
      TokenParts(t);
      if at + Size(t) <= |s| {
        OneToken(s, at, t);
        AllTokens(s, at + Size(t), rest);
        TwoParts(s, at, Size(t), TokenWire(t), TokensWire(rest));
      } else {
        TooShort(s, at, t);
      }
    }
  }

  lemma MarkAndCount(s: Str, n: U32)
    requires |s| >= 9
    ensures s[..9] == "PVTD1" + LE32(n) <==> s[..5] == "PVTD1" && NumberAt(s, 5, n)
  {
    U32ByWeight(s, 5, n);
    hide NumberAt, LE32;
    assert s[..9] == s[..5] + s[5..9];
    assert ("PVTD1" + LE32(n))[..5] == "PVTD1" && ("PVTD1" + LE32(n))[5..] == LE32(n);
  }

  /** A byte string is accepted as these tokens exactly when every part of them stands in its place. */
  lemma StreamByPosition(s: Str, ts: seq<Token>)
    requires |ts| < 0x1_0000_0000
    ensures ParseStream(s) == Some(ts) <==> TokensOk(ts) && IsStream(s, ts)
  {
    StreamBijection(s, ts);
    hide ParseStream, TokensWire, TokenOk, TokensAt, NumberAt, LE32;
    if TokensOk(ts) && |s| >= 9 {
      MarkAndCount(s, |ts|);
      AllTokens(s, 9, ts);
      TwoParts(s, 0, 9, "PVTD1" + LE32(|ts|), TokensWire(ts));
      assert s[0..] == s && s[0..9] == s[..9];
    }
  }

  // ----- what the fields mean -----

  const KINDS: seq<Str> := ["start", "attribute", "text", "end"]

  /** The code counts the kinds from 1; depth, path and value are the event's own. */
  predicate Tells(t: Token, e: Event) {
    1 <= t.code as int <= 4 && e.kind == KINDS[t.code as int - 1]
    && t.depth == e.depth && t.path == e.xpath && t.value == e.value
  }

  /** The name field holds the attribute's name, and the tag of every other event. */
  predicate Names(t: Token, e: Event) { if e.kind == "attribute" then t.name == e.name else e.name == [] && t.name == e.tag }

  lemma TokenTells(e: Event)
    requires Canonical(e)
    ensures Tells(TokenOf(e), e) && (e.name != [] || e.kind != "attribute" ==> Names(TokenOf(e), e))
  {
  }

  lemma EventTells(t: Token)
    requires KnownCode(t.code)
    ensures Tells(t, EventOf(t)) && Names(t, EventOf(t))
    ensures EventOf(t).attributes == [] && EventOf(t).subtreeText == []
  {
  }

  ghost predicate AllTell(ts: seq<Token>, events: seq<Event>) {
    |ts| == |events| && forall i :: 0 <= i < |ts| ==> Tells(ts[i], events[i])
  }

  ghost predicate AllName(ts: seq<Token>, events: seq<Event>) {
    |ts| == |events| && forall i :: 0 <= i < |ts| ==> Names(ts[i], events[i])
  }

  /**
   * The bytes of a lowered document: one token for each event, in order, with the event's kind, depth, path and value,
   * and its name where attributes have one.
   */
  lemma DocumentByPosition(root: Node)
    requires Lowers(root)
    ensures var events := DocumentEvents(root);
            var ts := TokensOf(events);
            && IsStream(VtdWire(events), ts) && AllTell(ts, events)
            && ((forall e :: e in events && e.kind == "attribute" ==> e.name != []) ==> AllName(ts, events))
  {
    var events := DocumentEvents(root);
    var ts := TokensOf(events);
    DocumentRoundTrip(root);
    DocumentIsCanonical(root);
    TotalCountsEvents(events);
    StreamByPosition(VtdWire(events), ts);
    hide DocumentEvents, IsStream, Tells, Names, TokenOf, Canonical;
    forall i | 0 <= i < |ts|
      ensures Tells(ts[i], events[i])
      ensures events[i].name != [] || events[i].kind != "attribute" ==> Names(ts[i], events[i])
    {
      assert events[i] in events;
      TokenTells(events[i]);
    }
  }

  /** Whatever is accepted stands in its place, and is read as the events that the tokens tell and name. */
  lemma AcceptedByPosition(s: Str)
    requires ParseStream(s).Some?
    ensures var ts := ParseStream(s).value;
            TokensOk(ts) && IsStream(s, ts) && AllTell(ts, EventsOf(ts)) && AllName(ts, EventsOf(ts))
  {
    var ts := ParseStream(s).value;
    CountIsSmall(s);
    StreamByPosition(s, ts);
    hide ParseStream, IsStream, Tells, Names, EventOf;
    forall i | 0 <= i < |ts| ensures Tells(ts[i], EventOf(ts[i])) && Names(ts[i], EventOf(ts[i])) {
      EventTells(ts[i]);
    }
  }

  lemma CountIsSmall(s: Str)
    requires ParseStream(s).Some?
    ensures |ParseStream(s).value| < 0x1_0000_0000
  {
    hide ParseToken, ParseU32;
    var (count, body) := ParseU32(s[5..]).value;
    TokensWriteBack(body, count);
  }

  lemma DocumentIsCanonical(root: Node)
    requires Lowers(root)
    ensures forall e :: e in DocumentEvents(root) ==> Canonical(e)
  {
    RootNamesBack(root);
    TreeShaped(root, PathOf(root, []), 0);
    hide DocumentEvents, TreeEvents;
  }
}
