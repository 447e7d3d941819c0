/** What the texts are that the JSON parser of src/core/playwright.cpp accepts, and what each of them denotes. */
module JsonGrammar {
  import opened Bytes
  import opened Json
  import opened JsonNumerals
  import opened Trimming

  // ----- the grammar -----

  /** Any byte but a quote or a backslash stands for itself. */
  predicate IsChars(s: Str, text: Str)
    decreases |text|
  {
    if text == [] then s == []
    else
      (s != [] && s[0] != '"' && s[0] != '\\' && s[0] == text[0] && IsChars(s[1..], text[1..]))
      || (|s| >= 2 && s[0] == '\\' && (s[1], text[0] as int) in ESCAPES && IsChars(s[2..], text[1..]))
  }

  predicate IsQuoted(s: Str, text: Str) { |s| >= 2 && s[0] == '"' && s[|s| - 1] == '"' && IsChars(s[1..|s| - 1], text) }

  /** A text without blanks around it. */
  ghost predicate Spells(s: Str, v: Value)
    decreases v, 0
  {
    match v
    case Null => s == "null"
    case Bool(b) => s == if b then "true" else "false"
    case Number(text) => s == text && IsNumber(s)
    case String(text) => IsQuoted(s, text)
    case Array(items) => |s| >= 2 && s[0] == '[' && s[|s| - 1] == ']' && SpellItems(s[1..|s| - 1], items)
    case Object(members) => |s| >= 2 && s[0] == '{' && s[|s| - 1] == '}' && SpellMembers(s[1..|s| - 1], members)
  }

  /** Blanks may stand in front and behind: `i` and `j` are where the text itself starts and ends. */
  ghost predicate DenotesAt(s: Str, v: Value, i: nat, j: nat)
    decreases v, 1
  {
    i <= j <= |s| && Blank(s[..i]) && Blank(s[j..]) && Spells(s[i..j], v)
  }

  ghost predicate Denotes(s: Str, v: Value)
    decreases v, 2
  {
    exists i: nat, j: nat :: DenotesAt(s, v, i, j)
  }

  /** Items with commas between them; no items are blanks. */
  ghost predicate SpellItems(s: Str, items: seq<Value>)
    decreases items
  {
    if items == [] then Blank(s)
    else if |items| == 1 then Denotes(s, items[0])
    else exists k: nat :: SplitItems(s, items, k)
  }

  /** The comma behind the first item is at `k`. */
  ghost predicate SplitItems(s: Str, items: seq<Value>, k: nat)
    requires |items| > 1
    decreases items, 0
  {
    k < |s| && s[k] == ',' && Denotes(s[..k], items[0]) && SpellItems(s[k + 1..], items[1..])
  }

  ghost predicate SpellMembers(s: Str, members: seq<Member>)
    decreases members
  {
    if members == [] then Blank(s)
    else if |members| == 1 then DenotesMember(s, members[0])
    else exists k: nat :: SplitMembers(s, members, k)
  }

  ghost predicate SplitMembers(s: Str, members: seq<Member>, k: nat)
    requires |members| > 1
    decreases members, 0
  {
    k < |s| && s[k] == ',' && DenotesMember(s[..k], members[0]) && SpellMembers(s[k + 1..], members[1..])
  }

  /** A key from `i` to `j` with blanks around it, a colon at `k`, and a value. */
  ghost predicate DenotesMember(s: Str, m: Member)
    decreases m
  {
    exists i: nat, j: nat, k: nat :: MemberAt(s, m, i, j, k)
  }

  ghost predicate MemberAt(s: Str, m: Member, i: nat, j: nat, k: nat)
    decreases m, 0
  {
    i <= j <= k < |s| && s[k] == ':' && Blank(s[..i]) && IsQuoted(s[i..j], m.key) && Blank(s[j..k])
    && Denotes(s[k + 1..], m.value)
  }

  // ----- blanks -----

  lemma TrimTwice(s: Str)
    ensures TrimLeft(TrimLeft(s)) == TrimLeft(s)
  {
    TrimPlain(TrimLeft(s));
  }

  lemma BlankJoin(a: Str, b: Str)
    ensures Blank(a + b) <==> Blank(a) && Blank(b)
  {
    assert forall i :: 0 <= i < |a| ==> (a + b)[i] == a[i];
    assert forall i :: 0 <= i < |b| ==> (a + b)[|a| + i] == b[i];
  }

  lemma AllBlank(s: Str)
    ensures Blank(s) <==> TrimLeft(s) == []
  {
    if Blank(s) {
      TrimFront(s, []);
      EmptyIsUnit(s);
    }
    var a := BlanksTrimmed(s);
    EmptyIsUnit(a);
  }

  lemma BlankBeforeStop(b: Str, rest: Str)
    requires Blank(b) && Stops(rest)
    ensures Stops(b + rest)
  {
    if b == [] { EmptyIsUnit(rest); }
  }

  /** What denotes a value still does with blanks around it. */
  lemma Pad(a: Str, s: Str, b: Str, v: Value)
    requires Blank(a) && Denotes(s, v) && Blank(b)
    ensures Denotes(a + s + b, v)
  {
    hide Spells, Blank;
    var i: nat, j: nat :| DenotesAt(s, v, i, j);
    var t := a + s + b;
    PadSlices(a, s, b, i, j);
    BlankJoin(a, s[..i]);
    BlankJoin(s[j..], b);
    assert DenotesAt(t, v, |a| + i, |a| + j);
  }

  lemma PadSlices(a: Str, s: Str, b: Str, i: nat, j: nat)
    requires i <= j <= |s|
    ensures var t := a + s + b;
            && |a| + j <= |t| && t[..|a| + i] == a + s[..i] && t[|a| + j..] == s[j..] + b
            && t[|a| + i..|a| + j] == s[i..j]
  {
  }

  lemma Exactly(s: Str, v: Value)
    requires Spells(s, v)
    ensures Denotes(s, v)
  {
    hide Spells;
    assert s[0..|s|] == s;
    assert DenotesAt(s, v, 0, |s|);
  }

  // ----- what the grammar allows is read -----

  lemma EscapeReads(c: Byte, b: Byte)
    ensures (c, b as int) in ESCAPES <==> Unescape(c) == Some(b)
  {
  }

  lemma {:induction false} CharsRead(s: Str, text: Str, rest: Str)
    requires IsChars(s, text)
    ensures ParseChars(s + ("\"" + rest)) == Some((text, rest))
    decreases |text|
  {
    var quote, all := "\"" + rest, s + ("\"" + rest);
    if text == [] {
      EmptyIsUnit(quote);
      assert quote[1..] == rest;
    } else if s != [] && s[0] != '\\' {
      assert all[0] == s[0] && all[1..] == s[1..] + quote && text == [text[0]] + text[1..];
      CharsRead(s[1..], text[1..], rest);
    } else {
      assert all[0] == s[0] && all[1] == s[1] && all[2..] == s[2..] + quote && text == [text[0]] + text[1..];
      EscapeReads(s[1], text[0]);
      CharsRead(s[2..], text[1..], rest);
    }
  }

  lemma QuotedReads(s: Str, text: Str, rest: Str)
    requires IsQuoted(s, text)
    ensures ParseString(s + rest) == Some((text, rest)) && s[0] == '"'
  {
    hide IsChars, ParseChars;
    var chars, all := s[1..|s| - 1], s + rest;
    assert all[0] == '"' && all[1..] == chars + ("\"" + rest);
    CharsRead(chars, text, rest);
  }

  lemma ValueOfTrimmed(s: Str)
    ensures ParseValue(TrimLeft(s)) == ParseValue(s) && ParseItems(TrimLeft(s)) == ParseItems(s)
  {
    hide ParseObject, ParseArray, ParseString, ParseNumber;
    TrimTwice(s);
  }

  lemma {:induction false} SpellsReads(s: Str, v: Value, rest: Str)
    requires Spells(s, v) && Stops(rest)
    ensures ParseValue(s + rest) == Some((v, rest)) && StartsPlainly(s)
    decreases v, 0
  {
    hide ParseArray, ParseObject, ParseString, ParseNumber, TrimLeft, IsNumeral, IsNumber, SpellItems, SpellMembers,
         IsQuoted, Stops;
    var all := s + rest;
    match v
    case Null => WordReads(s, rest);
    case Bool(b) => WordReads(s, rest);
    case Number(text) =>
      NumeralIff(text);
      NumeralReadBack(text, rest);
      NumberByteIsPlain(s[0]);
      TrimPlain(all);
    case String(text) =>
      QuotedReads(s, text, rest);
      TrimPlain(all);
    case Array(items) =>
      ArrayReads(s, items, rest);
      TrimPlain(all);
    case Object(members) =>
      ObjectReads(s, members, rest);
      TrimPlain(all);
  }

  lemma WordReads(s: Str, rest: Str)
    requires s in {"null", "true", "false"}
    ensures ParseValue(s + rest)
            == Some((if s == "null" then Null else Bool(s == "true"), rest)) && StartsPlainly(s)
  {
    hide ParseArray, ParseObject, ParseString, ParseNumber;
    var all := s + rest;
    assert all[0] == s[0];
    TrimPlain(all);
    assert all[..|s|] == s && all[|s|..] == rest;
  }

  /** A denoting text is read up to the blanks that stand behind the value. */
  lemma {:induction false} DenotesReads(s: Str, v: Value, rest: Str) returns (tail: Str)
    requires Denotes(s, v) && Stops(rest)
    ensures ParseValue(s + rest) == Some((v, tail + rest)) && Blank(tail)
    ensures StartsPlainly(TrimLeft(s + rest))
    decreases v, 1
  {
    hide Spells, ParseValue, Blank, Stops, StartsPlainly, TrimLeft;
    var i: nat, j: nat :| DenotesAt(s, v, i, j);
    tail := s[j..];
    var core, behind := s[i..j], tail + rest;
    assert s + rest == s[..i] + (core + behind);
    BlankBeforeStop(tail, rest);
    SpellsReads(core, v, behind);
    TrimFront(s[..i], core + behind);
    ValueOfTrimmed(s + rest);
    ValueOfTrimmed(core + behind);
    PlainJoin(core, behind);
  }

  lemma PlainJoin(s: Str, rest: Str)
    requires StartsPlainly(s)
    ensures StartsPlainly(s + rest) && TrimLeft(s + rest) == s + rest
  {
    TrimPlain(s + rest);
  }

  lemma MarkStops(s: Str)
    requires s != [] && s[0] in "],}"
    ensures Stops(s)
  {
  }

  lemma CloseFollows(tail: Str, close: Byte, rest: Str)
    requires Blank(tail) && close in "]}"
    ensures AfterItem(tail + ([close] + rest), close) == Closed(rest)
  {
    hide TrimLeft;
    TrimFront(tail, [close] + rest);
    TrimPlain([close] + rest);
    assert ([close] + rest)[1..] == rest;
  }

  lemma CommaFollows(tail: Str, close: Byte, rest: Str)
    requires Blank(tail) && close in "]}"
    ensures AfterItem(tail + ("," + rest), close) == More(TrimLeft(rest))
  {
    hide TrimLeft;
    TrimFront(tail, "," + rest);
    TrimPlain("," + rest);
    assert ("," + rest)[1..] == rest;
  }

  lemma CutAtComma(s: Str, k: nat, rest: Str)
    requires k < |s| && s[k] == ','
    ensures s + rest == s[..k] + ("," + (s[k + 1..] + rest))
  {
    assert s == s[..k] + [s[k]] + s[k + 1..];
  }

  lemma {:induction false} ItemsRead(s: Str, items: seq<Value>, rest: Str)
    requires items != [] && SpellItems(s, items)
    ensures ParseItems(s + ("]" + rest)) == Some((items, rest)) && StartsPlainly(TrimLeft(s + ("]" + rest)))
    decreases items, 0
  {
    hide Denotes, ParseValue, AfterItem, TrimLeft, StartsPlainly, Stops, Blank;
    var close := "]" + rest;
    if |items| == 1 {
      MarkStops("]" + rest);
      var tail := DenotesReads(s, items[0], close);
      CloseFollows(tail, ']', rest);
      assert items == [items[0]];
    } else {
      var k: nat :| SplitItems(s, items, k);
      var more := s[k + 1..] + close;
      MarkStops("," + more);
      var tail := DenotesReads(s[..k], items[0], "," + more);
      CommaFollows(tail, ']', more);
      CutAtComma(s, k, close);
      ItemsRead(s[k + 1..], items[1..], rest);
      ValueOfTrimmed(more);
      assert items == [items[0]] + items[1..];
    }
  }

  lemma BlankInside(s: Str, close: Byte, rest: Str)
    requires Blank(s) && close in "]}"
    ensures TrimLeft(s + ([close] + rest)) == [close] + rest && ([close] + rest)[1..] == rest
  {
    TrimFront(s, [close] + rest);
    TrimPlain([close] + rest);
  }

  lemma InsideBrackets(s: Str, rest: Str)
    requires |s| >= 2
    ensures (s + rest)[1..] == s[1..|s| - 1] + ([s[|s| - 1]] + rest)
  {
  }

  lemma ArrayReads(s: Str, items: seq<Value>, rest: Str)
    requires |s| >= 2 && s[0] == '[' && s[|s| - 1] == ']' && SpellItems(s[1..|s| - 1], items)
    ensures ParseArray(s + rest) == Some((Array(items), rest))
    decreases items, 1
  {
    hide ParseItems, TrimLeft, SpellItems, StartsPlainly;
    var inside := s[1..|s| - 1];
    InsideBrackets(s, rest);
    if items == [] {
      NoItemsBlank(inside);
      BlankInside(inside, ']', rest);
    } else {
      ItemsRead(inside, items, rest);
      ValueOfTrimmed(inside + ("]" + rest));
      PlainIsNoBracket(TrimLeft(inside + ("]" + rest)));
    }
  }

  lemma NoItemsBlank(s: Str)
    ensures (SpellItems(s, []) <==> Blank(s)) && (SpellMembers(s, []) <==> Blank(s))
  {
  }

  /** The parts of a member: what is in front of the key, the key, the gap, the colon, the value and the rest. */
  lemma MemberParts(s: Str, i: nat, j: nat, k: nat, rest: Str)
    requires i <= j <= k < |s| && s[k] == ':'
    ensures s + rest == s[..i] + (s[i..j] + (s[j..k] + (":" + (s[k + 1..] + rest))))
  {
    assert s == s[..i] + s[i..j] + s[j..k] + ":" + s[k + 1..];
  }

  /** A quoted key, a gap and a colon in front of a value. */
  lemma KeyReads(key: Str, text: Str, gap: Str, value: Str)
    requires IsQuoted(key, text) && Blank(gap)
    ensures TrimLeft(key + (gap + (":" + value))) == key + (gap + (":" + value))
    ensures ParseMember(key + (gap + (":" + value)))
            == match ParseValue(value) case None => None case Some((v, rest)) => Some((Member(text, v), rest))
    ensures StartsPlainly(key + (gap + (":" + value)))
  {
    hide IsQuoted, ParseString, ParseValue, TrimLeft, Blank;
    QuotedReads(key, text, gap + (":" + value));
    TrimPlain(key + (gap + (":" + value)));
    TrimFront(gap, ":" + value);
    TrimPlain(":" + value);
    assert (":" + value)[1..] == value;
  }

  lemma {:induction false} MemberReads(s: Str, m: Member, rest: Str) returns (tail: Str)
    requires DenotesMember(s, m) && Stops(rest)
    ensures ParseMember(TrimLeft(s + rest)) == Some((m, tail + rest)) && Blank(tail)
    ensures StartsPlainly(TrimLeft(s + rest))
    decreases m
  {
    hide Denotes, IsQuoted, ParseMember, ParseValue, TrimLeft, Blank, Stops, StartsPlainly;
    var i: nat, j: nat, k: nat :| MemberAt(s, m, i, j, k);
    var key, gap, value := s[i..j], s[j..k], s[k + 1..];
    MemberParts(s, i, j, k, rest);
    TrimFront(s[..i], key + (gap + (":" + (value + rest))));
    KeyReads(key, m.key, gap, value + rest);
    tail := DenotesReads(value, m.value, rest);
  }

  lemma {:induction false} MembersRead(s: Str, members: seq<Member>, rest: Str)
    requires members != [] && SpellMembers(s, members)
    ensures ParseMembers(TrimLeft(s + ("}" + rest))) == Some((members, rest))
    ensures StartsPlainly(TrimLeft(s + ("}" + rest)))
    decreases members, 0
  {
    hide DenotesMember, ParseMember, AfterItem, TrimLeft, StartsPlainly, Stops, Blank;
    var close := "}" + rest;
    if |members| == 1 {
      MarkStops("}" + rest);
      var tail := MemberReads(s, members[0], close);
      CloseFollows(tail, '}', rest);
      assert members == [members[0]];
    } else {
      var k: nat :| SplitMembers(s, members, k);
      var more := s[k + 1..] + close;
      MarkStops("," + more);
      var tail := MemberReads(s[..k], members[0], "," + more);
      CommaFollows(tail, '}', more);
      CutAtComma(s, k, close);
      MembersRead(s[k + 1..], members[1..], rest);
      assert members == [members[0]] + members[1..];
    }
  }

  lemma ObjectReads(s: Str, members: seq<Member>, rest: Str)
    requires |s| >= 2 && s[0] == '{' && s[|s| - 1] == '}' && SpellMembers(s[1..|s| - 1], members)
    ensures ParseObject(s + rest) == Some((Object(members), rest))
    decreases members, 1
  {
    hide ParseMembers, TrimLeft, SpellMembers, StartsPlainly;
    var inside := s[1..|s| - 1];
    InsideBrackets(s, rest);
    if members == [] {
      NoItemsBlank(inside);
      BlankInside(inside, '}', rest);
    } else {
      MembersRead(inside, members, rest);
      PlainIsNoBracket(TrimLeft(inside + ("}" + rest)));
    }
  }

  // ----- what is read is what the grammar allows -----

  lemma {:induction false} CharsShape(s: Str) returns (front: Str)
    requires ParseChars(s).Some?
    ensures s == front + ("\"" + ParseChars(s).value.1) && IsChars(front, ParseChars(s).value.0)
  {
    hide Unescape;
    var (text, rest) := ParseChars(s).value;
    if s[0] == '"' {
      front := [];
      assert s == "\"" + s[1..];
      EmptyIsUnit(s);
    } else if s[0] != '\\' {
      var more := CharsShape(s[1..]);
      front := [s[0]] + more;
      assert front[1..] == more && text[1..] == ParseChars(s[1..]).value.0;
      InFront(s, 1, more, "\"" + rest);
    } else {
      var more := CharsShape(s[2..]);
      EscapeReads(s[1], Unescape(s[1]).value);
      front := s[..2] + more;
      assert front[2..] == more && text[1..] == ParseChars(s[2..]).value.0;
      InFront(s, 2, more, "\"" + rest);
    }
  }

  lemma InFront(s: Str, n: nat, more: Str, rest: Str)
    requires n <= |s| && s[n..] == more + rest
    ensures s == s[..n] + more + rest && (n == 1 ==> s[..n] == [s[0]])
  {
  }

  lemma QuotedShape(s: Str) returns (front: Str)
    requires ParseString(s).Some?
    ensures s == front + ParseString(s).value.1 && IsQuoted(front, ParseString(s).value.0)
  {
    hide IsChars, ParseChars;
    var chars := CharsShape(s[1..]);
    front := "\"" + chars + "\"";
    assert front[1..|front| - 1] == chars;
    assert s == [s[0]] + s[1..];
  }

  lemma WordShape(s: Str, word: Str, v: Value)
    requires word != [] && Word(s, word, v).Some?
    ensures s == word + Word(s, word, v).value.1
  {
  }

  lemma NumberShape(s: Str) returns (front: Str)
    requires ParseNumber(s).Some?
    ensures s == front + ParseNumber(s).value.1 && Spells(front, ParseNumber(s).value.0)
  {
    hide IsNumeral, IsNumber, IsNumberByte;
    front := s[..NumberEnd(s)];
    NumeralIff(front);
  }

  /** What is read in front of a stream denotes its value. */
  lemma {:induction false} ValueShape(s: Str) returns (front: Str)
    requires ParseValue(s).Some?
    ensures s == front + ParseValue(s).value.1 && Denotes(front, ParseValue(s).value.0)
    decreases |s|, 2
  {
    hide ParseArray, ParseObject, ParseString, ParseNumber, Spells, Word, TrimLeft, Blank;
    var t := TrimLeft(s);
    var (v, rest) := ParseValue(s).value;
    var a := BlanksTrimmed(s);
    TrimTwice(s);
    ValueOfTrimmed(s);
    var core := CoreShape(t, v, rest);
    Exactly(core, v);
    NothingIsBlank();
    Pad(a, core, [], v);
    EmptyIsUnit(a + core);
    front := a + core;
    Associate(a, core, rest);
  }

  lemma NothingIsBlank()
    ensures Blank([])
  {
  }

  lemma {:induction false} CoreShape(t: Str, v: Value, rest: Str) returns (core: Str)
    requires TrimLeft(t) == t && ParseValue(t) == Some((v, rest))
    ensures t == core + rest && Spells(core, v)
    decreases |t|, 1
  {
    hide ParseArray, ParseObject, ParseString, ParseNumber, IsNumeral, TrimLeft, SpellItems, SpellMembers, IsQuoted, Word;
    if t[0] == '{' {
      core := ObjectShape(t);
    } else if t[0] == '[' {
      core := ArrayShape(t);
    } else if t[0] == '"' {
      core := QuotedShape(t);
    } else if t[0] == 't' {
      core := "true";
      WordShape(t, "true", Bool(true));
      WordValue(t, "true", Bool(true));
    } else if t[0] == 'f' {
      core := "false";
      WordShape(t, "false", Bool(false));
      WordValue(t, "false", Bool(false));
    } else if t[0] == 'n' {
      core := "null";
      WordShape(t, "null", Null);
      WordValue(t, "null", Null);
    } else {
      core := NumberShape(t);
    }
  }

  lemma WordValue(s: Str, word: Str, v: Value)
    requires word != []
    ensures Word(s, word, v).Some? ==> Word(s, word, v).value.0 == v
  {
  }

  /** Behind an item there are blanks and the closing bracket, or a comma. */
  lemma AfterShape(s: Str, close: Byte) returns (gap: Str)
    requires !AfterItem(s, close).Bad?
    ensures Blank(gap)
    ensures AfterItem(s, close).Closed? ==> s == gap + ([close] + AfterItem(s, close).rest)
    ensures AfterItem(s, close).More? ==>
              exists b: Str :: Blank(b) && s == gap + ("," + (b + AfterItem(s, close).rest))
  {
    hide TrimLeft, Blank;
    gap := BlanksTrimmed(s);
    var t := TrimLeft(s);
    assert t == [t[0]] + t[1..];
    if AfterItem(s, close).More? {
      var b := BlanksTrimmed(t[1..]);
    }
  }

  lemma PadRight(s: Str, b: Str, v: Value)
    requires Denotes(s, v) && Blank(b)
    ensures Denotes(s + b, v)
  {
    NothingIsBlank();
    hide Denotes, Blank;
    Pad([], s, b, v);
    EmptyIsUnit(s);
  }

  lemma PadItems(a: Str, s: Str, items: seq<Value>)
    requires Blank(a) && items != [] && SpellItems(s, items)
    ensures SpellItems(a + s, items)
  {
    hide Denotes, Blank;
    NothingIsBlank();
    EmptyIsUnit(a + s);
    if |items| == 1 {
      Pad(a, s, [], items[0]);
    } else {
      var k: nat :| SplitItems(s, items, k);
      var t := a + s;
      Pad(a, s[..k], [], items[0]);
      EmptyIsUnit(a + s[..k]);
      assert t[..|a| + k] == a + s[..k] && t[|a| + k + 1..] == s[k + 1..];
      assert SplitItems(t, items, |a| + k);
    }
  }

  lemma JoinItems(f: Str, item: Value, g: Str, items: seq<Value>)
    requires Denotes(f, item) && items != [] && SpellItems(g, items)
    ensures SpellItems(f + ("," + g), [item] + items)
  {
    hide Denotes;
    var s, all, k := f + ("," + g), [item] + items, |f|;
    assert s[..k] == f && s[k + 1..] == g && all[1..] == items && all[0] == item;
    hide SpellItems;
    assert SplitItems(s, all, k);
    SplitSpells(s, all, k);
  }

  lemma SplitSpells(s: Str, items: seq<Value>, k: nat)
    requires |items| > 1 && SplitItems(s, items, k)
    ensures SpellItems(s, items)
  {
  }

  lemma {:induction false} ItemsShape(s: Str) returns (front: Str)
    requires ParseItems(s).Some?
    ensures ParseItems(s).value.0 != [] && SpellItems(front, ParseItems(s).value.0)
    ensures s == front + ("]" + ParseItems(s).value.1)
    decreases |s|, 3
  {
    hide ParseValue, AfterItem, Denotes, Blank;
    var (items, rest) := ParseItems(s).value;
    var (item, s1) := ParseValue(s).value;
    var f := ValueShape(s);
    var gap := AfterShape(s1, ']');
    PadRight(f, gap, item);
    if AfterItem(s1, ']').Closed? {
      front := f + gap;
      Associate(f, gap, "]" + rest);
    } else {
      var s2 := AfterItem(s1, ']').rest;
      var b: Str :| Blank(b) && s1 == gap + ("," + (b + s2));
      var g := ItemsShape(s2);
      PadItems(b, g, ParseItems(s2).value.0);
      JoinItems(f + gap, item, b + g, ParseItems(s2).value.0);
      front := (f + gap) + ("," + (b + g));
      JoinTexts(f, gap, b, g, "]" + rest);
    }
  }

  lemma JoinTexts(f: Str, gap: Str, b: Str, g: Str, close: Str)
    ensures f + (gap + ("," + (b + (g + close)))) == ((f + gap) + ("," + (b + g))) + close
  {
  }

  lemma ArrayShape(t: Str) returns (core: Str)
    requires t != [] && t[0] == '[' && ParseArray(t).Some?
    ensures t == core + ParseArray(t).value.1 && Spells(core, ParseArray(t).value.0)
    decreases |t|, 0
  {
    hide ParseItems, SpellItems, TrimLeft, Blank;
    var rest := ParseArray(t).value.1;
    var inner := TrimLeft(t[1..]);
    var a := BlanksTrimmed(t[1..]);
    var inside := a;
    if inner != [] && inner[0] == ']' {
      NoItemsBlank(a);
      assert inner == "]" + rest;
    } else {
      var g := ItemsShape(inner);
      PadItems(a, g, ParseItems(inner).value.0);
      inside := a + g;
      Associate(a, g, "]" + rest);
    }
    core := Wrapped('[', inside, ']', t, rest);
  }

  lemma Wrapped(open: Byte, inside: Str, close: Byte, t: Str, rest: Str) returns (core: Str)
    requires t != [] && t[0] == open && t[1..] == inside + ([close] + rest)
    ensures t == core + rest && |core| >= 2 && core[0] == open && core[|core| - 1] == close
    ensures core[1..|core| - 1] == inside
  {
    core := [open] + inside + [close];
    assert t == [t[0]] + t[1..];
  }

  lemma PadMember(a: Str, s: Str, b: Str, m: Member)
    requires Blank(a) && DenotesMember(s, m) && Blank(b)
    ensures DenotesMember(a + s + b, m)
  {
    hide IsQuoted, Denotes, Blank;
    var i: nat, j: nat, k: nat :| MemberAt(s, m, i, j, k);
    var t, d := a + s + b, |a|;
    assert t[..d + i] == a + s[..i] && t[d + i..d + j] == s[i..j] && t[d + j..d + k] == s[j..k];
    assert t[d + k] == ':' && t[d + k + 1..] == s[k + 1..] + b;
    BlankJoin(a, s[..i]);
    PadRight(s[k + 1..], b, m.value);
    assert MemberAt(t, m, d + i, d + j, d + k);
  }

  lemma PadMembers(a: Str, s: Str, members: seq<Member>)
    requires Blank(a) && members != [] && SpellMembers(s, members)
    ensures SpellMembers(a + s, members)
  {
    hide DenotesMember, Blank;
    NothingIsBlank();
    EmptyIsUnit(a + s);
    if |members| == 1 {
      PadMember(a, s, [], members[0]);
    } else {
      var k: nat :| SplitMembers(s, members, k);
      var t := a + s;
      PadMember(a, s[..k], [], members[0]);
      EmptyIsUnit(a + s[..k]);
      assert t[..|a| + k] == a + s[..k] && t[|a| + k + 1..] == s[k + 1..];
      assert SplitMembers(t, members, |a| + k);
    }
  }

  lemma JoinMembers(f: Str, member: Member, g: Str, members: seq<Member>)
    requires DenotesMember(f, member) && members != [] && SpellMembers(g, members)
    ensures SpellMembers(f + ("," + g), [member] + members)
  {
    hide DenotesMember;
    var s, all, k := f + ("," + g), [member] + members, |f|;
    assert s[..k] == f && s[k + 1..] == g && all[1..] == members && all[0] == member;
    hide SpellMembers;
    assert SplitMembers(s, all, k);
    SplitSpellsMembers(s, all, k);
  }

  lemma SplitSpellsMembers(s: Str, members: seq<Member>, k: nat)
    requires |members| > 1 && SplitMembers(s, members, k)
    ensures SpellMembers(s, members)
  {
  }

  lemma {:induction false} MemberShape(s: Str) returns (front: Str)
    requires ParseMember(s).Some?
    ensures s == front + ParseMember(s).value.1 && DenotesMember(front, ParseMember(s).value.0)
    decreases |s|, 3
  {
    hide ParseString, ParseValue, TrimLeft, Denotes, IsQuoted, Blank;
    var (m, rest) := ParseMember(s).value;
    var s1 := ParseString(s).value.1;
    var key := QuotedShape(s);
    var gap := BlanksTrimmed(s1);
    var s2 := TrimLeft(s1);
    var value := ValueShape(s2[1..]);
    assert s2 == ":" + s2[1..];
    front := MemberText(key, gap, value, rest, m);
  }

  lemma MemberText(key: Str, gap: Str, value: Str, rest: Str, m: Member) returns (front: Str)
    requires IsQuoted(key, m.key) && Blank(gap) && Denotes(value, m.value)
    ensures key + (gap + (":" + (value + rest))) == front + rest && DenotesMember(front, m)
  {
    NothingIsBlank();
    hide IsQuoted, Blank, Denotes;
    front := key + gap + ":" + value;
    var j, k := |key|, |key| + |gap|;
    assert front[..0] == [] && front[0..j] == key && front[j..k] == gap && front[k + 1..] == value;
    assert MemberAt(front, m, 0, j, k);
  }

  lemma {:induction false} MembersShape(s: Str) returns (front: Str)
    requires ParseMembers(s).Some?
    ensures ParseMembers(s).value.0 != [] && SpellMembers(front, ParseMembers(s).value.0)
    ensures s == front + ("}" + ParseMembers(s).value.1)
    decreases |s|, 4
  {
    hide ParseMember, AfterItem, DenotesMember, Blank;
    NothingIsBlank();
    var (members, rest) := ParseMembers(s).value;
    var (member, s1) := ParseMember(s).value;
    var f := MemberShape(s);
    var gap := AfterShape(s1, '}');
    PadMember([], f, gap, member);
    EmptyIsUnit(f);
    if AfterItem(s1, '}').Closed? {
      front := f + gap;
      Associate(f, gap, "}" + rest);
    } else {
      var s2 := AfterItem(s1, '}').rest;
      var b: Str :| Blank(b) && s1 == gap + ("," + (b + s2));
      var g := MembersShape(s2);
      PadMembers(b, g, ParseMembers(s2).value.0);
      JoinMembers(f + gap, member, b + g, ParseMembers(s2).value.0);
      front := (f + gap) + ("," + (b + g));
      JoinTexts(f, gap, b, g, "}" + rest);
    }
  }

  lemma ObjectShape(t: Str) returns (core: Str)
    requires t != [] && t[0] == '{' && ParseObject(t).Some?
    ensures t == core + ParseObject(t).value.1 && Spells(core, ParseObject(t).value.0)
    decreases |t|, 0
  {
    hide ParseMembers, SpellMembers, TrimLeft, Blank;
    var rest := ParseObject(t).value.1;
    var inner := TrimLeft(t[1..]);
    var a := BlanksTrimmed(t[1..]);
    var inside := a;
    if inner != [] && inner[0] == '}' {
      NoItemsBlank(a);
      assert inner == "}" + rest;
    } else {
      var g := MembersShape(inner);
      PadMembers(a, g, ParseMembers(inner).value.0);
      inside := a + g;
      Associate(a, g, "}" + rest);
    }
    core := Wrapped('{', inside, '}', t, rest);
  }

  /** A text is parsed to a value exactly if it denotes that value. */
  lemma ParsesExactly(s: Str, v: Value)
    ensures Parse(s) == Some(v) <==> Denotes(s, v)
  {
    hide ParseValue, TrimLeft, Blank, Denotes, Stops;
    ValueOfTrimmed(s);
    if Denotes(s, v) {
      NothingStops();
      var tail := DenotesReads(s, v, []);
      EmptyIsUnit(s);
      EmptyIsUnit(tail);
      AllBlank(tail);
    }
    if Parse(s) == Some(v) {
      var rest := ParseValue(s).value.1;
      var front := ValueShape(s);
      AllBlank(rest);
      PadRight(front, rest, v);
    }
  }

  lemma NothingStops()
    ensures Stops([])
  {
  }
}
