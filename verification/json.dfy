/** The JSON printer and parser of the protocol endpoint (src/core/playwright.cpp). */
module Json {
  import opened Bytes

  // ----- numbers, as the text `%.15g` prints and `strtod` reads -----

  predicate IsNumberByte(c: Byte) { IsDigit(c) || c in "-+.eE" }

  function Digits(s: Str): (n: nat)
    ensures n <= |s| && forall i :: 0 <= i < n ==> IsDigit(s[i])
    ensures n < |s| ==> !IsDigit(s[n])
  {
    if s == [] || !IsDigit(s[0]) then 0 else 1 + Digits(s[1..])
  }

  function AfterSign(s: Str): Str {
    if s != [] && s[0] in "+-" then s[1..] else s
  }

  predicate IsExponent(s: Str) {
    s != [] && s[0] in "eE"
    && var digits := AfterSign(s[1..]); digits != [] && Digits(digits) == |digits|
  }

  /** What `strtod` reads to the end, among texts made of number bytes. */
  predicate IsNumeral(s: Str) {
    var a := AfterSign(s);
    var n := Digits(a);
    var b := a[n..];
    var m := if b != [] && b[0] == '.' then Digits(b[1..]) else 0;
    var c := if b != [] && b[0] == '.' then b[1 + m..] else b;
    n + m > 0 && (c == [] || IsExponent(c))
  }

  const NONFINITE: set<Str> := {"inf", "-inf", "nan", "-nan"}

  /** The texts a `double` is printed as. */
  type NumberText = s: Str | IsNumeral(s) || s in NONFINITE witness "inf"

  // ----- values -----

  datatype Value =
    | Null
    | Bool(boolean: bool)
    | Number(text: NumberText)
    | String(string: Str)
    | Array(items: seq<Value>)
    | Object(members: seq<Member>)

  datatype Member = Member(key: Str, value: Value)

  // ----- printing -----

  function EscapeByte(c: Byte): (r: Str)
    ensures r != []
  {
    if c == '"' then "\\\""
    else if c == '\\' then "\\\\"
    else if c as int == 8 then "\\b"
    else if c as int == 12 then "\\f"
    else if c == '\n' then "\\n"
    else if c == '\r' then "\\r"
    else if c == '\t' then "\\t"
    else if c as int < 32 then "\\u00" + [HexSymbol(c as int / 16), HexSymbol(c as int % 16)]
    else [c]
  }

  function Escape(s: Str): Str {
    if s == [] then [] else EscapeByte(s[0]) + Escape(s[1..])
  }

  function Quoted(s: Str): Str { "\"" + Escape(s) + "\"" }

  function Serialize(v: Value): Str
    decreases v
  {
    match v
    case Null => "null"
    case Bool(b) => if b then "true" else "false"
    case Number(text) => text
    case String(s) => Quoted(s)
    case Array(items) => "[" + ItemsText(items) + "]"
    case Object(members) => "{" + MembersText(members) + "}"
  }

  function ItemsText(items: seq<Value>): Str
    decreases items
  {
    if items == [] then [] else Serialize(items[0]) + (if |items| == 1 then [] else "," + ItemsText(items[1..]))
  }

  function MemberText(m: Member): Str
    decreases m
  {
    Quoted(m.key) + ":" + Serialize(m.value)
  }

  function MembersText(members: seq<Member>): Str
    decreases members
  {
    if members == [] then []
    else MemberText(members[0]) + (if |members| == 1 then [] else "," + MembersText(members[1..]))
  }

  // ----- parsing, on what is still to be read -----

  function Unescape(c: Byte): Option<Byte> {
    if c == '"' || c == '\\' || c == '/' then Some(c)
    else if c == 'b' then Some(ToByte(8))
    else if c == 'f' then Some(ToByte(12))
    else if c == 'n' then Some('\n')
    else if c == 'r' then Some('\r')
    else if c == 't' then Some('\t')
    else None
  }

  /** The rest of a string, up to its closing quote, and what follows. */
  function ParseChars(s: Str): (r: Option<(Str, Str)>)
    ensures r.Some? ==> |r.value.1| < |s|
  {
    if s == [] then None
    else if s[0] == '"' then Some(([], s[1..]))
    else if s[0] != '\\' then
      var (text, rest) :- ParseChars(s[1..]);
      Some(([s[0]] + text, rest))
    else if |s| == 1 then None
    else
      var c :- Unescape(s[1]);
      var (text, rest) :- ParseChars(s[2..]);
      Some(([c] + text, rest))
  }

  function ParseString(s: Str): (r: Option<(Str, Str)>)
    ensures r.Some? ==> |r.value.1| < |s|
  {
    if s == [] || s[0] != '"' then None else ParseChars(s[1..])
  }

  function NumberEnd(s: Str): (n: nat)
    ensures n <= |s| && forall i :: 0 <= i < n ==> IsNumberByte(s[i])
    ensures n < |s| ==> !IsNumberByte(s[n])
  {
    if s == [] || !IsNumberByte(s[0]) then 0 else 1 + NumberEnd(s[1..])
  }

  function ParseNumber(s: Str): (r: Option<(Value, Str)>)
    ensures r.Some? ==> |r.value.1| < |s|
  {
    var n := NumberEnd(s);
    if n == 0 || !IsNumeral(s[..n]) then None else Some((Number(s[..n]), s[n..]))
  }

  function Word(s: Str, word: Str, v: Value): (r: Option<(Value, Str)>)
    requires word != []
    ensures r.Some? ==> |r.value.1| < |s|
  {
    if word <= s then Some((v, s[|word|..])) else None
  }

  function ParseValue(s0: Str): (r: Option<(Value, Str)>)
    ensures r.Some? ==> |r.value.1| < |s0|
    decreases |s0|, 1
  {
    var s := TrimLeft(s0);
    if s == [] then None
    else if s[0] == '{' then ParseObject(s)
    else if s[0] == '[' then ParseArray(s)
    else if s[0] == '"' then
      var (text, rest) :- ParseString(s);
      Some((String(text), rest))
    else if s[0] == 't' then Word(s, "true", Bool(true))
    else if s[0] == 'f' then Word(s, "false", Bool(false))
    else if s[0] == 'n' then Word(s, "null", Null)
    else ParseNumber(s)
  }

  function ParseArray(s: Str): (r: Option<(Value, Str)>)
    requires s != []
    ensures r.Some? ==> |r.value.1| < |s|
    decreases |s|, 0
  {
    var inner := TrimLeft(s[1..]);
    if inner != [] && inner[0] == ']' then Some((Array([]), inner[1..]))
    else
      var (items, rest) :- ParseItems(inner);
      Some((Array(items), rest))
  }

  function ParseObject(s: Str): (r: Option<(Value, Str)>)
    requires s != []
    ensures r.Some? ==> |r.value.1| < |s|
    decreases |s|, 0
  {
    var inner := TrimLeft(s[1..]);
    if inner != [] && inner[0] == '}' then Some((Object([]), inner[1..]))
    else
      var (members, rest) :- ParseMembers(inner);
      Some((Object(members), rest))
  }

  /** What may follow an item: the closing bracket, or a comma and more. */
  datatype Next = Closed(rest: Str) | More(rest: Str) | Bad

  function AfterItem(s0: Str, close: Byte): (n: Next)
    ensures !n.Bad? ==> |n.rest| < |s0|
  {
    var s := TrimLeft(s0);
    if s == [] then Bad
    else if s[0] == close then Closed(s[1..])
    else if s[0] == ',' then More(TrimLeft(s[1..]))
    else Bad
  }

  /** The items of an array up to its closing bracket. */
  function ParseItems(s: Str): (r: Option<(seq<Value>, Str)>)
    ensures r.Some? ==> |r.value.1| < |s|
    decreases |s|, 2
  {
    var (item, s1) :- ParseValue(s);
    match AfterItem(s1, ']')
    case Bad => None
    case Closed(rest) => Some(([item], rest))
    case More(s2) =>
      var (items, rest) :- ParseItems(s2);
      Some(([item] + items, rest))
  }

  function ParseMember(s: Str): (r: Option<(Member, Str)>)
    ensures r.Some? ==> |r.value.1| < |s|
    decreases |s|, 2
  {
    var (key, s1) :- ParseString(s);
    var s2 := TrimLeft(s1);
    if s2 == [] || s2[0] != ':' then None
    else
      var (value, rest) :- ParseValue(s2[1..]);
      Some((Member(key, value), rest))
  }

  /** The members of an object up to its closing brace. */
  function ParseMembers(s: Str): (r: Option<(seq<Member>, Str)>)
    ensures r.Some? ==> |r.value.1| < |s|
    decreases |s|, 3
  {
    var (member, s1) :- ParseMember(s);
    match AfterItem(s1, '}')
    case Bad => None
    case Closed(rest) => Some(([member], rest))
    case More(s2) =>
      var (members, rest) :- ParseMembers(s2);
      Some(([member] + members, rest))
  }

  /** `Parser::parse`: one value and nothing else but blanks. */
  function Parse(s: Str): Option<Value> {
    var (v, rest) :- ParseValue(TrimLeft(s));
    if TrimLeft(rest) == [] then Some(v) else None
  }

  // ----- the code -----

  /** `escape_json`. */
  method EscapeJson(input: Str) returns (result: Str)
    ensures result == Escape(input)
  {
    result := [];
    for i := 0 to |input|
      invariant result + Escape(input[i..]) == Escape(input)
    {
      assert input[i..][1..] == input[i + 1..];
      Associate(result, EscapeByte(input[i]), Escape(input[i + 1..]));
      result := result + EscapeByte(input[i]);
    }
    EmptyIsUnit(result);
  }

  /** What the loops of `serialize_value` still have to add, before item `i`. */
  function RestOfItems(items: seq<Value>, i: nat): Str
    requires i <= |items|
  {
    if i == |items| then [] else (if i == 0 then [] else ",") + ItemsText(items[i..])
  }

  function RestOfMembers(members: seq<Member>, i: nat): Str
    requires i <= |members|
  {
    if i == |members| then [] else (if i == 0 then [] else ",") + MembersText(members[i..])
  }

  lemma NextItem(items: seq<Value>, i: nat)
    requires i < |items|
    ensures RestOfItems(items, i) == (if i == 0 then [] else ",") + Serialize(items[i]) + RestOfItems(items, i + 1)
  {
    hide Serialize;
    assert items[i..][1..] == items[i + 1..];
  }

  lemma NextMember(members: seq<Member>, i: nat)
    requires i < |members|
    ensures RestOfMembers(members, i)
            == (if i == 0 then [] else ",") + MemberText(members[i]) + RestOfMembers(members, i + 1)
  {
    hide MemberText;
    assert members[i..][1..] == members[i + 1..];
  }

  /** One turn of a loop: a comma unless it is the first, then the text of the item. */
  function Appended(result: Str, i: nat, text: Str): Str {
    (if i == 0 then result else result + ",") + text
  }

  lemma AppendItem(done: Str, i: nat, text: Str, rest: Str)
    ensures done + ((if i == 0 then [] else ",") + text + rest) == Appended(done, i, text) + rest
  {
  }

  /** `serialize_value`. */
  method SerializeValue(v: Value) returns (result: Str)
    ensures result == Serialize(v)
    decreases v
  {
    hide RestOfItems, RestOfMembers, ItemsText, MembersText, Appended, Escape, IsNumeral;
    match v {
      case Null => result := "null";
      case Bool(b) => result := if b then "true" else "false";
      case Number(text) => result := text;
      case String(s) =>
        var escaped := EscapeJson(s);
        result := "\"" + escaped + "\"";
      case Array(items) =>
        result := "[";
        AllItems(items);
        for i := 0 to |items|
          invariant result + RestOfItems(items, i) == "[" + ItemsText(items)
        {
          var text := SerializeValue(items[i]);
          NextItem(items, i);
          AppendItem(result, i, text, RestOfItems(items, i + 1));
          result := Appended(result, i, text);
        }
        EmptyIsUnit(result);
        result := result + "]";
      case Object(members) =>
        result := "{";
        AllMembers(members);
        for i := 0 to |members|
          invariant result + RestOfMembers(members, i) == "{" + MembersText(members)
        {
          var key := EscapeJson(members[i].key);
          var value := SerializeValue(members[i].value);
          NextMember(members, i);
          var text := "\"" + key + "\"" + ":" + value;
          AppendItem(result, i, text, RestOfMembers(members, i + 1));
          result := Appended(result, i, text);
        }
        EmptyIsUnit(result);
        result := result + "}";
    }
  }

  lemma AllItems(items: seq<Value>)
    ensures RestOfItems(items, 0) == ItemsText(items) && RestOfItems(items, |items|) == []
  {
    assert items[0..] == items;
  }

  lemma AllMembers(members: seq<Member>)
    ensures RestOfMembers(members, 0) == MembersText(members) && RestOfMembers(members, |members|) == []
  {
    assert members[0..] == members;
  }

  /** Puts what has been read already before what a parse of the rest gives. */
  function Onto<T>(done: seq<T>, r: Option<(seq<T>, Str)>): Option<(seq<T>, Str)> {
    if r.None? then None else Some((done + r.value.0, r.value.1))
  }

  lemma OntoStep<T>(done: seq<T>, x: T, r: Option<(seq<T>, Str)>)
    ensures Onto(done, Onto([x], r)) == Onto(done + [x], r)
  {
    if r.Some? {
      assert done + ([x] + r.value.0) == (done + [x]) + r.value.0;
    }
  }

  lemma OntoNothing<T>(r: Option<(seq<T>, Str)>)
    ensures Onto([], r) == r
  {
    if r.Some? {
      assert [] + r.value.0 == r.value.0;
    }
  }

  /** A word in front of what is still to be read is a slice of the input. */
  lemma WordInFront(input: Str, at: nat, word: Str)
    requires at <= |input|
    ensures word <= input[at..] <==> at + |word| <= |input| && input[at..at + |word|] == word
    ensures at + |word| <= |input| ==> input[at..][|word|..] == input[at + |word|..]
  {
    if at + |word| <= |input| {
      assert input[at..][..|word|] == input[at..at + |word|];
    }
  }

  class Parser {
    const input: Str
    var position: nat

    constructor (input: Str)
      ensures this.input == input && position == 0
    {
      this.input := input;
      position := 0;
    }

    ghost predicate Valid()
      reads this
    {
      position <= |input|
    }

    /** What is still to be read. */
    function Rest(): Str
      requires Valid()
      reads this
    {
      input[position..]
    }

    method Skip()
      requires Valid()
      modifies this`position
      ensures Valid() && Rest() == TrimLeft(old(Rest()))
      ensures old(position) <= position
    {
      while position < |input| && IsSpace(input[position])
        invariant old(position) <= position <= |input|
        invariant TrimLeft(Rest()) == TrimLeft(old(Rest()))
      {
        assert Rest()[1..] == input[position + 1..];
        position := position + 1;
      }
    }

    /** `string`. */
    method ReadString() returns (ok: bool, result: Str)
      requires Valid()
      modifies this`position
      ensures Valid()
      ensures ok <==> ParseString(old(Rest())).Some?
      ensures ok ==> old(position) < position && ParseString(old(Rest())) == Some((result, Rest()))
    {
      result := [];
      if position >= |input| || input[position] != '"' { return false, result; }
      position := position + 1;
      ghost var start := Rest();
      assert start == old(Rest())[1..];
      OntoNothing(ParseChars(start));
      while position < |input|
        invariant old(position) < position <= |input|
        invariant ParseChars(start) == Onto(result, ParseChars(Rest()))
        decreases |input| - position
      {
        var c := input[position];
        ghost var here := Rest();
        position := position + 1;
        assert Rest() == here[1..];
        if c == '"' {
          EmptyIsUnit(result);
          return true, result;
        }
        if c != '\\' {
          OntoStep(result, c, ParseChars(Rest()));
          result := result + [c];
          continue;
        }
        if position >= |input| { return false, result; }
        var escaped := input[position];
        position := position + 1;
        assert Rest() == here[2..];
        var plain := Unescape(escaped);
        if plain.None? { return false, result; }
        OntoStep(result, plain.value, ParseChars(Rest()));
        result := result + [plain.value];
      }
      return false, result;
    }

    /** `number`. */
    method ReadNumber() returns (ok: bool, result: Value)
      requires Valid()
      modifies this`position
      ensures Valid()
      ensures ok <==> ParseNumber(old(Rest())).Some?
      ensures ok ==> old(position) < position && ParseNumber(old(Rest())) == Some((result, Rest()))
    {
      hide IsNumeral, IsNumberByte;
      var start := position;
      while position < |input| && IsNumberByte(input[position])
        invariant start <= position <= |input|
        invariant NumberEnd(old(Rest())) == position - start + NumberEnd(Rest())
      {
        assert Rest()[1..] == input[position + 1..];
        position := position + 1;
      }
      result := Null;
      if start == position { return false, result; }
      var token := input[start..position];
      assert token == old(Rest())[..position - start];
      assert Rest() == old(Rest())[position - start..];
      if !IsNumeral(token) { return false, result; }
      return true, Number(token);
    }

    /** One of the three literal words. */
    method ReadWord(word: Str, v: Value) returns (ok: bool)
      requires Valid() && word != []
      modifies this`position
      ensures Valid()
      ensures ok <==> Word(old(Rest()), word, v).Some?
      ensures ok ==> old(position) < position && Word(old(Rest()), word, v) == Some((v, Rest()))
    {
      WordInFront(input, position, word);
      if position + |word| > |input| || input[position..position + |word|] != word {
        return false;
      }
      position := position + |word|;
      return true;
    }

    /** What follows an item: the closing bracket, a comma, or neither. */
    method EndOfItem(close: Byte) returns (ok: bool, closed: bool)
      requires Valid()
      modifies this`position
      ensures Valid()
      ensures !ok <==> AfterItem(old(Rest()), close).Bad?
      ensures ok ==> old(position) < position
      ensures ok ==> AfterItem(old(Rest()), close) == if closed then Closed(Rest()) else More(Rest())
    {
      Skip();
      if position < |input| && input[position] == close {
        assert Rest()[1..] == input[position + 1..];
        position := position + 1;
        return true, true;
      }
      if position >= |input| { return false, false; }
      var c := input[position];
      assert Rest()[1..] == input[position + 1..];
      position := position + 1;
      if c != ',' { return false, false; }
      Skip();
      return true, false;
    }

    /** `value`. */
    method ReadValue() returns (ok: bool, result: Value)
      requires Valid()
      modifies this`position
      ensures Valid()
      ensures ok <==> ParseValue(old(Rest())).Some?
      ensures ok ==> old(position) < position && ParseValue(old(Rest())) == Some((result, Rest()))
      decreases |input| - position, 1
    {
      hide ParseArray, ParseObject, ParseString, ParseNumber, TrimLeft;
      Skip();
      result := Null;
      ok := false;
      if position >= |input| { return; }
      match input[position] {
        case '{' =>
          ok, result := ReadObject();
        case '[' =>
          ok, result := ReadArray();
        case '"' =>
          var text;
          ok, text := ReadString();
          result := String(text);
        case 't' =>
          result := Bool(true);
          ok := ReadWord("true", result);
        case 'f' =>
          result := Bool(false);
          ok := ReadWord("false", result);
        case 'n' =>
          ok := ReadWord("null", result);
        case _ =>
          ok, result := ReadNumber();
      }
    }

    /** `array`. */
    method ReadArray() returns (ok: bool, result: Value)
      requires Valid() && position < |input| && input[position] == '['
      modifies this`position
      ensures Valid()
      ensures ok <==> ParseArray(old(Rest())).Some?
      ensures ok ==> old(position) < position && ParseArray(old(Rest())) == Some((result, Rest()))
      decreases |input| - position, 0
    {
      hide ParseValue, TrimLeft, AfterItem;
      result := Array([]);
      ghost var open := Rest();
      position := position + 1;
      assert Rest() == open[1..];
      Skip();
      ghost var start := Rest();
      if position < |input| && input[position] == ']' {
        assert start[1..] == input[position + 1..];
        position := position + 1;
        return true, result;
      }
      OntoNothing(ParseItems(start));
      var items: seq<Value> := [];
      while position < |input|
        invariant old(position) < position <= |input|
        invariant ParseItems(start) == Onto(items, ParseItems(Rest()))
        decreases |input| - position
      {
        var item;
        ok, item := ReadValue();
        if !ok { return; }
        var closed;
        ok, closed := EndOfItem(']');
        if !ok { return; }
        OntoStep(items, item, ParseItems(Rest()));
        items := items + [item];
        if closed { return true, Array(items); }
      }
      return false, result;
    }

    /** The body of the loop of `object`, up to the value. */
    method ReadMember() returns (ok: bool, result: Member)
      requires Valid()
      modifies this`position
      ensures Valid()
      ensures ok <==> ParseMember(old(Rest())).Some?
      ensures ok ==> old(position) < position && ParseMember(old(Rest())) == Some((result, Rest()))
      decreases |input| - position, 2
    {
      hide ParseString, ParseValue, TrimLeft;
      result := Member([], Null);
      var key;
      ok, key := ReadString();
      if !ok { return; }
      Skip();
      if position >= |input| { return false, result; }
      var c := input[position];
      assert Rest()[1..] == input[position + 1..];
      position := position + 1;
      if c != ':' { return false, result; }
      var value;
      ok, value := ReadValue();
      result := Member(key, value);
    }

    /** `object`. */
    method ReadObject() returns (ok: bool, result: Value)
      requires Valid() && position < |input| && input[position] == '{'
      modifies this`position
      ensures Valid()
      ensures ok <==> ParseObject(old(Rest())).Some?
      ensures ok ==> old(position) < position && ParseObject(old(Rest())) == Some((result, Rest()))
      decreases |input| - position, 0
    {
      hide ParseMember, TrimLeft, AfterItem;
      result := Object([]);
      ghost var open := Rest();
      position := position + 1;
      assert Rest() == open[1..];
      Skip();
      ghost var start := Rest();
      if position < |input| && input[position] == '}' {
        assert start[1..] == input[position + 1..];
        position := position + 1;
        return true, result;
      }
      OntoNothing(ParseMembers(start));
      var members: seq<Member> := [];
      while position < |input|
        invariant old(position) < position <= |input|
        invariant ParseMembers(start) == Onto(members, ParseMembers(Rest()))
        decreases |input| - position
      {
        var member;
        ok, member := ReadMember();
        if !ok { return; }
        var closed;
        ok, closed := EndOfItem('}');
        if !ok { return; }
        OntoStep(members, member, ParseMembers(Rest()));
        members := members + [member];
        if closed { return true, Object(members); }
      }
      return false, result;
    }

    /** `parse`. */
    method Run() returns (result: Option<Value>)
      requires Valid()
      modifies this`position
      ensures result == Parse(old(Rest()))
    {
      hide ParseValue, TrimLeft;
      Skip();
      var ok, v := ReadValue();
      if !ok { return None; }
      Skip();
      return if position == |input| then Some(v) else None;
    }
  }

  // ----- parsing undoes printing -----

  /** The bytes whose escape the parser knows: it has no `\\u`. */
  predicate CleanByte(c: Byte) { c as int >= 32 || c as int in {8, 9, 10, 12, 13} }

  predicate CleanStr(s: Str) { forall i :: 0 <= i < |s| ==> CleanByte(s[i]) }

  predicate Clean(v: Value)
    decreases v
  {
    match v
    case Null => true
    case Bool(_) => true
    case Number(text) => IsNumeral(text)
    case String(s) => CleanStr(s)
    case Array(items) => CleanItems(items)
    case Object(members) => CleanMembers(members)
  }

  predicate CleanItems(items: seq<Value>)
    decreases items
  {
    items == [] || (Clean(items[0]) && CleanItems(items[1..]))
  }

  predicate CleanMember(m: Member)
    decreases m
  {
    CleanStr(m.key) && Clean(m.value)
  }

  predicate CleanMembers(members: seq<Member>)
    decreases members
  {
    members == [] || (CleanMember(members[0]) && CleanMembers(members[1..]))
  }

  lemma ByteReadBack(c: Byte, rest: Str)
    ensures ParseChars(EscapeByte(c) + rest) == if CleanByte(c) then Onto([c], ParseChars(rest)) else None
  {
    var s := EscapeByte(c) + rest;
    assert s[|EscapeByte(c)|..] == rest;
    if EscapeByte(c) != [c] && CleanByte(c) {
      assert s[2..] == rest && Unescape(s[1]) == Some(c);
    }
  }

  lemma {:induction false} CharsReadBack(s: Str, t: Str)
    ensures ParseChars(Escape(s) + ("\"" + t)) == if CleanStr(s) then Some((s, t)) else None
  {
    hide EscapeByte, CleanByte;
    var quote := "\"" + t;
    if s == [] {
      EmptyIsUnit(quote);
      assert quote[1..] == t;
    } else {
      Associate(EscapeByte(s[0]), Escape(s[1..]), quote);
      ByteReadBack(s[0], Escape(s[1..]) + quote);
      CharsReadBack(s[1..], t);
      assert s == [s[0]] + s[1..];
      assert CleanStr(s) <==> CleanByte(s[0]) && CleanStr(s[1..]);
    }
  }

  lemma QuotedReadBack(s: Str, t: Str)
    ensures ParseString(Quoted(s) + t) == if CleanStr(s) then Some((s, t)) else None
  {
    hide ParseChars, Escape, CleanStr;
    CharsReadBack(s, t);
    assert (Quoted(s) + t)[1..] == Escape(s) + ("\"" + t);
  }

  /** A number is printed next to a byte that is not part of it. */
  predicate Stops(t: Str) { t == [] || !IsNumberByte(t[0]) }

  lemma {:induction false} NumberEndOf(text: Str, t: Str)
    requires (forall i :: 0 <= i < |text| ==> IsNumberByte(text[i])) && Stops(t)
    ensures NumberEnd(text + t) == |text|
  {
    hide IsNumberByte;
    if text == [] {
      EmptyIsUnit(t);
    } else {
      assert (text + t)[1..] == text[1..] + t;
      NumberEndOf(text[1..], t);
    }
  }

  predicate AllNumberBytes(s: Str) { forall i :: 0 <= i < |s| ==> IsNumberByte(s[i]) }

  lemma JoinNumberBytes(s: Str, k: nat)
    requires k <= |s| && AllNumberBytes(s[..k]) && AllNumberBytes(s[k..])
    ensures AllNumberBytes(s)
  {
    assert s == s[..k] + s[k..];
  }

  lemma SignBytes(s: Str)
    requires AllNumberBytes(AfterSign(s))
    ensures AllNumberBytes(s)
  {
    if AfterSign(s) != s {
      assert s == [s[0]] + s[1..];
    }
  }

  lemma DigitBytes(s: Str)
    ensures AllNumberBytes(s[..Digits(s)])
  {
  }

  lemma FractionBytes(b: Str)
    requires b != [] && b[0] == '.'
    ensures AllNumberBytes(b[..1 + Digits(b[1..])])
  {
    var m := Digits(b[1..]);
    assert b[..1 + m] == [b[0]] + b[1..][..m];
  }

  lemma NumeralBytes(s: Str)
    requires IsNumeral(s)
    ensures s != [] && AllNumberBytes(s)
  {
    hide AllNumberBytes, IsNumberByte, IsExponent, Digits, AfterSign;
    var a := AfterSign(s);
    var n := Digits(a);
    var b := a[n..];
    if b != [] && b[0] == '.' {
      var m := Digits(b[1..]);
      ExponentBytes(b[1 + m..]);
      FractionBytes(b);
      JoinNumberBytes(b, 1 + m);
    } else {
      ExponentBytes(b);
    }
    DigitBytes(a);
    JoinNumberBytes(a, n);
    SignBytes(s);
    NonemptySign(s);
  }

  lemma NonemptySign(s: Str)
    requires AfterSign(s) != []
    ensures s != []
  {
  }

  lemma ExponentBytes(c: Str)
    requires c == [] || IsExponent(c)
    ensures AllNumberBytes(c)
  {
    if c != [] {
      SignBytes(c[1..]);
      assert c == [c[0]] + c[1..];
    }
  }

  lemma NumberReadBack(text: NumberText, t: Str)
    requires Stops(t)
    ensures text != [] && !IsSpace(text[0]) && text[0] !in "]}{[\"tf"
    ensures text[0] == 'n' ==> text == "nan"
    ensures text[0] != 'n' ==>
              ParseNumber(text + t) == if IsNumeral(text) then Some((Number(text), t)) else None
  {
    hide IsNumeral, IsNumberByte, IsSpace, ParseNumber, Stops;
    if IsNumeral(text) {
      NumeralReadBack(text, t);
      NumberByteIsPlain(text[0]);
    } else {
      NonfiniteStart(text);
      NonfiniteIsNoNumber(text, t);
    }
  }

  lemma NumberByteIsPlain(c: Byte)
    requires IsNumberByte(c)
    ensures !IsSpace(c) && c !in "]}{[\"tfn"
  {
  }

  lemma NonfiniteStart(text: Str)
    requires text in NONFINITE
    ensures text != [] && !IsSpace(text[0]) && text[0] !in "]}{[\"tf" && (text[0] == 'n' ==> text == "nan")
  {
  }

  lemma NumeralReadBack(text: Str, t: Str)
    requires IsNumeral(text) && Stops(t)
    ensures text != [] && IsNumberByte(text[0])
    ensures ParseNumber(text + t) == Some((Number(text), t))
  {
    hide IsNumeral, NumberEnd, IsNumberByte, Stops;
    NumeralBytes(text);
    NumberEndOf(text, t);
    assert (text + t)[..|text|] == text && (text + t)[|text|..] == t;
  }

  lemma NonfiniteIsNoNumber(text: Str, t: Str)
    requires text in NONFINITE
    ensures text[0] != 'n' ==> ParseNumber(text + t) == None
  {
    var s := text + t;
    assert s[0] == text[0];
    if text[0] == '-' {
      assert s[1] == text[1];
      LoneSign(s);
    }
  }

  lemma LoneSign(s: Str)
    requires |s| >= 2 && s[0] == '-' && !IsNumberByte(s[1])
    ensures ParseNumber(s) == None
  {
    assert NumberEnd(s[1..]) == 0;
    assert s[..1] == "-";
    assert AfterSign("-") == [];
  }

  /** A text that starts with something else than a blank or a closing bracket. */
  predicate StartsPlainly(s: Str) { s != [] && !IsSpace(s[0]) && s[0] != ']' && s[0] != '}' }

  lemma StartsPlainlyWith(s: Str, t: Str)
    requires StartsPlainly(s)
    ensures StartsPlainly(s + t) && TrimLeft(s + t) == s + t
  {
  }

  lemma ValueStartsPlainly(v: Value)
    ensures StartsPlainly(Serialize(v))
  {
    if v.Number? {
      NumberReadBack(v.text, []);
    }
  }

  lemma ItemsStartPlainly(items: seq<Value>)
    requires items != []
    ensures StartsPlainly(ItemsText(items))
  {
    hide StartsPlainly, Serialize;
    ValueStartsPlainly(items[0]);
    StartsPlainlyWith(Serialize(items[0]), if |items| == 1 then [] else "," + ItemsText(items[1..]));
  }

  lemma AfterClose(close: Byte, t: Str)
    requires close == ']' || close == '}'
    ensures AfterItem([close] + t, close) == Closed(t) && Stops([close] + t)
  {
    assert ([close] + t)[1..] == t;
  }

  lemma AfterComma(close: Byte, t: Str)
    requires close == ']' || close == '}'
    requires TrimLeft(t) == t
    ensures AfterItem("," + t, close) == More(t) && Stops("," + t)
  {
    assert ("," + t)[1..] == t;
  }

  /** Parsing what was printed gives the value back exactly when its strings are clean and its numbers finite. */
  lemma {:induction false} ValueReadsBack(v: Value, t: Str)
    requires Stops(t)
    ensures ParseValue(Serialize(v) + t) == if Clean(v) then Some((v, t)) else None
    decreases v, 0
  {
    hide ParseItems, ParseMembers, ParseString, ParseNumber, ItemsText, MembersText, TrimLeft, Quoted, Escape, IsNumeral,
         Digits, NumberEnd, CleanStr;
    var s := Serialize(v) + t;
    ValueStartsPlainly(v);
    StartsPlainlyWith(Serialize(v), t);
    match v
    case Null => assert s[..4] == "null" && s[4..] == t;
    case Bool(b) => assert if b then s[..4] == "true" && s[4..] == t else s[..5] == "false" && s[5..] == t;
    case Number(text) =>
      NumberReadBack(text, t);
      if text[0] == 'n' {
        NanIsNoNumber(t);
      }
    case String(text) =>
      QuotedReadBack(text, t);
      QuotedStart(text);
    case Array(items) => ArrayReadsBack(items, t);
    case Object(members) => ObjectReadsBack(members, t);
  }

  lemma NanIsNoNumber(t: Str)
    ensures ParseValue("nan" + t) == None && !IsNumeral("nan")
  {
    var s := "nan" + t;
    assert TrimLeft(s) == s;
    assert s[1] == 'a' && !("null" <= s);
    assert Digits("nan") == 0;
  }

  lemma QuotedStart(text: Str)
    ensures Quoted(text) != [] && Quoted(text)[0] == '"'
  {
  }

  lemma ArrayReadsBack(items: seq<Value>, t: Str)
    ensures var s := "[" + ItemsText(items) + "]" + t;
            ParseArray(s) == if CleanItems(items) then Some((Array(items), t)) else None
    decreases items, 1
  {
    hide ParseItems, TrimLeft, ItemsText, StartsPlainly;
    var s := "[" + ItemsText(items) + "]" + t;
    var inner := ItemsText(items) + ("]" + t);
    assert s[1..] == inner;
    if items == [] {
      NoItems();
      EmptyIsUnit("]" + t);
      TrimsNothing("]" + t);
      assert inner[1..] == t;
    } else {
      ItemsReadBack(items, t);
      ItemsStartPlainly(items);
      StartsPlainlyWith(ItemsText(items), "]" + t);
      PlainIsNoBracket(inner);
    }
  }

  lemma NoItems()
    ensures ItemsText([]) == [] && MembersText([]) == []
  {
  }

  lemma TrimsNothing(s: Str)
    requires s == [] || !IsSpace(s[0])
    ensures TrimLeft(s) == s
  {
  }

  lemma PlainIsNoBracket(s: Str)
    requires StartsPlainly(s)
    ensures s != [] && s[0] != ']' && s[0] != '}'
  {
  }

  lemma {:induction false} ItemsReadBack(items: seq<Value>, t: Str)
    requires items != []
    ensures ParseItems(ItemsText(items) + ("]" + t)) == if CleanItems(items) then Some((items, t)) else None
    decreases items, 0
  {
    hide ParseValue, Serialize, Clean, AfterItem, TrimLeft, StartsPlainly, Stops;
    var first, close := Serialize(items[0]), "]" + t;
    AfterClose(']', t);
    if |items| == 1 {
      EmptyIsUnit(first);
      ValueReadsBack(items[0], close);
      assert items == [items[0]];
    } else {
      var more := ItemsText(items[1..]);
      ItemsStartPlainly(items[1..]);
      StartsPlainlyWith(more, close);
      AfterComma(']', more + close);
      ItemsReadBack(items[1..], t);
      ValueReadsBack(items[0], "," + (more + close));
      Regroup(first, more, close);
      assert items == [items[0]] + items[1..];
    }
  }

  lemma Regroup(first: Str, more: Str, close: Str)
    ensures first + ("," + more) + close == first + ("," + (more + close))
  {
  }

  lemma {:induction false} MemberReadsBack(m: Member, t: Str)
    requires Stops(t)
    ensures ParseMember(MemberText(m) + t) == if CleanMember(m) then Some((m, t)) else None
    decreases m
  {
    hide ParseValue, Serialize, Clean, CleanStr, ParseString, Quoted, TrimLeft, Stops;
    var value := Serialize(m.value);
    assert MemberText(m) + t == Quoted(m.key) + (":" + (value + t));
    QuotedReadBack(m.key, ":" + (value + t));
    TrimsNothing(":" + (value + t));
    assert (":" + (value + t))[1..] == value + t;
    ValueReadsBack(m.value, t);
  }

  lemma MembersStartPlainly(members: seq<Member>)
    requires members != []
    ensures StartsPlainly(MembersText(members))
  {
    hide Serialize;
    QuotedStart(members[0].key);
  }

  lemma {:induction false} MembersReadBack(members: seq<Member>, t: Str)
    requires members != []
    ensures ParseMembers(MembersText(members) + ("}" + t)) == if CleanMembers(members) then Some((members, t)) else None
    decreases members, 0
  {
    hide ParseMember, MemberText, CleanMember, AfterItem, TrimLeft, StartsPlainly, Stops;
    var first, close := MemberText(members[0]), "}" + t;
    AfterClose('}', t);
    if |members| == 1 {
      EmptyIsUnit(first);
      MemberReadsBack(members[0], close);
      assert members == [members[0]];
    } else {
      var more := MembersText(members[1..]);
      MembersStartPlainly(members[1..]);
      StartsPlainlyWith(more, close);
      AfterComma('}', more + close);
      MembersReadBack(members[1..], t);
      MemberReadsBack(members[0], "," + (more + close));
      Regroup(first, more, close);
      assert members == [members[0]] + members[1..];
    }
  }

  lemma ObjectReadsBack(members: seq<Member>, t: Str)
    ensures var s := "{" + MembersText(members) + "}" + t;
            ParseObject(s) == if CleanMembers(members) then Some((Object(members), t)) else None
    decreases members, 1
  {
    hide ParseMembers, TrimLeft, MembersText, StartsPlainly;
    var s := "{" + MembersText(members) + "}" + t;
    var inner := MembersText(members) + ("}" + t);
    assert s[1..] == inner;
    if members == [] {
      NoItems();
      EmptyIsUnit("}" + t);
      TrimsNothing("}" + t);
      assert inner[1..] == t;
    } else {
      MembersReadBack(members, t);
      MembersStartPlainly(members);
      StartsPlainlyWith(MembersText(members), "}" + t);
      PlainIsNoBracket(inner);
    }
  }

  /** The whole text, with blanks around it or without, gives back the tree: member order, duplicate keys and all. */
  lemma ParseUndoesSerialize(v: Value, before: Str, after: Str)
    requires TrimLeft(before) == [] && TrimLeft(after) == []
    ensures Parse(before + Serialize(v) + after) == if Clean(v) then Some(v) else None
  {
    hide ParseValue, Serialize, Clean, StartsPlainly, TrimLeft;
    var text := Serialize(v) + after;
    ValueStartsPlainly(v);
    StartsPlainlyWith(Serialize(v), after);
    TrimsBlanks(before, text);
    Associate(before, Serialize(v), after);
    BlankStops(after);
    ValueReadsBack(v, after);
  }

  /** A control byte without a short escape is printed as one the parser does not know. */
  lemma ControlByteIsRefused()
    ensures Serialize(String([ToByte(1)])) == "\"\\u0001\"" && Parse("\"\\u0001\"") == None
  {
    hide Parse, EscapeByte, Escape, CleanByte;
    var s: Str := [ToByte(1)];
    ControlByteText();
    assert !CleanByte(s[0]) && !Clean(String(s));
    ParseUndoesSerialize(String(s), [], []);
    EmptyIsUnit(Serialize(String(s)));
  }

  lemma ControlByteText()
    ensures Escape([ToByte(1)]) == "\\u0001" && !CleanByte(ToByte(1))
  {
    var c: Byte := ToByte(1);
    assert [c][1..] == [] && Escape([c]) == EscapeByte(c) + Escape([]);
    assert HexSymbol(0) == '0' && HexSymbol(1) == '1';
  }

  lemma {:induction false} TrimsBlanks(before: Str, text: Str)
    requires TrimLeft(before) == []
    ensures TrimLeft(before + text) == TrimLeft(text)
  {
    if before == [] {
      EmptyIsUnit(text);
    } else {
      assert (before + text)[1..] == before[1..] + text;
      TrimsBlanks(before[1..], text);
    }
  }

  lemma BlankStops(after: Str)
    requires TrimLeft(after) == []
    ensures Stops(after)
  {
  }

  /** Printing loses nothing: two clean values with the same text are the same value. */
  lemma SerializeInjective(v: Value, w: Value)
    requires Clean(v) && Clean(w) && Serialize(v) == Serialize(w)
    ensures v == w
  {
    hide Serialize, Clean, Parse;
    ParseUndoesSerialize(v, [], []);
    ParseUndoesSerialize(w, [], []);
  }
}
