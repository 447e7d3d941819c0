/** Which lines announce which chunk size (`decode_chunked` in src/core/network_client.cpp, with `strtoul`). */
module ChunkSizes {
  import opened Bytes
  import opened Chunked
  import opened Trimming

  const LOWER_DIGITS: Str := "0123456789abcdef"
  const UPPER_DIGITS: Str := "0123456789ABCDEF"

  predicate IsHex(c: Byte, v: nat) { v < 16 && (c == LOWER_DIGITS[v] || c == UPPER_DIGITS[v]) }

  /** The hexadecimal digits of a number, with any zeros in front. */
  predicate Spells(digits: Str, v: nat) {
    if digits == [] then v == 0
    else Spells(digits[..|digits| - 1], v / 16) && IsHex(digits[|digits| - 1], v % 16)
  }

  predicate AnyHex(c: Byte) { exists v :: 0 <= v < 16 && IsHex(c, v) }

  /** Blanks, a sign, a radix mark, digits, and whatever follows them up to the first semicolon. */
  datatype SizeText = SizeText(blanks: Str, sign: Str, radix: Str, digits: Str, junk: Str, extension: Str)

  function Number(t: SizeText): Str { t.sign + (t.radix + (t.digits + t.junk)) }

  function Line(t: SizeText): Str { t.blanks + Number(t) + t.extension }

  predicate TextOk(t: SizeText) {
    && Blank(t.blanks) && t.sign in {"", "+", "-"} && t.radix in {"", "0x", "0X"} && t.digits != []
    && (t.junk != [] ==> !AnyHex(t.junk[0]))
    && (t.radix == "" && t.digits == "0" && |t.junk| > 1 && t.junk[0] in "xX" ==> !AnyHex(t.junk[1]))
    && ';' !in t.blanks + Number(t) && (t.extension != [] ==> t.extension[0] == ';')
  }

  /** Too large a number is the largest size there is, and a minus sign counts down from 2^64. */
  function SizeOf(negative: bool, v: nat): Size {
    if v >= TWO_64 then TWO_64 - 1 else if negative && v > 0 then TWO_64 - v else v
  }

  predicate Announces(line: Str, n: Size, t: SizeText, v: nat) {
    TextOk(t) && Line(t) == line && Spells(t.digits, v) && n == SizeOf(t.sign == "-", v)
  }

  ghost predicate AnnouncesSize(line: Str, n: Size) { exists t: SizeText, v: nat :: Announces(line, n, t, v) }

  // ----- digits -----

  lemma DigitIs(c: Byte, v: nat)
    ensures IsHex(c, v) <==> HexDigit(c) == Some(v)
  {
  }

  lemma AnyDigit(c: Byte)
    ensures AnyHex(c) <==> HexDigit(c).Some?
  {
    if HexDigit(c).Some? {
      DigitIs(c, HexDigit(c).value);
    }
    if AnyHex(c) {
      var v :| 0 <= v < 16 && IsHex(c, v);
      DigitIs(c, v);
    }
  }

  lemma {:induction false} DigitsSpell(digits: Str, v: nat)
    ensures Spells(digits, v) <==> AllHex(digits) && HexValue(digits) == v
  {
    if digits != [] {
      var init, last := digits[..|digits| - 1], digits[|digits| - 1];
      DigitsSpell(init, v / 16);
      DigitIs(last, v % 16);
      hide IsHex;
      SnocHex(init, last);
      assert digits == init + [last];
      if HexDigit(last).Some? {
        DigitBelow(last);
      }
    }
  }

  lemma DigitBelow(c: Byte)
    requires HexDigit(c).Some?
    ensures HexDigit(c).value < 16
  {
  }

  lemma SnocHex(s: Str, c: Byte)
    ensures AllHex(s + [c]) <==> AllHex(s) && HexDigit(c).Some?
  {
    if AllHex(s + [c]) {
      assert (s + [c])[|s|] == c && forall i :: 0 <= i < |s| ==> (s + [c])[i] == s[i];
    }
  }

  lemma {:induction false} PrefixIs(digits: Str, junk: Str)
    requires AllHex(digits) && (junk != [] ==> HexDigit(junk[0]).None?)
    ensures HexPrefix(digits + junk) == |digits|
  {
    hide HexDigit;
    if digits == [] {
      EmptyIsUnit(junk);
    } else {
      assert (digits + junk)[1..] == digits[1..] + junk;
      PrefixIs(digits[1..], junk);
    }
  }

  // ----- a line in parts is read as its size -----

  /** Hexadecimal digits are neither blanks, nor signs, nor an `x`. */
  lemma HexIsPlain(c: Byte)
    requires HexDigit(c).Some?
    ensures !IsSpace(c) && c !in "+-xX;"
  {
  }

  lemma AllDigits(digits: Str, v: nat)
    requires Spells(digits, v) && digits != []
    ensures AllHex(digits) && HexValue(digits) == v
    ensures HexDigit(digits[0]).Some? && HexDigit(digits[|digits| - 1]).Some?
  {
    DigitsSpell(digits, v);
    hide HexDigit;
  }

  /** What is in front of the digits is taken off. */
  lemma FrontOff(sign: Str, radix: Str, digits: Str, junk: Str)
    requires sign in {"", "+", "-"} && radix in {"", "0x", "0X"} && digits != [] && AllHex(digits)
    requires junk != [] ==> HexDigit(junk[0]).None?
    requires radix == "" && digits == "0" && |junk| > 1 && junk[0] in "xX" ==> HexDigit(junk[1]).None?
    ensures var s := sign + (radix + (digits + junk));
            && SignLength(s) == |sign| && s[|sign|..] == radix + (digits + junk)
            && RadixLength(s[|sign|..]) == |radix| && s[|sign|..][|radix|..] == digits + junk
            && s != [] && !IsSpace(s[0]) && (s[0] == '-' <==> sign == "-")
  {
    HexIsPlain(digits[0]);
    SignOff(sign, radix + (digits + junk));
    RadixOff(radix, digits, junk);
    hide HexDigit, RadixLength, IsSpace;
    assert (digits + junk)[0] == digits[0];
    assert (radix + (digits + junk))[0] == if radix == "" then digits[0] else '0';
    assert !IsSpace('0') && !IsSpace('+') && !IsSpace('-') by { Plain(); }
    assert (sign + (radix + (digits + junk)))[0] == if sign == "" then (radix + (digits + junk))[0] else sign[0];
  }

  lemma Plain()
    ensures !IsSpace('0') && !IsSpace('+') && !IsSpace('-')
  {
  }

  lemma SignOff(sign: Str, rest: Str)
    requires sign in {"", "+", "-"} && rest != [] && rest[0] !in "+-"
    ensures SignLength(sign + rest) == |sign| && (sign + rest)[|sign|..] == rest
  {
    if sign == "" {
      EmptyIsUnit(rest);
    }
  }

  lemma RadixOff(radix: Str, digits: Str, junk: Str)
    requires radix in {"", "0x", "0X"} && digits != [] && AllHex(digits)
    requires junk != [] ==> HexDigit(junk[0]).None?
    requires radix == "" && digits == "0" && |junk| > 1 && junk[0] in "xX" ==> HexDigit(junk[1]).None?
    ensures var s := radix + (digits + junk); RadixLength(s) == |radix| && s[|radix|..] == digits + junk
  {
    var rest := digits + junk;
    var s := radix + rest;
    assert s[|radix|..] == rest;
    if radix == "" {
      assert s == rest;
      if |digits| > 1 {
        HexIsPlain(digits[1]);
      } else {
        assert digits == [digits[0]] && rest[1..] == junk;
        assert |junk| > 1 ==> rest[1] == junk[0] && rest[2] == junk[1];
      }
    } else {
      assert s[2] == digits[0];
    }
  }

  lemma FirstSemicolon(body: Str, extension: Str)
    requires ';' !in body && (extension != [] ==> extension[0] == ';')
    ensures var s := body + extension; s[..Find(s, ';', 0)] == body
  {
    var s := body + extension;
    assert forall i :: 0 <= i < |body| ==> s[i] == body[i];
    assert extension != [] ==> s[|body|] == ';';
    assert Find(s, ';', 0) == |body|;
    assert s[..|body|] == body;
  }

  lemma Digits(t: SizeText, junk: Str, v: nat)
    requires TextOk(t) && Spells(t.digits, v) && junk <= t.junk
    ensures Strtoul(t.sign + (t.radix + (t.digits + junk))) == Some(SizeOf(t.sign == "-", v))
  {
    hide *;
    PartsOk(t);
    AllDigits(t.digits, v);
    JunkOk(t, junk);
    FrontOff(t.sign, t.radix, t.digits, junk);
    PrefixIs(t.digits, junk);
    DigitsTaken(t.sign + (t.radix + (t.digits + junk)), t.sign, t.radix, t.digits, junk);
  }

  lemma PartsOk(t: SizeText)
    requires TextOk(t)
    ensures t.sign in {"", "+", "-"} && t.radix in {"", "0x", "0X"} && t.digits != []
  {
  }

  lemma DigitsTaken(s: Str, sign: Str, radix: Str, digits: Str, junk: Str)
    requires s != [] && SignLength(s) == |sign| <= |s| && RadixLength(s[|sign|..]) == |radix| <= |s| - |sign|
    requires s[|sign|..][|radix|..] == digits + junk && AllHex(digits) && HexPrefix(digits + junk) == |digits| > 0
    requires s[0] == '-' <==> sign == "-"
    ensures Strtoul(s) == Some(SizeOf(sign == "-", HexValue(digits)))
  {
    hide HexDigit, HexPrefix, HexValue, RadixLength, SignLength;
    assert (digits + junk)[..|digits|] == digits;
  }

  lemma JunkOk(t: SizeText, junk: Str)
    requires TextOk(t) && junk <= t.junk
    ensures junk != [] ==> HexDigit(junk[0]).None?
    ensures t.radix == "" && t.digits == "0" && |junk| > 1 && junk[0] in "xX" ==> HexDigit(junk[1]).None?
  {
    hide HexDigit, AnyHex, Blank;
    if junk != [] {
      AnyDigit(junk[0]);
    }
    if |junk| > 1 {
      AnyDigit(junk[1]);
    }
  }

  lemma LineIsRead(t: SizeText, v: nat)
    requires TextOk(t) && Spells(t.digits, v)
    ensures ChunkSize(Line(t)) == Some(SizeOf(t.sign == "-", v))
  {
    AllDigits(t.digits, v);
    JunkOk(t, t.junk);
    FrontOff(t.sign, t.radix, t.digits, t.junk);
    FirstSemicolon(t.blanks + Number(t), t.extension);
    TrimFront(t.blanks, Number(t));
    TrimPlain(Number(t));
    var front := t.sign + (t.radix + t.digits);
    LastIsDigit(t);
    OnlyRestTrimmed(front, t.junk);
    var junk := TrimRight(t.junk);
    Digits(t, junk, v);
    hide TextOk, Spells, HexDigit, Strtoul, TrimLeft, TrimRight, Find, Blank, SignLength, RadixLength, AllHex;
    Regroup(t.sign, t.radix, t.digits, t.junk);
    Regroup(t.sign, t.radix, t.digits, junk);
  }

  lemma LastIsDigit(t: SizeText)
    requires t.digits != [] && HexDigit(t.digits[|t.digits| - 1]).Some?
    ensures var front := t.sign + (t.radix + t.digits); front != [] && !IsSpace(front[|front| - 1])
  {
    HexIsPlain(t.digits[|t.digits| - 1]);
    hide HexDigit, IsSpace;
  }

  lemma Regroup(a: Str, b: Str, c: Str, d: Str)
    ensures a + (b + (c + d)) == a + (b + c) + d
  {
  }

  // ----- a line with a size is in parts -----

  lemma SignTaken(s: Str)
    ensures SignLength(s) <= |s|
    ensures var n := SignLength(s);
            s == s[..n] + s[n..] && s[..n] in {"", "+", "-"} && (s[..n] == "-" <==> s != [] && s[0] == '-')
  {
    assert s != [] ==> s[..1] == [s[0]];
  }

  lemma RadixTaken(s: Str)
    ensures RadixLength(s) <= |s|
    ensures var n := RadixLength(s); s == s[..n] + s[n..] && s[..n] in {"", "0x", "0X"}
  {
    hide HexDigit;
    assert |s| > 1 ==> s[..2] == [s[0], s[1]];
  }

  lemma DigitsInFront(s: Str)
    ensures var n := HexPrefix(s);
            && s == s[..n] + s[n..] && AllHex(s[..n])
            && (s[n..] != [] ==> HexDigit(s[n..][0]).None?)
  {
    hide HexDigit;
    PrefixEnds(s);
  }

  /** Behind a single zero that is no radix mark. */
  lemma NoRadix(s: Str, digits: Str, junk: Str)
    requires RadixLength(s) == 0 && s == digits + junk && digits == "0" && |junk| > 1 && junk[0] in "xX"
    ensures HexDigit(junk[1]).None?
  {
    hide HexDigit;
    assert s[0] == '0' && s[1] == junk[0] && s[2] == junk[1];
  }

  /** The parts of a number that is read. */
  lemma NumberInParts(s: Str) returns (sign: Str, radix: Str, digits: Str, junk: Str)
    requires Strtoul(s).Some?
    ensures s == sign + (radix + (digits + junk)) && sign in {"", "+", "-"} && radix in {"", "0x", "0X"}
    ensures AllHex(digits) && digits != [] && (junk != [] ==> HexDigit(junk[0]).None?)
    ensures radix == "" && digits == "0" && |junk| > 1 && junk[0] in "xX" ==> HexDigit(junk[1]).None?
  {
    hide HexDigit, HexValue, SignLength, RadixLength, AllHex;
    SignTaken(s);
    var unsigned := s[SignLength(s)..];
    RadixTaken(unsigned);
    var rest := unsigned[RadixLength(unsigned)..];
    DigitsInFront(rest);
    var n := HexPrefix(rest);
    sign, radix, digits, junk := s[..SignLength(s)], unsigned[..RadixLength(unsigned)], rest[..n], rest[n..];
    if radix == "" && digits == "0" && |junk| > 1 && junk[0] in "xX" {
      NoRadix(unsigned, digits, junk);
    }
  }

  lemma {:induction false} PrefixEnds(s: Str)
    ensures HexPrefix(s) < |s| ==> HexDigit(s[HexPrefix(s)]).None?
  {
    hide HexDigit;
    if s != [] && HexDigit(s[0]).Some? {
      PrefixEnds(s[1..]);
    }
  }

  lemma SizeInParts(line: Str) returns (t: SizeText)
    requires ChunkSize(line).Some?
    ensures TextOk(t) && Line(t) == line && AllHex(t.digits)
  {
    hide Strtoul, Find, TrimLeft, TrimRight, HexDigit, AllHex, Blank, AnyHex;
    var n := Find(line, ';', 0);
    var body := line[..n];
    var blanks := BlanksTrimmed(body);
    var whole := TrimLeft(body);
    var cut := TrimRight(whole);
    TrimmedInFront(whole);
    var sign, radix, digits, front := NumberInParts(cut);
    var behind := whole[|cut|..];
    assert whole == cut + behind;
    t := SizeText(blanks, sign, radix, digits, front + behind, line[n..]);
    SixParts(sign, radix, digits, front, behind);
    assert line == body + line[n..];
    JunkInParts(front, behind, radix == "" && digits == "0");
  }

  /** Blanks behind what is not taken do not make it digits. */
  lemma JunkInParts(front: Str, behind: Str, zero: bool)
    requires Blank(behind) && (front != [] ==> HexDigit(front[0]).None?)
    requires zero && |front| > 1 && front[0] in "xX" ==> HexDigit(front[1]).None?
    ensures var junk := front + behind;
            && (junk != [] ==> !AnyHex(junk[0]))
            && (zero && |junk| > 1 && junk[0] in "xX" ==> !AnyHex(junk[1]))
  {
    var junk := front + behind;
    if junk != [] {
      AnyDigit(junk[0]);
    }
    if |junk| > 1 {
      AnyDigit(junk[1]);
    }
    hide AnyHex;
  }

  lemma SixParts(sign: Str, radix: Str, digits: Str, front: Str, behind: Str)
    ensures sign + (radix + (digits + front)) + behind == sign + (radix + (digits + (front + behind)))
  {
  }

  /** A line announces a size exactly when it can be told apart into parts that announce it. */
  lemma AnnouncesExactly(line: Str, n: Size)
    ensures ChunkSize(line) == Some(n) <==> AnnouncesSize(line, n)
  {
    hide ChunkSize, TextOk, Line, Spells, AllHex, HexDigit;
    if ChunkSize(line) == Some(n) {
      var t := SizeInParts(line);
      DigitsSpell(t.digits, ValueOf(t.digits));
      LineIsRead(t, ValueOf(t.digits));
      assert Announces(line, n, t, ValueOf(t.digits));
    }
    if AnnouncesSize(line, n) {
      var t: SizeText, v: nat :| Announces(line, n, t, v);
      LineIsRead(t, v);
    }
  }

  function ValueOf(digits: Str): (v: nat)
    ensures AllHex(digits) ==> v == HexValue(digits)
  {
    if AllHex(digits) then HexValue(digits) else 0
  }
}
