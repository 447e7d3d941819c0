/** The number texts that JSON reading accepts, and the strings that JSON printing writes (src/core/playwright.cpp). */
module JsonNumerals {
  import opened Bytes
  import opened Json

  // ----- numbers -----

  predicate AllDigits(s: Str) { forall i :: 0 <= i < |s| ==> '0' <= s[i] <= '9' }

  predicate IsSign(s: Str) { s == "" || s == "+" || s == "-" }

  datatype Exponent = Exponent(mark: Byte, sign: Str, digits: Str)

  /** A sign, digits, a point and digits, an exponent; all but one digit can be missing. */
  datatype Numeral = Numeral(sign: Str, whole: Str, fraction: Option<Str>, exponent: Option<Exponent>)

  function FractionText(n: Numeral): Str { match n.fraction case None => [] case Some(f) => "." + f }

  function ExponentText(n: Numeral): Str { match n.exponent case None => [] case Some(e) => [e.mark] + e.sign + e.digits }

  function TextOf(n: Numeral): Str { n.sign + (n.whole + (FractionText(n) + ExponentText(n))) }

  predicate NumeralOk(n: Numeral) {
    && IsSign(n.sign) && AllDigits(n.whole) && (n.fraction.Some? ==> AllDigits(n.fraction.value))
    && |n.whole| + (if n.fraction.Some? then |n.fraction.value| else 0) > 0
    && match n.exponent
       case None => true
       case Some(e) => e.mark in {'e', 'E'} && IsSign(e.sign) && AllDigits(e.digits) && e.digits != []
  }

  predicate Writes(s: Str, n: Numeral) { NumeralOk(n) && TextOf(n) == s }

  ghost predicate IsNumber(s: Str) { exists n: Numeral :: Writes(s, n) }

  lemma {:induction false} DigitsInFront(a: Str, rest: Str)
    requires AllDigits(a) && (rest != [] ==> !IsDigit(rest[0]))
    ensures Digits(a + rest) == |a|
  {
    if a == [] {
      EmptyIsUnit(rest);
    } else {
      DigitsInFront(a[1..], rest);
      assert (a + rest)[1..] == a[1..] + rest;
    }
  }

  lemma SignInFront(sign: Str, rest: Str)
    requires IsSign(sign) && (rest != [] ==> rest[0] !in "+-")
    ensures AfterSign(sign + rest) == rest
  {
    if sign == [] {
      EmptyIsUnit(rest);
    } else {
      assert (sign + rest)[1..] == rest;
    }
  }

  lemma ExponentRead(n: Numeral)
    requires NumeralOk(n)
    ensures var c := ExponentText(n); c == [] || IsExponent(c)
  {
    if n.exponent.Some? {
      var e := n.exponent.value;
      var c := ExponentText(n);
      assert c[1..] == e.sign + e.digits;
      SignInFront(e.sign, e.digits);
      DigitsInFront(e.digits, []);
      EmptyIsUnit(e.digits);
    }
  }

  lemma ExponentFirst(n: Numeral)
    requires NumeralOk(n)
    ensures var c := ExponentText(n); c != [] ==> !IsDigit(c[0]) && c[0] != '.' && c[0] !in "+-"
  {
  }

  lemma NumeralRead(n: Numeral)
    requires NumeralOk(n)
    ensures IsNumeral(TextOf(n))
  {
    hide AllDigits, Digits, AfterSign, IsExponent;
    var c := ExponentText(n);
    ExponentRead(n);
    ExponentFirst(n);
    hide ExponentText;
    var b := FractionText(n) + c;
    var a := n.whole + b;
    assert b != [] ==> b[0] == if n.fraction.Some? then '.' else c[0];
    FirstOfWhole(n.whole, b);
    SignInFront(n.sign, a);
    DigitsInFront(n.whole, b);
    assert a[|n.whole|..] == b;
    if n.fraction.Some? {
      var f := n.fraction.value;
      assert b[1..] == f + c;
      DigitsInFront(f, c);
      assert b[1 + |f|..] == c;
    } else {
      EmptyIsUnit(c);
    }
  }

  lemma FirstOfWhole(whole: Str, b: Str)
    requires AllDigits(whole) && (b != [] ==> b[0] !in "+-")
    ensures whole + b != [] ==> (whole + b)[0] !in "+-"
  {
    assert whole != [] ==> (whole + b)[0] == whole[0];
  }

  lemma SignOf(s: Str) returns (sign: Str)
    ensures IsSign(sign) && s == sign + AfterSign(s)
  {
    sign := s[..|s| - |AfterSign(s)|];
    assert s != [] && s[0] in "+-" ==> s[..1] == [s[0]];
  }

  lemma ExponentOf(c: Str) returns (e: Option<Exponent>)
    requires c == [] || IsExponent(c)
    ensures match e
            case None => c == []
            case Some(x) =>
              x.mark in {'e', 'E'} && IsSign(x.sign) && AllDigits(x.digits) && x.digits != []
              && [x.mark] + x.sign + x.digits == c
  {
    if c == [] {
      e := None;
    } else {
      var sign := SignOf(c[1..]);
      var digits := AfterSign(c[1..]);
      e := Some(Exponent(c[0], sign, digits));
      Associate([c[0]], sign, digits);
      hide AfterSign, Digits;
    }
  }

  lemma WholeOf(a: Str) returns (whole: Str, b: Str)
    ensures a == whole + b && AllDigits(whole) && |whole| == Digits(a) && b == a[Digits(a)..]
  {
    var i := Digits(a);
    whole, b := a[..i], a[i..];
    TakeAndDrop(a, i);
  }

  /** What follows the whole part: a point and digits, if there is a point, and an exponent or nothing. */
  lemma FractionOf(b: Str) returns (fraction: Option<Str>, c: Str)
    ensures b == (match fraction case None => [] case Some(f) => "." + f) + c
    ensures fraction.Some? ==> AllDigits(fraction.value)
    ensures fraction.Some? <==> b != [] && b[0] == '.'
    ensures var m := if b != [] && b[0] == '.' then Digits(b[1..]) else 0;
            (if fraction.Some? then |fraction.value| else 0) == m
            && c == if b != [] && b[0] == '.' then b[1 + m..] else b
  {
    hide Digits;
    if b != [] && b[0] == '.' {
      var f, rest := WholeOf(b[1..]);
      fraction, c := Some(f), rest;
      Associate(".", f, rest);
    } else {
      fraction, c := None, b;
      EmptyIsUnit(b);
    }
  }

  lemma NumeralOf(s: Str) returns (n: Numeral)
    requires IsNumeral(s)
    ensures Writes(s, n)
  {
    hide Digits, AfterSign, IsExponent, IsSign, AllDigits;
    var sign := SignOf(s);
    var whole, b := WholeOf(AfterSign(s));
    var fraction, c := FractionOf(b);
    var e := ExponentOf(c);
    n := Numeral(sign, whole, fraction, e);
  }

  /** The number texts are exactly the numerals. */
  lemma NumeralIff(s: Str)
    ensures IsNumeral(s) <==> IsNumber(s)
  {
    hide IsNumeral, NumeralOk, TextOf;
    if IsNumeral(s) {
      var n := NumeralOf(s);
      assert Writes(s, n);
    }
    if IsNumber(s) {
      var n: Numeral :| Writes(s, n);
      NumeralRead(n);
    }
  }

  // ----- printed strings -----

  const HEX_DIGITS: Str := "0123456789abcdef"

  /** The escapes, and the bytes they stand for. */
  const ESCAPES: set<(Byte, int)> :=
    {('"', 34), ('\\', 92), ('/', 47), ('b', 8), ('f', 12), ('n', 10), ('r', 13), ('t', 9)}

  /** Section 7 of RFC 8259: a short escape, `\u` and four hexadecimal digits, or any byte that needs no escape. */
  predicate IsJsonChars(s: Str, text: Str)
    decreases |text|
  {
    if text == [] then s == []
    else
      var c := text[0] as int;
      || (s != [] && c >= 32 && s[0] == text[0] && s[0] != '"' && s[0] != '\\' && IsJsonChars(s[1..], text[1..]))
      || (|s| >= 2 && s[0] == '\\' && (s[1], c) in ESCAPES && IsJsonChars(s[2..], text[1..]))
      || (|s| >= 6 && s[..6] == "\\u00" + [HEX_DIGITS[c / 16], HEX_DIGITS[c % 16]] && IsJsonChars(s[6..], text[1..]))
  }

  lemma HexIsDigit(v: nat)
    requires v < 16
    ensures HexSymbol(v) == HEX_DIGITS[v]
  {
  }

  lemma OneByte(c: Byte)
    ensures var e := EscapeByte(c);
            || (e == [c] && c as int >= 32 && c != '"' && c != '\\')
            || (|e| == 2 && e[0] == '\\' && (e[1], c as int) in ESCAPES)
            || e == "\\u00" + [HEX_DIGITS[c as int / 16], HEX_DIGITS[c as int % 16]]
  {
    HexIsDigit(c as int / 16);
    HexIsDigit(c as int % 16);
    hide HexSymbol, HEX_DIGITS;
  }

  /** Every printed string is a JSON string for the same bytes, whichever of them are control bytes. */
  lemma {:induction false} PrintedIsJson(text: Str)
    ensures IsJsonChars(Escape(text), text)
  {
    if text != [] {
      var e, rest := EscapeByte(text[0]), Escape(text[1..]);
      OneByte(text[0]);
      hide EscapeByte, HEX_DIGITS, ESCAPES;
      PrintedIsJson(text[1..]);
      assert (e + rest)[|e|..] == rest && (e + rest)[..|e|] == e;
    }
  }
}
