/** Base64 as a change of base: the bytes and the symbols are the digits of one number. */
module Base64Numbers {
  import opened Base64
  import opened Bytes

  /** The number whose base-256 digits are `front`'s and then the bytes. */
  function FromBytes(front: nat, s: Str): nat
    decreases |s|
  {
    if s == [] then front else FromBytes(front * 256 + s[0] as int, s[1..])
  }

  function FromSymbols(front: nat, t: Str): nat
    decreases |t|
  {
    if t == [] then front else FromSymbols(front * 64 + SymbolValue(t[0]), t[1..])
  }

  predicate IsSymbol(c: Byte) { 'A' <= c <= 'Z' || 'a' <= c <= 'z' || '0' <= c <= '9' || c == '+' || c == '/' }

  predicate AllSymbols(t: Str) { forall i :: 0 <= i < |t| ==> IsSymbol(t[i]) }

  /** How many characters pad the last group, and by how much the bits that fill its last symbol scale the number. */
  function Missing(s: Str): nat { if |s| % 3 == 0 then 0 else 3 - |s| % 3 }

  function Scale(missing: nat): nat { if missing == 0 then 1 else if missing == 1 then 4 else 16 }

  /** Symbols, then `=` for each byte that is missing to a multiple of three; together a multiple of four. */
  predicate Spells(t: Str, s: Str) {
    var n := |t| - Missing(s);
    && n >= 0 && 3 * |t| == 4 * (|s| + Missing(s))
    && AllSymbols(t[..n]) && (forall i :: n <= i < |t| ==> t[i] == '=')
    && FromSymbols(0, t[..n]) == FromBytes(0, s) * Scale(Missing(s))
  }

  lemma SymbolIs(v: Sextet)
    ensures IsSymbol(Symbol(v)) && SymbolValue(Symbol(v)) == v
  {
    SymbolInverse(v);
    TableParts(v);
    if v < 26 {
      UpperAt(v);
    } else if v < 52 {
      LowerAt(v - 26);
    } else {
      RestAt(v - 52);
    }
    hide UPPER, LOWER, REST, ALPHABET, Symbol, SymbolValue;
  }

  lemma ValueIs(c: Byte)
    requires IsSymbol(c)
    ensures SymbolValue(c) < 64 && forall d: Byte :: IsSymbol(d) && SymbolValue(d) == SymbolValue(c) ==> c == d
  {
  }

  lemma FourSymbols(front: nat, a: Sextet, b: Sextet, c: Sextet, d: Sextet, rest: Str)
    ensures FromSymbols(front, [Symbol(a), Symbol(b), Symbol(c), Symbol(d)] + rest)
            == FromSymbols(front * 0x100_0000 + a * 0x4_0000 + b * 0x1000 + c * 64 + d, rest)
  {
    hide Symbol, SymbolValue, IsSymbol;
    SymbolIs(a);
    SymbolIs(b);
    SymbolIs(c);
    SymbolIs(d);
    var t := [Symbol(a), Symbol(b), Symbol(c), Symbol(d)] + rest;
    assert t[1..][1..] == t[2..] && t[2..][1..] == t[3..] && t[3..][1..] == rest;
    var one := front * 64 + a;
    assert FromSymbols(front, t) == FromSymbols(one, t[1..]) == FromSymbols(one * 64 + b, t[2..]);
  }

  lemma ThreeBytes(front: nat, s: Str)
    requires |s| >= 3
    ensures FromBytes(front, s) == FromBytes(front * 0x100_0000 + Value24(s), s[3..])
  {
    assert s[1..][1..] == s[2..] && s[2..][1..] == s[3..];
    var one := front * 256 + s[0] as int;
    var two := one * 256 + s[1] as int;
    assert FromBytes(front, s) == FromBytes(one, s[1..]) == FromBytes(two, s[2..])
           == FromBytes(two * 256 + s[2] as int, s[3..]);
  }

  lemma ShortSymbols(front: nat, t: Str)
    requires |t| == 2 || |t| == 3
    ensures FromSymbols(front, t)
            == if |t| == 2 then front * 0x1000 + SymbolValue(t[0]) * 64 + SymbolValue(t[1])
               else front * 0x4_0000 + SymbolValue(t[0]) * 0x1000 + SymbolValue(t[1]) * 64 + SymbolValue(t[2])
  {
    hide SymbolValue;
    assert t[1..][1..] == t[2..];
    var one := front * 64 + SymbolValue(t[0]);
    var two := one * 64 + SymbolValue(t[1]);
    assert FromSymbols(front, t) == FromSymbols(one, t[1..]) == FromSymbols(two, t[2..]);
    if |t| == 3 {
      assert t[2..][1..] == [];
      assert FromSymbols(two, t[2..]) == FromSymbols(two * 64 + SymbolValue(t[2]), []);
    }
  }

  lemma ShortBytes(front: nat, s: Str)
    requires |s| == 1 || |s| == 2
    ensures FromBytes(front, s)
            == if |s| == 1 then front * 256 + s[0] as int else front * 0x1_0000 + s[0] as int * 256 + s[1] as int
  {
    assert s[1..] == [] || s[1..][1..] == [];
    var one := front * 256 + s[0] as int;
    assert FromBytes(front, s) == FromBytes(one, s[1..]);
    if |s| == 2 {
      assert FromBytes(one, s[1..]) == FromBytes(one * 256 + s[1] as int, []);
    }
  }

  /** The symbols of a group of three bytes, or of the one or two bytes at the end. */
  function Symbols(v: nat, n: nat): Str {
    [Symbol(Group(v, 0)), Symbol(Group(v, 1))] + (if n > 1 then [Symbol(Group(v, 2))] else [])
    + if n > 2 then [Symbol(Group(v, 3))] else []
  }

  /** The encoding without its padding. */
  function Body(s: Str): Str {
    if s == [] then [] else Symbols(Value24(s), |s|) + if |s| > 3 then Body(s[3..]) else []
  }

  lemma {:induction false} EncodeIsBody(s: Str)
    ensures Encode(s) == Body(s) + Padding(Missing(s))
    decreases |s|
  {
    hide Encode, Symbols, Padding, Value24;
    if s == [] {
      NoneMissing();
    } else if |s| <= 3 {
      LastBlock(s);
      EmptyIsUnit(Symbols(Value24(s), |s|));
    } else {
      FirstBlock(s);
      EncodeIsBody(s[3..]);
      SameRemainder(|s|);
      Associate(Symbols(Value24(s), |s|), Body(s[3..]), Padding(Missing(s)));
    }
  }

  lemma NoneMissing()
    ensures Encode([]) == Padding(0) == []
  {
  }

  lemma FourInFront(t: Str, a: Byte, b: Byte, c: Byte, d: Byte)
    requires |t| >= 4 && t[0] == a && t[1] == b && t[2] == c && t[3] == d
    ensures t == [a, b, c, d] + t[4..]
  {
  }

  lemma PaddedSymbols(v: nat, n: nat)
    requires 1 <= n <= 3
    ensures Symbols(v, n) + Padding(3 - n)
            == [Symbol(Group(v, 0)), Symbol(Group(v, 1)), if n > 1 then Symbol(Group(v, 2)) else '=',
                if n > 2 then Symbol(Group(v, 3)) else '=']
  {
    Paddings();
    hide Symbol, Group, Padding;
  }

  lemma MissingFromThree(s: Str)
    requires 1 <= |s| <= 3
    ensures Missing(s) == 3 - |s|
  {
  }

  lemma LastBlock(s: Str)
    requires 1 <= |s| <= 3
    ensures Encode(s) == Symbols(Value24(s), |s|) + Padding(Missing(s))
  {
    hide *;
    var v, t := Value24(s), Encode(s);
    MissingFromThree(s);
    FirstQuad(s);
    FourInFront(t, t[0], t[1], t[2], t[3]);
    PaddedSymbols(v, |s|);
    EmptyIsUnit([t[0], t[1], t[2], t[3]]);
  }

  lemma FirstBlock(s: Str)
    requires |s| > 3
    ensures Encode(s) == Symbols(Value24(s), |s|) + Encode(s[3..])
  {
    hide *;
    var v := Value24(s);
    FirstQuad(s);
    FullSymbols(v, |s|);
    FourInFront(Encode(s), Symbol(Group(v, 0)), Symbol(Group(v, 1)), Symbol(Group(v, 2)), Symbol(Group(v, 3)));
  }

  lemma SameRemainder(n: nat)
    requires n >= 3
    ensures (n - 3) % 3 == n % 3
  {
  }

  /** The groups of a block, as its symbols tell them. */
  lemma GroupValues(s: Str)
    requires s != []
    ensures var v := Value24(s);
            && v == SymbolValue(Symbol(Group(v, 0))) * 0x4_0000 + SymbolValue(Symbol(Group(v, 1))) * 0x1000
                    + SymbolValue(Symbol(Group(v, 2))) * 64 + SymbolValue(Symbol(Group(v, 3)))
            && (|s| == 1 ==> SymbolValue(Symbol(Group(v, 2))) == 0)
            && (|s| <= 2 ==> SymbolValue(Symbol(Group(v, 3))) == 0)
  {
    var v := Value24(s);
    TailBits(s);
    GroupsRecompose(v);
    hide *;
    SymbolIs(Group(v, 0));
    SymbolIs(Group(v, 1));
    SymbolIs(Group(v, 2));
    SymbolIs(Group(v, 3));
  }

  lemma OneByte(front: nat, s: Str)
    requires |s| == 1
    ensures FromSymbols(front, Symbols(Value24(s), 1)) == FromBytes(front, s) * 16
  {
    GroupValues(s);
    ShortBytes(front, s);
    ShortSymbols(front, Symbols(Value24(s), 1));
    hide Symbol, SymbolValue, Group, FromBytes, FromSymbols;
  }

  lemma TwoBytes(front: nat, s: Str)
    requires |s| == 2
    ensures FromSymbols(front, Symbols(Value24(s), 2)) == FromBytes(front, s) * 4
  {
    GroupValues(s);
    ShortBytes(front, s);
    ShortSymbols(front, Symbols(Value24(s), 2));
    hide Symbol, SymbolValue, Group, FromBytes, FromSymbols;
  }

  lemma SymbolsNumber(front: nat, s: Str)
    requires 1 <= |s| <= 3
    ensures FromSymbols(front, Symbols(Value24(s), |s|)) == FromBytes(front, s) * Scale(Missing(s))
  {
    hide Symbol, Group, FromBytes, FromSymbols, Value24, Symbols;
    if |s| == 1 {
      OneByte(front, s);
    } else if |s| == 2 {
      TwoBytes(front, s);
    } else {
      ThreeBytes(front, s);
      QuadNumber(front, s, []);
      EmptyIsUnit(Symbols(Value24(s), 3));
      NothingLeft(front * 0x100_0000 + Value24(s));
      assert s[3..] == [];
    }
  }

  lemma FullSymbols(v: nat, n: nat)
    requires n >= 3
    ensures Symbols(v, n) == [Symbol(Group(v, 0)), Symbol(Group(v, 1)), Symbol(Group(v, 2)), Symbol(Group(v, 3))]
  {
    hide Symbol, Group;
  }

  lemma QuadNumber(front: nat, s: Str, rest: Str)
    requires |s| >= 3
    ensures FromSymbols(front, Symbols(Value24(s), |s|) + rest) == FromSymbols(front * 0x100_0000 + Value24(s), rest)
    ensures Symbols(Value24(s), |s|) == Symbols(Value24(s), 3)
  {
    hide *;
    var v := Value24(s);
    FullSymbols(v, |s|);
    FullSymbols(v, 3);
    GroupValues(s);
    SymbolIs(Group(v, 0));
    SymbolIs(Group(v, 1));
    SymbolIs(Group(v, 2));
    SymbolIs(Group(v, 3));
    FourSymbols(front, Group(v, 0), Group(v, 1), Group(v, 2), Group(v, 3), rest);
  }

  lemma NothingLeft(front: nat)
    ensures FromSymbols(front, []) == FromBytes(front, []) == front
  {
  }

  lemma {:induction false} BodyNumber(front: nat, s: Str)
    ensures FromSymbols(front, Body(s)) == FromBytes(front, s) * Scale(Missing(s))
    decreases |s|
  {
    if s == [] {
    } else if |s| <= 3 {
      SymbolsNumber(front, s);
      EmptyIsUnit(Symbols(Value24(s), |s|));
    } else {
      LongBody(front, s);
      ThreeBytes(front, s);
      SameRemainder(|s|);
      hide FromSymbols, FromBytes, Body, Value24;
      BodyNumber(front * 0x100_0000 + Value24(s), s[3..]);
    }
  }

  lemma LongBody(front: nat, s: Str)
    requires |s| > 3
    ensures FromSymbols(front, Body(s)) == FromSymbols(front * 0x100_0000 + Value24(s), Body(s[3..]))
  {
    hide Symbols, FromSymbols, Value24;
    QuadNumber(front, s, Body(s[3..]));
  }

  lemma SymbolsAre(v: nat, n: nat)
    ensures AllSymbols(Symbols(v, n)) && |Symbols(v, n)| == 2 + (if n > 1 then 1 else 0) + if n > 2 then 1 else 0
  {
    SymbolIs(Group(v, 0));
    SymbolIs(Group(v, 1));
    SymbolIs(Group(v, 2));
    SymbolIs(Group(v, 3));
    hide Symbol, Group, IsSymbol, SymbolValue;
  }

  lemma {:induction false} BodyShape(s: Str)
    ensures AllSymbols(Body(s)) && 3 * (|Body(s)| + Missing(s)) == 4 * (|s| + Missing(s))
    decreases |s|
  {
    if s != [] {
      SymbolsAre(Value24(s), |s|);
      hide Symbols, IsSymbol;
      if |s| > 3 {
        BodyShape(s[3..]);
        SameRemainder(|s|);
      }
    }
  }

  /** As many symbols with the same number are the same symbols. */
  lemma {:induction false} DigitsDetermine(a: nat, b: nat, s: Str, t: Str)
    requires |s| == |t| && AllSymbols(s) && AllSymbols(t) && FromSymbols(a, s) == FromSymbols(b, t)
    ensures a == b && s == t
    decreases |s|
  {
    if s != [] {
      ValueIs(s[0]);
      ValueIs(t[0]);
      hide SymbolValue, IsSymbol;
      DigitsDetermine(a * 64 + SymbolValue(s[0]), b * 64 + SymbolValue(t[0]), s[1..], t[1..]);
      assert s == [s[0]] + s[1..] && t == [t[0]] + t[1..];
    }
  }

  /** The encoding of some bytes is the one text that spells their number. */
  lemma EncodesExactly(s: Str, t: Str)
    ensures t == Encode(s) <==> Spells(t, s)
  {
    hide FromBytes, FromSymbols, AllSymbols, Encode, Body, Scale, Missing, Padding;
    EncodeIsBody(s);
    BodyNumber(0, s);
    BodyShape(s);
    PaddingIs(Missing(s));
    var n, b := |t| - Missing(s), Body(s);
    assert Encode(s)[..|b|] == b;
    if Spells(t, s) {
      DigitsDetermine(0, 0, t[..n], b);
      assert t == t[..n] + t[n..] && t[n..] == Padding(Missing(s));
    }
  }

  lemma {:induction false} PaddingIs(k: nat)
    ensures |Padding(k)| == k && forall i :: 0 <= i < k ==> Padding(k)[i] == '='
  {
    if k > 0 {
      PaddingIs(k - 1);
    }
  }

  /** The letters of `Man`, and the last two symbols of the table. */
  lemma Vectors()
    ensures Encode("Man") == "TWFu" && Encode([ToByte(0xFB), ToByte(0xEF), ToByte(0xFF)]) == "++//"
  {
    hide Encode, Symbol;
    OneQuad("Man", 19, 22, 5, 46);
    OneQuad([ToByte(0xFB), ToByte(0xEF), ToByte(0xFF)], 62, 62, 63, 63);
    SomeSymbols();
  }

  lemma SomeSymbols()
    ensures Symbol(19) == 'T' && Symbol(22) == 'W' && Symbol(5) == 'F' && Symbol(46) == 'u'
    ensures Symbol(62) == '+' && Symbol(63) == '/'
  {
    SymbolOf(19, 'T');
    SymbolOf(22, 'W');
    SymbolOf(5, 'F');
    SymbolOf(46, 'u');
    SymbolOf(62, '+');
    SymbolOf(63, '/');
    hide Symbol;
  }

  lemma OneQuad(s: Str, a: Sextet, b: Sextet, c: Sextet, d: Sextet)
    requires |s| == 3 && Quad(s[0], s[1], s[2]) == [Symbol(a), Symbol(b), Symbol(c), Symbol(d)]
    ensures Encode(s) == [Symbol(a), Symbol(b), Symbol(c), Symbol(d)]
  {
    QuadIsFour(s[0], s[1], s[2]);
    FirstQuad(s);
    hide Group, Symbol, Quad;
  }

  lemma SymbolOf(v: Sextet, c: Byte)
    requires IsSymbol(c) && SymbolValue(c) == v
    ensures Symbol(v) == c
  {
    SymbolIs(v);
    ValueIs(c);
    hide Symbol, SymbolValue, IsSymbol;
  }
}
