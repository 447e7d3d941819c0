/** The three Base64 encoders of the repository, and the encoding of section 4 of RFC 4648 they all compute. */
module Base64 {
  import opened Bytes
  import opened Division

  const UPPER: Str := "ABCDEFGHIJKLMNOPQRSTUVWXYZ"
  const LOWER: Str := "abcdefghijklmnopqrstuvwxyz"
  const REST: Str := "0123456789+/"

  /** The 64-character table each encoder carries. */
  const ALPHABET: Str := UPPER + LOWER + REST

  type Sextet = v: nat | v < 64

  function Symbol(v: Sextet): (c: Byte)
    ensures c != '='
  {
    ALPHABET[v]
  }

  /** Where a symbol stands in the table. */
  function SymbolValue(c: Byte): nat {
    if 'A' <= c <= 'Z' then c as int - 65
    else if 'a' <= c <= 'z' then c as int - 97 + 26
    else if '0' <= c <= '9' then c as int - 48 + 52
    else if c == '+' then 62 else 63
  }

  lemma UpperAt(v: nat)
    requires v < 26
    ensures UPPER[v] as int == 65 + v
  {
  }

  lemma LowerAt(v: nat)
    requires v < 26
    ensures LOWER[v] as int == 97 + v
  {
  }

  lemma RestAt(v: nat)
    requires v < 12
    ensures REST[v] as int == if v < 10 then 48 + v else if v == 10 then 43 else 47
  {
  }

  lemma SymbolInverse(v: Sextet)
    ensures SymbolValue(Symbol(v)) == v
  {
    if v < 26 {
      UpperAt(v);
    } else if v < 52 {
      LowerAt(v - 26);
    } else {
      RestAt(v - 52);
    }
    TableParts(v);
    hide UPPER, LOWER, REST, ALPHABET, Symbol;
  }

  lemma TableParts(v: Sextet)
    ensures |UPPER| == 26 && |LOWER| == 26 && |REST| == 12
    ensures Symbol(v) == if v < 26 then UPPER[v] else if v < 52 then LOWER[v - 26] else REST[v - 52]
  {
  }

  lemma SymbolInjective(v: Sextet, w: Sextet)
    ensures Symbol(v) == Symbol(w) <==> v == w
  {
    SymbolInverse(v);
    SymbolInverse(w);
  }

  /** The `n`-th six-bit group, from the left, of a 24-bit number. */
  function Group(v: nat, n: nat): Sextet
    requires n < 4
  {
    (if n == 0 then v / 262144 else if n == 1 then v / 4096 else if n == 2 then v / 64 else v) % 64
  }

  /**
   * Section 4 of RFC 4648: 24-bit groups as four symbols; a last group of one or two bytes has zero bits added on
   * the right to fill its last symbol, and is padded to four characters.
   */
  function Encode(s: Str): Str {
    if |s| == 0 then []
    else if |s| == 1 then
      var v := s[0] as int * 65536;
      [Symbol(Group(v, 0)), Symbol(Group(v, 1)), '=', '=']
    else if |s| == 2 then
      var v := s[0] as int * 65536 + s[1] as int * 256;
      [Symbol(Group(v, 0)), Symbol(Group(v, 1)), Symbol(Group(v, 2)), '=']
    else
      var v := s[0] as int * 65536 + s[1] as int * 256 + s[2] as int;
      [Symbol(Group(v, 0)), Symbol(Group(v, 1)), Symbol(Group(v, 2)), Symbol(Group(v, 3))] + Encode(s[3..])
  }

  // ----- the encoding is injective -----

  lemma GroupsRecompose(v: nat)
    requires v < 16777216
    ensures v == Group(v, 0) * 262144 + Group(v, 1) * 4096 + Group(v, 2) * 64 + Group(v, 3)
  {
    Parts(v, 64);
    Parts(v / 64, 64);
    Parts(v / 4096, 64);
    DivTwice(v, 64, 64);
    DivTwice(v, 4096, 64);
  }

  lemma GroupsDetermine(v: nat, w: nat)
    requires v < 16777216 && w < 16777216
    requires forall n :: 0 <= n < 4 ==> Group(v, n) == Group(w, n)
    ensures v == w
  {
    GroupsRecompose(v);
    GroupsRecompose(w);
    hide Group;
    assert Group(v, 0) == Group(w, 0) && Group(v, 1) == Group(w, 1);
    assert Group(v, 2) == Group(w, 2) && Group(v, 3) == Group(w, 3);
  }

  lemma BytesDetermine(a: nat, b: nat, c: nat, a': nat, b': nat, c': nat)
    requires a < 256 && b < 256 && c < 256 && a' < 256 && b' < 256 && c' < 256
    requires a * 65536 + b * 256 + c == a' * 65536 + b' * 256 + c'
    ensures a == a' && b == b' && c == c'
  {
  }

  function Value24(s: Str): nat
    requires s != []
  {
    s[0] as int * 65536 + (if |s| > 1 then s[1] as int * 256 else 0) + (if |s| > 2 then s[2] as int else 0)
  }

  /** The first four characters are those of the first 24 bits, with padding for the bytes that are missing. */
  lemma FirstQuad(s: Str)
    requires s != []
    ensures |Encode(s)| >= 4
    ensures Encode(s)[0] == Symbol(Group(Value24(s), 0)) && Encode(s)[1] == Symbol(Group(Value24(s), 1))
    ensures Encode(s)[2] == (if |s| > 1 then Symbol(Group(Value24(s), 2)) else '=')
    ensures Encode(s)[3] == (if |s| > 2 then Symbol(Group(Value24(s), 3)) else '=')
    ensures Encode(s)[4..] == if |s| > 3 then Encode(s[3..]) else []
  {
    hide Symbol, SymbolValue;
  }

  lemma TailBits(s: Str)
    requires s != []
    ensures Value24(s) < 16777216
    ensures |s| == 1 ==> Group(Value24(s), 2) == 0
    ensures |s| <= 2 ==> Group(Value24(s), 3) == 0
  {
    hide Group;
    if |s| == 1 {
      QuadGroups(s[0] as int, 0, 0);
    } else if |s| == 2 {
      QuadGroups(s[0] as int, s[1] as int, 0);
    }
  }

  lemma {:induction false} EncodeInjective(s: Str, t: Str)
    requires Encode(s) == Encode(t)
    ensures s == t
    decreases |s|
  {
    hide Symbol, SymbolValue;
    if s != [] {
      FirstQuad(s);
    }
    if t != [] {
      FirstQuad(t);
    }
    if s != [] && t != [] {
      var v, w := Value24(s), Value24(t);
      TailBits(s);
      TailBits(t);
      forall n | 0 <= n < 4 ensures Group(v, n) == Group(w, n) {
        SymbolInjective(Group(v, n), Group(w, n));
        SymbolInjective(Group(w, n), Group(v, n));
      }
      SameLength(s, t);
      GroupsDetermine(v, w);
      BytesDetermine(s[0] as int, if |s| > 1 then s[1] as int else 0, if |s| > 2 then s[2] as int else 0,
                     t[0] as int, if |t| > 1 then t[1] as int else 0, if |t| > 2 then t[2] as int else 0);
      if |s| > 3 && |t| > 3 {
        EncodeInjective(s[3..], t[3..]);
        assert s == s[..3] + s[3..] && t == t[..3] + t[3..];
      }
    }
  }

  /** The padding and the length of the encoding tell how many of the first three bytes are there. */
  lemma SameLength(s: Str, t: Str)
    requires s != [] && t != [] && Encode(s) == Encode(t)
    ensures Min(|s|, 3) == Min(|t|, 3) && (|s| > 3 <==> |t| > 3)
  {
    hide Symbol, SymbolValue;
    FirstQuad(s);
    FirstQuad(t);
    SymbolInjective(Group(Value24(s), 2), Group(Value24(t), 2));
    SymbolInjective(Group(Value24(t), 2), Group(Value24(s), 2));
    SymbolInjective(Group(Value24(s), 3), Group(Value24(t), 3));
    SymbolInjective(Group(Value24(t), 3), Group(Value24(s), 3));
    if |s| > 3 {
      FirstQuad(s[3..]);
    }
    if |t| > 3 {
      FirstQuad(t[3..]);
    }
  }

  // ----- the two encoders that take three bytes at a time -----

  /** One turn of the block loop: `a`, `b`, `c` with zeros for missing bytes. */
  function BlockQuad(s: Str, i: nat): Str
    requires i < |s|
  {
    var a := s[i] as int;
    var b := if i + 1 < |s| then s[i + 1] as int else 0;
    var c := if i + 2 < |s| then s[i + 2] as int else 0;
    [Symbol(a / 4), Symbol(a % 4 * 16 + b / 16),
     if i + 1 < |s| then Symbol(b % 16 * 4 + c / 64) else '=',
     if i + 2 < |s| then Symbol(c % 64) else '=']
  }

  /** The 24 bits of a block, field by field, as the shifts and masks of the code cut them. */
  lemma FieldGroups(ah: nat, al: nat, bh: nat, bl: nat, ch: nat, cl: nat)
    requires ah < 64 && al < 4 && bh < 16 && bl < 16 && ch < 4 && cl < 64
    ensures var v := (4 * ah + al) * 65536 + (16 * bh + bl) * 256 + (64 * ch + cl);
            && Group(v, 0) == ah && Group(v, 1) == al * 16 + bh && Group(v, 2) == bl * 4 + ch && Group(v, 3) == cl
  {
    var v := (4 * ah + al) * 65536 + (16 * bh + bl) * 256 + (64 * ch + cl);
    var g2 := bl * 4 + ch;
    var g1 := al * 16 + bh;
    Nested64(ah, g1, g2, cl);
    assert v == ((ah * 64 + g1) * 64 + g2) * 64 + cl;
  }

  lemma Nested64(g0: nat, g1: nat, g2: nat, g3: nat)
    requires g0 < 64 && g1 < 64 && g2 < 64 && g3 < 64
    ensures var v := ((g0 * 64 + g1) * 64 + g2) * 64 + g3;
            Group(v, 0) == g0 && Group(v, 1) == g1 && Group(v, 2) == g2 && Group(v, 3) == g3
  {
    FourDigits(g0, g1, g2, g3);
  }

  lemma QuadGroups(a: nat, b: nat, c: nat)
    requires a < 256 && b < 256 && c < 256
    ensures var v := a * 65536 + b * 256 + c;
            && Group(v, 0) == a / 4 && Group(v, 1) == a % 4 * 16 + b / 16
            && Group(v, 2) == b % 16 * 4 + c / 64 && Group(v, 3) == c % 64
  {
    hide Group;
    Parts(a, 4);
    Parts(b, 16);
    Parts(c, 64);
    FieldGroups(a / 4, a % 4, b / 16, b % 16, c / 64, c % 64);
  }

  /** What is still to be encoded from position `i` on. */
  function Remaining(s: Str, i: nat): Str {
    if i < |s| then Encode(s[i..]) else []
  }

  lemma AllRemains(s: Str)
    ensures Remaining(s, 0) == Encode(s)
  {
    assert s[0..] == s;
  }

  lemma BlockStep(s: Str, i: nat)
    requires i < |s|
    ensures Remaining(s, i) == BlockQuad(s, i) + Remaining(s, i + 3)
  {
    hide Symbol, SymbolValue;
    var t := s[i..];
    QuadGroups(t[0] as int, if |t| > 1 then t[1] as int else 0, if |t| > 2 then t[2] as int else 0);
    FirstQuad(t);
    hide Encode, Group;
    TakeAndDrop(Encode(t), 4);
    assert Encode(t)[..4] == BlockQuad(s, i);
    if |t| > 3 {
      assert t[3..] == s[i + 3..];
    }
  }

  /** The four characters one turn of a block loop adds. */
  method EncodeBlock(bytes: Str, i: nat) returns (quad: Str)
    requires i < |bytes|
    ensures quad == BlockQuad(bytes, i)
  {
    hide Symbol;
    var a := bytes[i] as int;
    var b := if i + 1 < |bytes| then bytes[i + 1] as int else 0;
    var c := if i + 2 < |bytes| then bytes[i + 2] as int else 0;
    quad := [Symbol(a / 4), Symbol(a % 4 * 16 + b / 16),
             if i + 1 < |bytes| then Symbol(b % 16 * 4 + c / 64) else '=',
             if i + 2 < |bytes| then Symbol(c % 64) else '='];
  }

  /** The block loop of `encode_base64` (serialize_resources.cpp) and of `proxy_authorization` (network_client.cpp). */
  method EncodeBlocks(bytes: Str) returns (encoded: Str)
    ensures encoded == Encode(bytes)
  {
    hide Remaining, BlockQuad;
    encoded := [];
    var i := 0;
    AllRemains(bytes);
    while i < |bytes|
      invariant encoded + Remaining(bytes, i) == Encode(bytes)
    {
      BlockStep(bytes, i);
      var quad := EncodeBlock(bytes, i);
      Associate(encoded, quad, Remaining(bytes, i + 3));
      encoded := encoded + quad;
      i := i + 3;
    }
    NoneRemains(bytes, i);
  }

  lemma NoneRemains(s: Str, i: nat)
    requires i >= |s|
    ensures forall t: Str :: t + Remaining(s, i) == t
  {
  }

  /** The header `proxy_authorization` sends for a user: the block encoding of `username:password`. */
  method ProxyAuthorization(username: Str, password: Str) returns (header: Str)
    ensures header == if username == [] then []
                      else "\r\nProxy-Authorization: Basic " + Encode(username + ":" + password)
  {
    if username == [] { return []; }
    var encoded := EncodeBlocks(username + ":" + password);
    header := "\r\nProxy-Authorization: Basic " + encoded;
  }

  // ----- the encoder that shifts bits through an accumulator -----

  /** The symbols for the top groups of the `bits` low bits of `acc`; up to five bits stay behind. */
  function Sextets(acc: nat, bits: nat): Str {
    if bits < 6 then [] else [Symbol(acc / Pow2(bits - 6) % 64)] + Sextets(acc, bits - 6)
  }

  /** The inner loop of `base64` in playwright.cpp. */
  method DrainSextets(acc: nat, bits: nat) returns (out: Str, left: nat)
    ensures out == Sextets(acc, bits) && left == bits % 6
  {
    hide Symbol, Sextets, Pow2;
    out, left := [], bits;
    EmptyIsUnit(Sextets(acc, bits));
    while left >= 6
      invariant out + Sextets(acc, left) == Sextets(acc, bits) && left % 6 == bits % 6
    {
      SextetsStep(acc, left);
      left := left - 6;
      var symbol := Symbol(acc / Pow2(left) % 64);
      Associate(out, [symbol], Sextets(acc, left));
      out := out + [symbol];
    }
    SextetsStep(acc, left);
    EmptyIsUnit(out);
  }

  lemma SextetsStep(acc: nat, bits: nat)
    ensures Sextets(acc, bits)
            == if bits < 6 then [] else [Symbol(acc / Pow2(bits - 6) % 64)] + Sextets(acc, bits - 6)
  {
  }

  /** The low bits after one byte is shifted in; the bits a 32-bit accumulator loses are never looked at. */
  lemma ShiftIn(acc: nat, c: nat)
    requires c < 256
    ensures ((acc * 256 + c) % 0x1_0000_0000) % 4096 == acc % 16 * 256 + c
  {
    var v := acc * 256 + c;
    var next := v % 0x1_0000_0000;
    Parts(v, 0x1_0000_0000);
    ModShift(v / 0x1_0000_0000 * 0x10_0000, 4096, next);
    Parts(acc, 16);
    Divides(acc / 16, 4096, acc % 16 * 256 + c);
  }

  lemma PowersOfTwo()
    ensures Pow2(2) == 4 && Pow2(4) == 16 && Pow2(6) == 64
  {
  }

  /** What has been written, and what is pending, after `i` bytes. */
  predicate Accumulating(input: Str, i: nat, result: Str, acc: nat, bits: nat)
    requires i <= |input|
  {
    var whole := Encode(input[..i / 3 * 3]);
    match i % 3
    case 0 => bits == 0 && result == whole
    case 1 =>
      var a := input[i - 1] as int;
      bits == 2 && acc % 4 == a % 4 && result == whole + [Symbol(a / 4)]
    case _ =>
      var a, b := input[i - 2] as int, input[i - 1] as int;
      bits == 4 && acc % 16 == b % 16 && result == whole + [Symbol(a / 4), Symbol(a % 4 * 16 + b / 16)]
  }

  function FourOf(a: Byte, b: Byte, c: Byte): Str {
    var v := a as int * 65536 + b as int * 256 + c as int;
    [Symbol(Group(v, 0)), Symbol(Group(v, 1)), Symbol(Group(v, 2)), Symbol(Group(v, 3))]
  }

  lemma EncodeCons(s: Str)
    requires |s| >= 3
    ensures Encode(s) == FourOf(s[0], s[1], s[2]) + Encode(s[3..])
  {
    hide Symbol, Group;
  }

  lemma EncodeNil()
    ensures Encode([]) == []
  {
  }

  lemma {:induction false} EncodeAppendBlock(s: Str, block: Str)
    requires |s| % 3 == 0
    ensures Encode(s + block) == Encode(s) + Encode(block)
  {
    hide Encode, FourOf;
    EncodeNil();
    if s == [] {
      assert s + block == block && [] + Encode(block) == Encode(block);
    } else {
      EncodeAppendBlock(s[3..], block);
      EncodeCons(s);
      EncodeCons(s + block);
      assert (s + block)[3..] == s[3..] + block;
      Associate(FourOf(s[0], s[1], s[2]), Encode(s[3..]), Encode(block));
    }
  }

  lemma DrainOne(acc: nat, bits: nat)
    requires 6 <= bits < 12
    ensures Sextets(acc, bits) == [Symbol(acc / Pow2(bits - 6) % 64)]
  {
  }

  lemma DrainTwo(acc: nat)
    ensures Sextets(acc, 12) == [Symbol(acc / 64 % 64), Symbol(acc % 64)]
  {
    PowersOfTwo();
    assert Pow2(0) == 1;
    assert Sextets(acc, 6) == [Symbol(acc / 1 % 64)] + Sextets(acc, 0);
  }

  lemma Window4(k: nat, r: nat)
    ensures (k * 4096 + r) / 4 % 64 == r / 4 % 64 && (k * 4096 + r) % 4 == r % 4
  {
    Parts(r, 4);
    Divides(k * 1024 + r / 4, 4, r % 4);
    ModShift(k * 16, 64, r / 4);
  }

  lemma Window16(k: nat, r: nat)
    ensures (k * 4096 + r) / 16 % 64 == r / 16 % 64 && (k * 4096 + r) % 16 == r % 16
  {
    Parts(r, 16);
    Divides(k * 256 + r / 16, 16, r % 16);
    ModShift(k * 4, 64, r / 16);
  }

  lemma Window64(k: nat, r: nat)
    ensures (k * 4096 + r) / 64 % 64 == r / 64 % 64 && (k * 4096 + r) % 64 == r % 64
  {
    Parts(r, 64);
    Divides(k * 64 + r / 64, 64, r % 64);
    ModShift(k, 64, r / 64);
  }

  /** What the windows of two, four and six pending bits hold, given the twelve low bits. */
  lemma LowBits(next: nat, old4: nat, c: nat)
    requires c < 256 && old4 < 16 && next % 4096 == old4 * 256 + c
    ensures next / 4 % 64 == c / 4 && next % 4 == c % 4
    ensures next / 16 % 64 == old4 % 4 * 16 + c / 16 && next % 16 == c % 16
    ensures next / 64 % 64 == old4 * 4 + c / 64 && next % 64 == c % 64
  {
    var k, r := next / 4096, next % 4096;
    assert next == k * 4096 + r;
    Window4(k, r);
    Window16(k, r);
    Window64(k, r);
    SmallWindows(old4, c);
  }

  lemma SmallWindows(old4: nat, c: nat)
    requires c < 256 && old4 < 16
    ensures var r := old4 * 256 + c;
            && r / 4 % 64 == c / 4 && r % 4 == c % 4
            && r / 16 % 64 == old4 % 4 * 16 + c / 16 && r % 16 == c % 16
            && r / 64 % 64 == old4 * 4 + c / 64 && r % 64 == c % 64
  {
    SmallWindow4(old4, c);
    SmallWindow16(old4, c);
    SmallWindow64(old4, c);
  }

  lemma SmallWindow4(old4: nat, c: nat)
    requires c < 256
    ensures (old4 * 256 + c) / 4 % 64 == c / 4 && (old4 * 256 + c) % 4 == c % 4
  {
    Parts(c, 4);
    Divides(old4 * 64 + c / 4, 4, c % 4);
    Divides(old4, 64, c / 4);
  }

  lemma SmallWindow16(old4: nat, c: nat)
    requires c < 256
    ensures (old4 * 256 + c) / 16 % 64 == old4 % 4 * 16 + c / 16 && (old4 * 256 + c) % 16 == c % 16
  {
    Parts(old4, 4);
    Parts(c, 16);
    Split16(old4 / 4, old4 % 4, c / 16, c % 16);
  }

  lemma Split16(q: nat, m: nat, high: nat, low: nat)
    requires m < 4 && high < 16 && low < 16
    ensures var r := (4 * q + m) * 256 + (16 * high + low); r / 16 % 64 == m * 16 + high && r % 16 == low
  {
    Divides(q * 64 + m * 16 + high, 16, low);
    Divides(q, 64, m * 16 + high);
  }

  lemma SmallWindow64(old4: nat, c: nat)
    requires c < 256 && old4 < 16
    ensures (old4 * 256 + c) / 64 % 64 == old4 * 4 + c / 64 && (old4 * 256 + c) % 64 == c % 64
  {
    Parts(c, 64);
    Divides(old4 * 4 + c / 64, 64, c % 64);
  }

  lemma FirstOfThree(input: Str, i: nat, next: nat)
    requires i < |input| && i % 3 == 0 && next / 4 % 64 == input[i] as int / 4 && next % 4 == input[i] as int % 4
    ensures Accumulating(input, i + 1, Encode(input[..i]) + Sextets(next, 8), next, 2)
  {
    hide Symbol, Encode;
    DrainOne(next, 8);
    PowersOfTwo();
    assert (i + 1) / 3 * 3 == i && (i + 1) % 3 == 1;
  }

  lemma SecondOfThree(input: Str, i: nat, result: Str, acc: nat, next: nat)
    requires i < |input| && i % 3 == 1 && Accumulating(input, i, result, acc, 2)
    requires next / 16 % 64 == acc % 4 * 16 + input[i] as int / 16 && next % 16 == input[i] as int % 16
    ensures Accumulating(input, i + 1, result + Sextets(next, 10), next, 4)
  {
    hide Symbol, Encode;
    DrainOne(next, 10);
    PowersOfTwo();
    assert (i + 1) / 3 * 3 == i / 3 * 3 && (i + 1) % 3 == 2;
  }

  function Quad(a: Byte, b: Byte, c: Byte): Str {
    [Symbol(a as int / 4), Symbol(a as int % 4 * 16 + b as int / 16),
     Symbol(b as int % 16 * 4 + c as int / 64), Symbol(c as int % 64)]
  }

  lemma QuadIsFour(a: Byte, b: Byte, c: Byte)
    ensures Quad(a, b, c) == FourOf(a, b, c)
  {
    hide Symbol, Group;
    QuadGroups(a as int, b as int, c as int);
  }

  lemma EncodeThree(front: Str, block: Str)
    requires |front| % 3 == 0 && |block| == 3
    ensures Encode(front + block) == Encode(front) + Quad(block[0], block[1], block[2])
  {
    QuadIsFour(block[0], block[1], block[2]);
    EncodeCons(block);
    EncodeNil();
    hide Encode, FourOf, Quad;
    assert block[3..] == [];
    assert Quad(block[0], block[1], block[2]) + [] == Quad(block[0], block[1], block[2]);
    EncodeAppendBlock(front, block);
  }

  lemma ThirdOfThree(input: Str, i: nat, result: Str, acc: nat, next: nat)
    requires i < |input| && i % 3 == 2 && Accumulating(input, i, result, acc, 4)
    requires next / 64 % 64 == acc % 16 * 4 + input[i] as int / 64 && next % 64 == input[i] as int % 64
    ensures Accumulating(input, i + 1, result + Sextets(next, 12), next, 0)
  {
    hide Symbol, Encode;
    DrainTwo(next);
    var front, block := input[..i - 2], input[i - 2..i + 1];
    EncodeThree(front, block);
    assert input[..i + 1] == front + block;
    assert (i + 1) / 3 * 3 == i + 1 && (i + 1) % 3 == 0 && i / 3 * 3 == i - 2;
    var a, b := input[i - 2] as int, input[i - 1] as int;
    assert [Symbol(a / 4), Symbol(a % 4 * 16 + b / 16)] + Sextets(next, 12) == Quad(block[0], block[1], block[2]);
    Associate(Encode(front), [Symbol(a / 4), Symbol(a % 4 * 16 + b / 16)], Sextets(next, 12));
  }

  /** What the six, four and two pending bits hold after byte `c` came in behind the bits of `acc`. */
  predicate Windows(acc: nat, c: nat, next: nat) {
    && next / 4 % 64 == c / 4 && next % 4 == c % 4
    && next / 16 % 64 == acc % 4 * 16 + c / 16 && next % 16 == c % 16
    && next / 64 % 64 == acc % 16 * 4 + c / 64 && next % 64 == c % 64
  }

  /** `(accumulator << 8) | c` in 32 bits. */
  function Shifted(acc: nat, c: nat): nat { (acc * 256 + c) % 0x1_0000_0000 }

  lemma Residue16(acc: nat)
    ensures acc % 16 % 4 == acc % 4
  {
    Parts(acc, 16);
    ModShift(acc / 16 * 4, 4, acc % 16);
  }

  lemma NextWindows(acc: nat, c: nat)
    requires c < 256
    ensures Windows(acc, c, Shifted(acc, c))
  {
    var next := Shifted(acc, c);
    ShiftIn(acc, c);
    assert next % 4096 == acc % 16 * 256 + c;
    Residue16(acc);
    hide Shifted;
    LowBits(next, acc % 16, c);
  }

  /** One byte taken in and the full groups drained. */
  lemma AccumulateStep(input: Str, i: nat, result: Str, acc: nat, bits: nat, next: nat)
    requires i < |input| && Accumulating(input, i, result, acc, bits) && Windows(acc, input[i] as int, next)
    ensures Accumulating(input, i + 1, result + Sextets(next, bits + 8), next, (bits + 8) % 6)
  {
    hide Symbol, Encode, Sextets;
    if i % 3 == 0 {
      assert i / 3 * 3 == i;
      FirstOfThree(input, i, next);
    } else if i % 3 == 1 {
      SecondOfThree(input, i, result, acc, next);
    } else {
      ThirdOfThree(input, i, result, acc, next);
    }
  }

  /** What the flush and the padding add is what the last, short block is encoded to. */
  lemma FlushRest(input: Str, result: Str, acc: nat, bits: nat)
    requires Accumulating(input, |input|, result, acc, bits)
    ensures bits in {0, 2, 4}
    ensures bits == 0 ==> Encode(input) == result
    ensures bits == 2 ==> Encode(input) == result + [Symbol(acc * 16 % 64)] + "=="
    ensures bits == 4 ==> Encode(input) == result + [Symbol(acc * 4 % 64)] + "="
    ensures |Encode(input)| % 4 == 0
  {
    hide Symbol, Encode;
    var n := |input|;
    var front, block := input[..n / 3 * 3], input[n / 3 * 3..];
    TakeAndDrop(input, n / 3 * 3);
    EncodeAppendBlock(front, block);
    EncodeLength(input);
    EncodeLength(front);
    EncodeNil();
    if n % 3 == 1 {
      assert block == [input[n - 1]];
      ShortBlock1(input[n - 1], acc);
    } else if n % 3 == 2 {
      assert block == [input[n - 2], input[n - 1]];
      ShortBlock2(input[n - 2], input[n - 1], acc);
    } else {
      assert block == [];
    }
  }

  lemma {:induction false} EncodeLength(s: Str)
    ensures |Encode(s)| % 4 == 0
  {
    hide Symbol, Group;
    if |s| >= 3 {
      EncodeLength(s[3..]);
    }
  }

  lemma ShortBlock1(a: Byte, acc: nat)
    requires acc % 4 == a as int % 4
    ensures Encode([a]) == [Symbol(a as int / 4), Symbol(acc * 16 % 64), '=', '=']
  {
    hide Symbol, Group;
    QuadGroups(a as int, 0, 0);
    Parts(acc, 4);
    Divides(acc / 4, 64, acc % 4 * 16);
  }

  lemma ShortBlock2(a: Byte, b: Byte, acc: nat)
    requires acc % 16 == b as int % 16
    ensures Encode([a, b])
            == [Symbol(a as int / 4), Symbol(a as int % 4 * 16 + b as int / 16), Symbol(acc * 4 % 64), '=']
  {
    hide Symbol, Group;
    QuadGroups(a as int, b as int, 0);
    LowNibble(acc);
  }

  lemma LowNibble(acc: nat)
    ensures acc * 4 % 64 == acc % 16 * 4
  {
    Parts(acc, 16);
    Divides(acc / 16, 64, acc % 16 * 4);
  }

  lemma AccumulatingNothing(input: Str)
    ensures Accumulating(input, 0, [], 0, 0)
  {
    EncodeNil();
    assert input[..0] == [];
  }

  /** `base64` in playwright.cpp. */
  method EncodeAccumulating(input: Str) returns (result: Str)
    ensures result == Encode(input)
  {
    hide Symbol, Encode, Sextets, Windows, Shifted, Accumulating;
    result := [];
    var accumulator: nat, bits: nat := 0, 0;
    AccumulatingNothing(input);
    for i := 0 to |input|
      invariant Accumulating(input, i, result, accumulator, bits)
    {
      NextWindows(accumulator, input[i] as int);
      AccumulateStep(input, i, result, accumulator, bits, Shifted(accumulator, input[i] as int));
      accumulator := Shifted(accumulator, input[i] as int);
      bits := bits + 8;
      var drained;
      drained, bits := DrainSextets(accumulator, bits);
      result := result + drained;
    }
    FlushRest(input, result, accumulator, bits);
    result := FlushAndPad(result, accumulator, bits);
  }

  /** The two statements after the loop. */
  method FlushAndPad(start: Str, accumulator: nat, bits: nat) returns (result: Str)
    requires bits in {0, 2, 4}
    requires bits == 0 ==> |start| % 4 == 0
    requires bits == 2 ==> |start| % 4 == 1
    requires bits == 4 ==> |start| % 4 == 2
    ensures result == if bits == 0 then start
                      else if bits == 2 then start + [Symbol(accumulator * 16 % 64)] + "=="
                      else start + [Symbol(accumulator * 4 % 64)] + "="
  {
    PowersOfTwo();
    hide Symbol, Pow2, Padding;
    result := start;
    if bits != 0 { result := result + [Symbol(accumulator * Pow2(6 - bits) % 64)]; }
    ghost var flushed, total := result, if bits == 0 then 0 else if bits == 2 then 2 else 1;
    ghost var k := 0;
    Paddings();
    EmptyIsUnit(flushed);
    while |result| % 4 != 0
      invariant k <= total && (|flushed| + total) % 4 == 0
      invariant result == flushed + Padding(k) && |result| == |flushed| + k
      decreases total - k
    {
      Associate(flushed, Padding(k), "=");
      result := result + "=";
      k := k + 1;
    }
  }

  function Padding(k: nat): Str { if k == 0 then [] else Padding(k - 1) + "=" }

  lemma Paddings()
    ensures Padding(0) == [] && Padding(1) == "=" && Padding(2) == "=="
    ensures forall k: nat :: Padding(k + 1) == Padding(k) + "="
  {
  }
}
