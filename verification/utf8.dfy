/** UTF-8 (sections 3 and 4 of RFC 3629) and the two validators the repository carries. */
module Utf8 {
  import opened Bytes
  import opened Division

  /** A Unicode scalar value: a code point that is not a surrogate. */
  type Scalar = v: nat | v < 0xD800 || 0xE000 <= v < 0x110000 witness 0

  function EncodeScalar(v: Scalar): Str {
    if v < 0x80 then [ToByte(v)]
    else if v < 0x800 then [ToByte(0xC0 + v / 64), ToByte(0x80 + v % 64)]
    else if v < 0x10000 then
      [ToByte(0xE0 + v / 4096), ToByte(0x80 + v / 64 % 64), ToByte(0x80 + v % 64)]
    else
      [ToByte(0xF0 + v / 262144), ToByte(0x80 + v / 4096 % 64), ToByte(0x80 + v / 64 % 64), ToByte(0x80 + v % 64)]
  }

  function Encode(vs: seq<Scalar>): Str {
    if vs == [] then [] else EncodeScalar(vs[0]) + Encode(vs[1..])
  }

  predicate IsContinuation(c: Byte) { 0x80 <= c as int < 0xC0 }

  /** Bytes of the sequence a lead byte announces; 0 for a byte that cannot lead. */
  function LeadLength(c: Byte): nat {
    if c as int < 0x80 then 1
    else if 0xC2 <= c as int <= 0xDF then 2
    else if 0xE0 <= c as int <= 0xEF then 3
    else if 0xF0 <= c as int <= 0xF4 then 4
    else 0
  }

  /** No overlong form, surrogate or value above 0x10FFFF: what the second byte must also satisfy. */
  predicate SecondByteOk(lead: Byte, second: Byte) {
    && (lead as int == 0xE0 ==> 0xA0 <= second as int)
    && (lead as int == 0xED ==> second as int < 0xA0)
    && (lead as int == 0xF0 ==> 0x90 <= second as int)
    && (lead as int == 0xF4 ==> second as int < 0x90)
  }

  /** Whether `s` starts with one well-formed sequence. */
  predicate FrontOk(s: Str) {
    && s != []
    && 0 < LeadLength(s[0]) <= |s|
    && (1 < LeadLength(s[0]) ==> SecondByteOk(s[0], s[1]))
    && forall i :: 1 <= i < LeadLength(s[0]) ==> IsContinuation(s[i])
  }

  predicate IsUtf8(s: Str) {
    s == [] || (FrontOk(s) && IsUtf8(s[LeadLength(s[0])..]))
  }

  lemma FrontAlone(v: Scalar)
    ensures FrontOk(EncodeScalar(v)) && LeadLength(EncodeScalar(v)[0]) == |EncodeScalar(v)|
  {
  }

  lemma FrontEncodes(v: Scalar, rest: Str)
    ensures FrontOk(EncodeScalar(v) + rest)
    ensures LeadLength(EncodeScalar(v)[0]) == |EncodeScalar(v)|
  {
    FrontAlone(v);
    hide EncodeScalar, LeadLength, SecondByteOk;
    var s := EncodeScalar(v);
    assert forall i :: 0 <= i < |s| ==> (s + rest)[i] == s[i];
  }

  /** The scalar value of the well-formed sequence at the front of `s`. */
  function DecodeFront(s: Str): (v: Scalar)
    requires FrontOk(s)
  {
    var a := s[0] as int;
    if LeadLength(s[0]) == 1 then a
    else if LeadLength(s[0]) == 2 then
      (a - 0xC0) * 64 + (s[1] as int - 0x80)
    else if LeadLength(s[0]) == 3 then
      ((a - 0xE0) * 64 + (s[1] as int - 0x80)) * 64 + (s[2] as int - 0x80)
    else
      (((a - 0xF0) * 64 + (s[1] as int - 0x80)) * 64 + (s[2] as int - 0x80)) * 64 + (s[3] as int - 0x80)
  }

  lemma FrontDecodes2(s: Str)
    requires FrontOk(s) && LeadLength(s[0]) == 2
    ensures EncodeScalar(DecodeFront(s)) == s[..2]
  {
    Divides(s[0] as int - 0xC0, 64, s[1] as int - 0x80);
    assert s[..2] == [s[0], s[1]];
  }

  lemma FrontDecodes3(s: Str)
    requires FrontOk(s) && LeadLength(s[0]) == 3
    ensures EncodeScalar(DecodeFront(s)) == s[..3]
  {
    FourDigits(0, s[0] as int - 0xE0, s[1] as int - 0x80, s[2] as int - 0x80);
    assert s[..3] == [s[0], s[1], s[2]];
  }

  lemma FrontDecodes4(s: Str)
    requires FrontOk(s) && LeadLength(s[0]) == 4
    ensures EncodeScalar(DecodeFront(s)) == s[..4]
  {
    FourDigits(s[0] as int - 0xF0, s[1] as int - 0x80, s[2] as int - 0x80, s[3] as int - 0x80);
    assert s[..4] == [s[0], s[1], s[2], s[3]];
  }

  /** Decoding the front sequence and encoding it again gives its bytes back. */
  lemma FrontDecodes(s: Str)
    requires FrontOk(s)
    ensures EncodeScalar(DecodeFront(s)) == s[..LeadLength(s[0])]
  {
    if LeadLength(s[0]) == 2 {
      FrontDecodes2(s);
    } else if LeadLength(s[0]) == 3 {
      FrontDecodes3(s);
    } else if LeadLength(s[0]) == 4 {
      FrontDecodes4(s);
    }
  }

  lemma {:induction false} EncodingIsUtf8(vs: seq<Scalar>)
    ensures IsUtf8(Encode(vs))
  {
    if vs != [] {
      EncodingIsUtf8(vs[1..]);
      FrontEncodes(vs[0], Encode(vs[1..]));
      assert Encode(vs)[|EncodeScalar(vs[0])|..] == Encode(vs[1..]);
    }
  }

  function Decode(s: Str): (vs: seq<Scalar>)
    requires IsUtf8(s)
    ensures Encode(vs) == s
  {
    if s == [] then []
    else
      var n := LeadLength(s[0]);
      FrontDecodes(s);
      assert s == s[..n] + s[n..];
      [DecodeFront(s)] + Decode(s[n..])
  }

  /** The front test, iterated, accepts exactly the encodings of sequences of scalar values. */
  lemma AcceptsExactlyTheEncodings(s: Str)
    ensures IsUtf8(s) <==> exists vs: seq<Scalar> :: Encode(vs) == s
  {
    if IsUtf8(s) {
      assert Encode(Decode(s)) == s;
    }
    forall vs: seq<Scalar> | Encode(vs) == s ensures IsUtf8(s) {
      EncodingIsUtf8(vs);
    }
  }

  lemma {:induction false} Utf8Append(a: Str, b: Str)
    requires IsUtf8(a)
    ensures IsUtf8(a + b) <==> IsUtf8(b)
  {
    if a == [] {
      assert a + b == b;
    } else {
      var n := LeadLength(a[0]);
      Utf8Append(a[n..], b);
      assert (a + b)[n..] == a[n..] + b;
    }
  }

  /** What the JSON-RPC module's reader accumulates from the lead byte and `k` continuation bytes. */
  function Accumulated(s: Str, k: nat): nat
    requires k < |s| && forall i :: 1 <= i <= k ==> IsContinuation(s[i])
  {
    if k == 0 then s[0] as int % (if s[0] as int < 0xE0 then 32 else if s[0] as int < 0xF0 then 16 else 8)
    else Accumulated(s, k - 1) * 64 + s[k] as int % 64
  }

  predicate InRange(v: nat, minimum: nat) { minimum <= v <= 0x10FFFF && !(0xD800 <= v <= 0xDFFF) }

  lemma RangeOfTwo(s: Str)
    requires |s| >= 2 && LeadLength(s[0]) == 2 && IsContinuation(s[1])
    ensures FrontOk(s) && InRange(DecodeFront(s), 0x80) && Accumulated(s, 1) == DecodeFront(s)
  {
  }

  lemma RangeOfThree(s: Str)
    requires |s| >= 3 && LeadLength(s[0]) == 3 && IsContinuation(s[1]) && IsContinuation(s[2])
    ensures FrontOk(s) <==> InRange(Accumulated(s, 2), 0x800)
    ensures FrontOk(s) ==> Accumulated(s, 2) == DecodeFront(s)
  {
    assert Accumulated(s, 1) == (s[0] as int - 0xE0) * 64 + (s[1] as int - 0x80);
    assert Accumulated(s, 2) == Accumulated(s, 1) * 64 + (s[2] as int - 0x80);
  }

  lemma RangeOfFour(s: Str)
    requires |s| >= 4 && LeadLength(s[0]) == 4 && forall i :: 1 <= i < 4 ==> IsContinuation(s[i])
    ensures FrontOk(s) <==> InRange(Accumulated(s, 3), 0x10000)
    ensures FrontOk(s) ==> Accumulated(s, 3) == DecodeFront(s)
  {
    assert Accumulated(s, 1) == (s[0] as int - 0xF0) * 64 + (s[1] as int - 0x80);
    assert Accumulated(s, 2) == Accumulated(s, 1) * 64 + (s[2] as int - 0x80);
    assert Accumulated(s, 3) == Accumulated(s, 2) * 64 + (s[3] as int - 0x80);
  }

  /** Its range tests on the value agree with the range tests on the second byte. */
  lemma RangeTestsAgree(s: Str)
    requires s != [] && 1 < LeadLength(s[0]) <= |s|
    requires forall i :: 1 <= i < LeadLength(s[0]) ==> IsContinuation(s[i])
    ensures var n := LeadLength(s[0]);
            var v := Accumulated(s, n - 1);
            var minimum := if n == 2 then 0x80 else if n == 3 then 0x800 else 0x10000;
            && (FrontOk(s) <==> InRange(v, minimum))
            && (FrontOk(s) ==> v == DecodeFront(s))
  {
    hide FrontOk, DecodeFront, Accumulated, InRange;
    var n := LeadLength(s[0]);
    assert IsContinuation(s[1]);
    if n == 2 {
      RangeOfTwo(s);
    } else if n == 3 {
      RangeOfThree(s);
    } else {
      RangeOfFour(s);
    }
  }

  /** Reads one scalar value at `position`, with every test of the JSON-RPC module's reader. */
  method Utf8Scalar(bytes: Str, position: nat) returns (r: Option<(Scalar, nat)>)
    requires position < |bytes|
    ensures r.Some? <==> FrontOk(bytes[position..])
    ensures r.Some? ==> r.value == (DecodeFront(bytes[position..]), position + LeadLength(bytes[position]))
  {
    ghost var front := bytes[position..];
    var first := bytes[position] as int;
    var next := position + 1;
    if first < 0x80 { return Some((first, next)); }
    var count: nat, value: nat, minimum: nat;
    if 0xC2 <= first <= 0xDF { count, value, minimum := 1, first % 32, 0x80; }
    else if 0xE0 <= first <= 0xEF { count, value, minimum := 2, first % 16, 0x800; }
    else if 0xF0 <= first <= 0xF4 { count, value, minimum := 3, first % 8, 0x10000; }
    else { return None; }
    if count > |bytes| - next { return None; }
    for i := 0 to count
      invariant next == position + 1 + i
      invariant forall k :: 1 <= k <= i ==> IsContinuation(front[k])
      invariant value == Accumulated(front, i)
    {
      assert bytes[next] == front[i + 1];
      if !IsContinuation(bytes[next]) { return None; }
      value := value * 64 + bytes[next] as int % 64;
      next := next + 1;
    }
    RangeTestsAgree(front);
    if value < minimum || value > 0x10FFFF || 0xD800 <= value <= 0xDFFF { return None; }
    return Some((value, next));
  }

  /** The JSON-RPC module's validator accepts exactly UTF-8. */
  method ValidateUtf8(bytes: Str) returns (ok: bool)
    ensures ok <==> IsUtf8(bytes)
  {
    var position := 0;
    while position < |bytes|
      invariant 0 <= position <= |bytes|
      invariant IsUtf8(bytes) <==> IsUtf8(bytes[position..])
    {
      var scalar := Utf8Scalar(bytes, position);
      if scalar.None? { return false; }
      assert bytes[position..][LeadLength(bytes[position])..] == bytes[scalar.value.1..];
      position := scalar.value.1;
    }
    return true;
  }
}
