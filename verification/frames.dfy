/** WebSocket frames (section 5.2 of RFC 6455): length forms and masking, shared by both implementations. */
module Frames {
  import opened Bytes
  import opened Division
  import opened Wire

  // ----- big-endian lengths -----

  function BE(v: nat, n: nat): (s: Str)
    ensures |s| == n
  {
    if n == 0 then [] else BE(v / 256, n - 1) + [ToByte(v % 256)]
  }

  function ValueBE(s: Str): nat {
    if s == [] then 0 else ValueBE(s[..|s| - 1]) * 256 + s[|s| - 1] as int
  }

  lemma {:induction false} ValueOfBE(v: nat, n: nat)
    requires v < Pow256(n)
    ensures ValueBE(BE(v, n)) == v
  {
    if n > 0 {
      Parts(v, 256);
      ValueOfBE(v / 256, n - 1);
      assert BE(v, n)[..n - 1] == BE(v / 256, n - 1);
    }
  }

  lemma {:induction false} BEOfValue(s: Str)
    ensures BE(ValueBE(s), |s|) == s && ValueBE(s) < Pow256(|s|)
  {
    if s != [] {
      BEOfValue(s[..|s| - 1]);
      Divides(ValueBE(s[..|s| - 1]), 256, s[|s| - 1] as int);
      assert s == s[..|s| - 1] + [s[|s| - 1]];
    }
  }

  lemma Powers()
    ensures Pow256(2) == 0x1_0000 && Pow256(8) == 0x1_0000_0000_0000_0000
  {
    assert Pow256(4) == 0x1_0000_0000;
    assert Pow256(6) == 0x1_0000_0000_0000;
  }

  // ----- the three length forms -----

  const TWO_63: nat := 0x8000_0000_0000_0000

  /** The second byte, whose top bit is `masked`, and the extended length. */
  function LengthWire(size: nat, masked: bool): Str {
    var bit := if masked then 128 else 0;
    if size < 126 then [ToByte(bit + size)]
    else if size <= 65535 then [ToByte(bit + 126)] + BE(size, 2)
    else [ToByte(bit + 127)] + BE(size, 8)
  }

  /** How many bytes of extended length a second byte announces. */
  function ExtendedCount(second: Byte): nat {
    if second as int % 128 == 126 then 2 else if second as int % 128 == 127 then 8 else 0
  }

  /** The length field: mask bit, size, and the rest; any length form is accepted here. */
  function ParseLength(s: Str): Option<(bool, nat, Str)> {
    if s == [] then None
    else
      var n := ExtendedCount(s[0]);
      if |s| < 1 + n then None
      else
        Some((s[0] as int >= 128, if n == 0 then s[0] as int % 128 else ValueBE(s[1..1 + n]), s[1 + n..]))
  }

  lemma LengthReadBack(size: nat, masked: bool, rest: Str)
    requires size < 2 * TWO_63
    ensures ParseLength(LengthWire(size, masked) + rest) == Some((masked, size, rest))
  {
    hide ValueBE, BE;
    Powers();
    var s := LengthWire(size, masked) + rest;
    var n := if size < 126 then 0 else if size <= 65535 then 2 else 8;
    assert ExtendedCount(s[0]) == n;
    assert s[1 + n..] == rest;
    if n > 0 {
      ValueOfBE(size, n);
      assert s[1..1 + n] == BE(size, n);
    }
  }

  /** A size is written in the shortest of the three forms. */
  predicate Shortest(n: nat, size: nat) {
    (n == 2 ==> 126 <= size) && (n == 8 ==> 65536 <= size < TWO_63)
  }

  lemma LengthWriteBack(s: Str)
    requires ParseLength(s).Some? && Shortest(ExtendedCount(s[0]), ParseLength(s).value.1)
    ensures var (masked, size, rest) := ParseLength(s).value; s == LengthWire(size, masked) + rest && size < TWO_63
  {
    Powers();
    var n := ExtendedCount(s[0]);
    var (masked, size, rest) := ParseLength(s).value;
    if n > 0 {
      BEOfValue(s[1..1 + n]);
    }
    assert s == [s[0]] + s[1..1 + n] + rest;
  }

  // ----- masking (section 5.3) -----

  /** The bitwise exclusive or of the `n` low bits. */
  function XorBits(a: nat, b: nat, n: nat): (r: nat)
    ensures r < Pow2(n)
  {
    if n == 0 then 0 else 2 * XorBits(a / 2, b / 2, n - 1) + (a + b) % 2
  }

  lemma {:induction false} XorTwice(a: nat, b: nat, n: nat)
    requires a < Pow2(n)
    ensures XorBits(XorBits(a, b, n), b, n) == a
  {
    if n > 0 {
      XorTwice(a / 2, b / 2, n - 1);
      HalfAndParity(XorBits(a / 2, b / 2, n - 1), a, b);
    }
  }

  lemma HalfAndParity(half: nat, a: nat, b: nat)
    ensures var x := 2 * half + (a + b) % 2; x / 2 == half && (x + b) % 2 == a % 2
    ensures a == 2 * (a / 2) + a % 2
  {
    var parity := (a + b) % 2;
    assert (2 * half + parity) / 2 == half;
    assert (2 * half + parity + b) % 2 == (parity + b) % 2;
    assert (parity + b) % 2 == a % 2;
  }

  lemma EightBits()
    ensures Pow2(8) == 256
  {
    assert Pow2(4) == 16;
  }

  function Xor(a: Byte, b: Byte): Byte {
    EightBits();
    ToByte(XorBits(a as int, b as int, 8))
  }

  type Mask = m: Str | |m| == 4 witness "aaaa"

  function Masked(payload: Str, mask: Mask): (r: Str)
    ensures |r| == |payload|
  {
    seq(|payload|, i requires 0 <= i < |payload| => Xor(payload[i], mask[i % 4]))
  }

  lemma MaskTwice(payload: Str, mask: Mask)
    ensures Masked(Masked(payload, mask), mask) == payload
  {
    forall i | 0 <= i < |payload| ensures Masked(Masked(payload, mask), mask)[i] == payload[i] {
      EightBits();
      XorTwice(payload[i] as int, mask[i % 4] as int, 8);
    }
  }

  // ----- frames -----

  datatype Frame = Frame(final: bool, opcode: nat, payload: Str)

  predicate FrameSane(f: Frame) { f.opcode < 16 && |f.payload| < TWO_63 }

  function FirstByte(f: Frame): Byte {
    ToByte((if f.final then 128 else 0) + f.opcode % 16)
  }

  /** A frame as a server sends it. */
  function FrameWire(f: Frame): Str {
    [FirstByte(f)] + LengthWire(|f.payload|, false) + f.payload
  }

  /** A frame as a client sends it. */
  function MaskedWire(f: Frame, mask: Mask): Str {
    [FirstByte(f)] + LengthWire(|f.payload|, true) + mask + Masked(f.payload, mask)
  }

  // ----- what the bytes of a frame mean -----

  /** Bit `k`, counted from the least significant. */
  predicate Bit(v: nat, k: nat) { v / Pow2(k) % 2 == 1 }

  lemma HalfBit(v: nat, k: nat)
    requires k > 0
    ensures Bit(v, k) <==> Bit(v / 2, k - 1)
  {
    DivTwice(v, 2, Pow2(k - 1));
  }

  lemma LastBit(v: nat)
    ensures Bit(v, 0) <==> v % 2 == 1
  {
    assert Pow2(0) == 1;
  }

  lemma XorHalves(a: nat, b: nat, n: nat)
    requires n > 0
    ensures XorBits(a, b, n) / 2 == XorBits(a / 2, b / 2, n - 1) && XorBits(a, b, n) % 2 == (a + b) % 2
  {
    Divides(XorBits(a / 2, b / 2, n - 1), 2, (a + b) % 2);
  }

  lemma OddSum(a: nat, b: nat)
    ensures (a + b) % 2 == 1 <==> (a % 2 == 1) != (b % 2 == 1)
  {
  }

  lemma {:induction false} XorBit(a: nat, b: nat, n: nat, k: nat)
    requires k < n
    ensures Bit(XorBits(a, b, n), k) <==> (Bit(a, k) != Bit(b, k))
  {
    hide *;
    var x := XorBits(a, b, n);
    XorHalves(a, b, n);
    if k == 0 {
      LastBit(x);
      LastBit(a);
      LastBit(b);
      OddSum(a, b);
    } else {
      HalfBit(x, k);
      HalfBit(a, k);
      HalfBit(b, k);
      XorBit(a / 2, b / 2, n - 1, k - 1);
    }
  }

  predicate DiffersAt(c: Byte, a: Byte, b: Byte, k: nat) { Bit(c as int, k) <==> (Bit(a as int, k) != Bit(b as int, k)) }

  /** `c` has exactly the bits in which `a` and `b` differ. */
  predicate Differs(c: Byte, a: Byte, b: Byte) { forall k :: 0 <= k < 8 ==> DiffersAt(c, a, b, k) }

  /** Masking is the bitwise exclusive or. */
  lemma XorDiffers(a: Byte, b: Byte)
    ensures Differs(Xor(a, b), a, b)
  {
    hide Bit;
    EightBits();
    forall k | 0 <= k < 8 ensures DiffersAt(Xor(a, b), a, b, k) {
      XorBit(a as int, b as int, 8, k);
    }
  }

  /** The digit of `v` to the base 256 that `i` others follow. */
  function Digit(v: nat, i: nat): nat { v / Pow256(i) % 256 }

  /** `s` is `v`, most significant byte first. */
  predicate BigEndian(s: Str, v: nat) {
    v < Pow256(|s|) && forall i :: 0 <= i < |s| ==> s[i] as int == Digit(v, |s| - 1 - i)
  }

  lemma {:induction false} DigitAt(v: nat, n: nat, i: nat)
    requires i < n
    ensures BE(v, n)[i] as int == Digit(v, n - 1 - i)
  {
    if i < n - 1 {
      DigitAt(v / 256, n - 1, i);
      DivTwice(v, 256, Pow256(n - 2 - i));
    } else {
      assert Pow256(0) == 1;
    }
  }

  lemma BEIsBigEndian(v: nat, n: nat)
    requires v < Pow256(n)
    ensures BigEndian(BE(v, n), v)
  {
    hide BE;
    forall i | 0 <= i < n ensures BE(v, n)[i] as int == Digit(v, n - 1 - i) { DigitAt(v, n, i); }
  }

  /** The size in the second byte, or in the two or eight bytes behind it. */
  predicate SizeAt(s: Str, n: nat, size: nat)
    requires |s| >= 2 + n
  {
    var short := s[1] as int % 128;
    if n == 0 then short == size < 126
    else BigEndian(s[2..2 + n], size) && ((n == 2 && short == 126) || (n == 8 && short == 127))
  }

  /** Where in `s` the parts of a frame are, `n` bytes of extended length among them, and what is left behind it. */
  predicate Carries(s: Str, n: nat, f: Frame, mask: Option<Mask>, rest: Str) {
    var at := 2 + n + if mask.Some? then 4 else 0;
    && |s| == at + |f.payload| + |rest| && s[at + |f.payload|..] == rest
    && (Bit(s[0] as int, 7) <==> f.final) && s[0] as int % 16 == f.opcode
    && (Bit(s[1] as int, 7) <==> mask.Some?) && SizeAt(s, n, |f.payload|)
    && (mask.Some? ==> s[2 + n..at] == mask.value)
    && forall i :: 0 <= i < |f.payload| ==>
         if mask.None? then s[at + i] == f.payload[i] else Differs(s[at + i], f.payload[i], mask.value[i % 4])
  }

  /** The length form that is written for a size. */
  function FormOf(size: nat): nat { if size < 126 then 0 else if size <= 65535 then 2 else 8 }

  lemma TopBit(b: Byte)
    ensures Bit(b as int, 7) <==> b as int >= 128
  {
    assert Pow2(4) == 16 && Pow2(7) == 128;
  }

  lemma SizeIsAt(s: Str, size: nat, masked: bool, first: Byte, rest: Str)
    requires size < TWO_63 && s == [first] + LengthWire(size, masked) + rest
    ensures |LengthWire(size, masked)| == 1 + FormOf(size) && SizeAt(s, FormOf(size), size)
    ensures s[0] == first && s[2 + FormOf(size)..] == rest && (s[1] as int >= 128 <==> masked)
  {
    hide BE, BigEndian;
    Powers();
    var n := FormOf(size);
    if n > 0 {
      BEIsBigEndian(size, n);
      assert s[2..2 + n] == BE(size, n);
    }
  }

  /** What a server sends is the frame, in the open. */
  lemma FrameWireCarries(f: Frame, rest: Str)
    requires FrameSane(f)
    ensures Carries(FrameWire(f) + rest, FormOf(|f.payload|), f, None, rest)
    ensures FrameWire(f)[0] as int / 16 % 8 == 0
  {
    var s, first, behind := FrameWire(f) + rest, FirstByte(f), f.payload + rest;
    hide LengthWire, Bit, SizeAt;
    assert s == [first] + LengthWire(|f.payload|, false) + behind;
    SizeIsAt(s, |f.payload|, false, first, behind);
    TopBit(s[0]);
    TopBit(s[1]);
    var at := 2 + FormOf(|f.payload|);
    assert forall i :: 0 <= i < |behind| ==> s[at..][i] == s[at + i];
  }

  /** What a client sends is the frame, each byte of its payload masked. */
  lemma MaskedWireCarries(f: Frame, mask: Mask, rest: Str)
    requires FrameSane(f)
    ensures Carries(MaskedWire(f, mask) + rest, FormOf(|f.payload|), f, Some(mask), rest)
    ensures MaskedWire(f, mask)[0] as int / 16 % 8 == 0
  {
    var s, first, masked := MaskedWire(f, mask) + rest, FirstByte(f), Masked(f.payload, mask);
    var behind := mask + masked + rest;
    hide LengthWire, Bit, SizeAt, Xor, Differs;
    assert s == [first] + LengthWire(|f.payload|, true) + behind;
    SizeIsAt(s, |f.payload|, true, first, behind);
    TopBit(s[0]);
    TopBit(s[1]);
    var h := 2 + FormOf(|f.payload|);
    assert behind[..4] == mask && behind[4..] == masked + rest;
    forall i | 0 <= i < |f.payload| ensures Differs(s[h + 4 + i], f.payload[i], mask[i % 4]) {
      assert s[h + 4 + i] == behind[4 + i] == masked[i];
      XorDiffers(f.payload[i], mask[i % 4]);
    }
  }

  // ----- and nothing else is meant -----

  predicate SameBit(a: nat, b: nat, k: nat) { Bit(a, k) <==> Bit(b, k) }

  /** The bits determine the number. */
  lemma {:induction false} BitsDetermine(a: nat, b: nat, n: nat)
    requires a < Pow2(n) && b < Pow2(n) && forall k :: 0 <= k < n ==> SameBit(a, b, k)
    ensures a == b
  {
    if n > 0 {
      var c, d := a / 2, b / 2;
      forall k | 0 <= k < n - 1 ensures SameBit(c, d, k) {
        assert SameBit(a, b, k + 1);
        HalfBit(a, k + 1);
        HalfBit(b, k + 1);
      }
      BitsDetermine(c, d, n - 1);
      assert Pow2(0) == 1;
      assert SameBit(a, b, 0);
    }
  }

  lemma DiffersIsXor(c: Byte, a: Byte, b: Byte)
    ensures Differs(c, a, b) <==> c == Xor(a, b)
  {
    XorDiffers(a, b);
    if Differs(c, a, b) {
      EightBits();
      hide Bit;
      var x: nat, y: nat := c as int, Xor(a, b) as int;
      forall k | 0 <= k < 8 ensures SameBit(x, y, k) {
        assert DiffersAt(c, a, b, k) && DiffersAt(Xor(a, b), a, b, k);
      }
      BitsDetermine(x, y, 8);
    }
  }

  lemma BigEndianValue(s: Str, v: nat)
    ensures BigEndian(s, v) <==> v == ValueBE(s)
  {
    hide Digit;
    if BigEndian(s, v) {
      forall i | 0 <= i < |s| ensures s[i] == BE(v, |s|)[i] { DigitAt(v, |s|, i); }
      assert s == BE(v, |s|);
      ValueOfBE(v, |s|);
    }
    BEOfValue(s);
    BEIsBigEndian(ValueBE(s), |s|);
  }

  /** The length field that is read is the size that is there. */
  lemma SizeIsRead(s: Str, n: nat, size: nat)
    requires |s| >= 2 + n
    ensures SizeAt(s, n, size) <==>
            n == ExtendedCount(s[1])
            && ParseLength(s[1..]) == Some((s[1] as int >= 128, size, s[2 + n..]))
  {
    hide BigEndian, ValueBE;
    var t := s[1..];
    assert t[0] == s[1] && t[1 + n..] == s[2 + n..];
    BigEndianValue(s[2..2 + n], size);
    assert t[1..1 + n] == s[2..2 + n];
  }

  // ----- a socket: bytes come and go in pieces of any size -----

  /** What a peer that takes `room` more bytes takes of `data`. */
  function Taken(data: Str, room: nat): Str { data[..Min(|data|, room)] }

  class Socket {
    var input: Str
    var output: Str
    /** How many more bytes the peer takes before writing fails. */
    var room: nat

    constructor (input: Str, room: nat)
      ensures this.input == input && output == [] && this.room == room
    {
      this.input := input;
      output := [];
      this.room := room;
    }

    /** `recv`: some of what is still to come; nothing once the stream has ended. */
    method Recv(max: nat) returns (chunk: Str)
      requires max > 0
      modifies this`input
      ensures old(input) == chunk + input && |chunk| <= max
      ensures chunk == [] <==> old(input) == []
    {
      if input == [] { return []; }
      assert 1 <= Min(max, |input|);
      var n :| 1 <= n <= Min(max, |input|);
      chunk := input[..n];
      input := input[n..];
    }

    /** `send`: takes some of what it is offered, or fails. */
    method Send(data: Str) returns (n: nat)
      requires data != []
      modifies this`output, this`room
      ensures n <= |data| && n <= old(room) && (n == 0 <==> old(room) == 0)
      ensures output == old(output) + data[..n] && room == old(room) - n
    {
      if room == 0 { return 0; }
      assert 1 <= Min(|data|, room);
      n :| 1 <= n <= Min(|data|, room);
      output, room := output + data[..n], room - n;
    }

    /** `read_exact`, and the client's `read`: loops until all `size` bytes are there. */
    method ReadExact(size: nat) returns (r: Option<Str>)
      modifies this`input
      ensures if |old(input)| < size then r == None
              else r == Some(old(input)[..size]) && input == old(input)[size..]
    {
      var result: Str := [];
      while |result| < size
        invariant |result| <= size && result + input == old(input)
        decreases size - |result|
      {
        var chunk := Recv(size - |result|);
        if chunk == [] { return None; }
        result := result + chunk;
      }
      assert old(input)[..size] == result && old(input)[size..] == input;
      return Some(result);
    }

    /** `send_all`: everything goes out, or as much as the peer takes. */
    method SendAll(data: Str) returns (ok: bool)
      modifies this`output, this`room
      ensures ok <==> |data| <= old(room)
      ensures output == old(output) + Taken(data, old(room)) && room == old(room) - |Taken(data, old(room))|
    {
      var done := 0;
      while done < |data|
        invariant done <= |data| && done <= old(room)
        invariant output == old(output) + data[..done] && room == old(room) - done
      {
        var n := Send(data[done..]);
        if n == 0 { return false; }
        assert data[..done] + data[done..][..n] == data[..done + n];
        done := done + n;
      }
      return true;
    }
  }
}
