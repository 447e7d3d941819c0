/** The server's side of the WebSocket (src/core/playwright.cpp). */
module WebSocketServer {
  import opened Bytes
  import opened Frames

  const MAX_PAYLOAD: nat := 64 * 1024 * 1024

  /** The payload after the length field, unmasked if need be. */
  function ParseBody(s: Str, masked: bool, size: nat): Option<(Str, Str)> {
    if |s| < (if masked then 4 else 0) + size then None
    else if masked then
      var mask: Mask := s[..4];
      Some((Masked(s[4..][..size], mask), s[4..][size..]))
    else Some((s[..size], s[size..]))
  }

  /** What `read_frame` takes off a stream: opcode, payload and what follows. It ignores the final bit. */
  function ParseAnyFrame(s: Str): Option<(nat, Str, Str)> {
    if s == [] then None
    else
      var (masked, size, s1) :- ParseLength(s[1..]);
      if size > MAX_PAYLOAD then None
      else
        var (payload, rest) :- ParseBody(s1, masked, size);
        Some((s[0] as int % 16, payload, rest))
  }

  /** `write_frame`. */
  method WriteFrame(socket: Socket, opcode: Byte, payload: Str) returns (ok: bool)
    requires |payload| < TWO_63
    modifies socket`output, socket`room
    ensures var wire := FrameWire(Frame(true, opcode as int % 16, payload));
            (ok <==> |wire| <= old(socket.room))
            && socket.output == old(socket.output) + Taken(wire, old(socket.room))
            && socket.room == old(socket.room) - |Taken(wire, old(socket.room))|
            && Carries(wire, FormOf(|payload|), Frame(true, opcode as int % 16, payload), None, [])
  {
    FrameWireCarries(Frame(true, opcode as int % 16, payload), []);
    EmptyIsUnit(FrameWire(Frame(true, opcode as int % 16, payload)));
    hide Carries;
    var frame: Str := [ToByte(128 + opcode as int % 16)];
    if |payload| < 126 {
      frame := frame + [ToByte(|payload|)];
    } else if |payload| <= 0xFFFF {
      frame := frame + [ToByte(126)];
      frame := frame + [ToByte(|payload| / 256 % 256), ToByte(|payload| % 256)];
      TwoBytes(|payload|);
    } else {
      frame := frame + [ToByte(127)];
      var extended := WriteEightBytes(|payload|);
      frame := frame + extended;
    }
    assert frame == [FirstByte(Frame(true, opcode as int % 16, payload))] + LengthWire(|payload|, false);
    frame := frame + payload;
    ok := socket.SendAll(frame);
  }

  lemma TwoBytes(v: nat)
    ensures BE(v, 2) == [ToByte(v / 256 % 256), ToByte(v % 256)]
  {
    assert BE(v / 256, 1) == BE(v / 256 / 256, 0) + [ToByte(v / 256 % 256)];
  }

  /** The shift loop of the eight-byte form. */
  method WriteEightBytes(v: nat) returns (s: Str)
    ensures s == BE(v, 8)
  {
    s := [];
    var rest := v;
    for i := 0 to 8
      invariant BE(rest, 8 - i) + s == BE(v, 8)
    {
      assert BE(rest, 8 - i) == BE(rest / 256, 7 - i) + [ToByte(rest % 256)];
      assert (BE(rest / 256, 7 - i) + [ToByte(rest % 256)]) + s == BE(rest / 256, 7 - i) + ([ToByte(rest % 256)] + s);
      s := [ToByte(rest % 256)] + s;
      rest := rest / 256;
    }
    assert [] + s == s;
  }

  /** The value of an extended length, byte by byte. */
  method FoldBytes(extended: Str) returns (value: nat)
    ensures value == ValueBE(extended)
  {
    value := 0;
    for i := 0 to |extended|
      invariant value == ValueBE(extended[..i])
    {
      assert extended[..i + 1][..i] == extended[..i];
      value := value * 256 + extended[i] as int;
    }
    assert extended[..|extended|] == extended;
  }

  /** Mask bit and size, from the second header byte on; shared shape of both readers' length handling. */
  method ReadLength(socket: Socket, second: Byte) returns (size: Option<nat>)
    modifies socket`input
    ensures match ParseLength([second] + old(socket.input))
            case None => size == None
            case Some((masked, n, rest)) =>
              size == Some(n) && socket.input == rest && masked == (second as int >= 128)
  {
    var n := second as int % 128;
    if n == 126 || n == 127 {
      var extended := socket.ReadExact(if n == 126 then 2 else 8);
      if extended.None? { return None; }
      n := FoldBytes(extended.value);
      assert ([second] + old(socket.input))[1..1 + ExtendedCount(second)] == extended.value;
    }
    assert ([second] + old(socket.input))[1 + ExtendedCount(second)..] == socket.input;
    return Some(n);
  }

  /** `read_frame`. */
  method ReadFrame(socket: Socket) returns (r: Option<(nat, Str)>)
    modifies socket`input
    ensures match ParseAnyFrame(old(socket.input))
            case None => r == None
            case Some((opcode, payload, rest)) => r == Some((opcode, payload)) && socket.input == rest
    ensures r.Some? ==> CarriesAny(old(socket.input), r.value.0, r.value.1, socket.input)
  {
    hide ParseLength, Masked, CarriesAny;
    ghost var all := socket.input;
    if ParseAnyFrame(all).Some? {
      var (opcode, payload, rest) := ParseAnyFrame(all).value;
      ReadsExactly(all, opcode, payload, rest);
    }
    var header := socket.ReadExact(2);
    if header.None? {
      ShortFrame(all);
      return None;
    }
    var opcode := header.value[0] as int % 16;
    var masked := header.value[1] as int >= 128;
    assert all[1..] == [header.value[1]] + socket.input;
    var size := ReadLength(socket, header.value[1]);
    if size.None? || size.value > MAX_PAYLOAD { return None; }
    var payload := ReadBody(socket, masked, size.value);
    if payload.None? { return None; }
    return Some((opcode, payload.value));
  }

  method ReadBody(socket: Socket, masked: bool, size: nat) returns (r: Option<Str>)
    modifies socket`input
    ensures match ParseBody(old(socket.input), masked, size)
            case None => r == None
            case Some((payload, rest)) => r == Some(payload) && socket.input == rest
  {
    hide Masked;
    var mask: Mask := "\0\0\0\0";
    if masked {
      var read := socket.ReadExact(4);
      if read.None? { return None; }
      mask := read.value;
    }
    var payload := socket.ReadExact(size);
    if payload.None? { return None; }
    if masked {
      var unmasked := Unmask(payload.value, mask);
      return Some(unmasked);
    }
    return payload;
  }

  lemma ShortFrame(s: Str)
    ensures |s| < 2 ==> ParseAnyFrame(s).None?
  {
  }

  /** The unmasking loop, in place over the payload. */
  method Unmask(payload: Str, mask: Mask) returns (r: Str)
    ensures r == Masked(payload, mask)
  {
    r := payload;
    for i := 0 to |payload|
      invariant |r| == |payload|
      invariant forall k :: 0 <= k < i ==> r[k] == Xor(payload[k], mask[k % 4])
      invariant forall k :: i <= k < |payload| ==> r[k] == payload[k]
    {
      r := r[i := Xor(r[i], mask[i % 4])];
    }
  }

  lemma MaskedBody(payload: Str, mask: Mask, rest: Str)
    ensures ParseBody(mask + Masked(payload, mask) + rest, true, |payload|) == Some((payload, rest))
  {
    MaskTwice(payload, mask);
    var hidden := Masked(payload, mask);
    hide Masked;
    var s := mask + hidden + rest;
    assert s[..4] == mask && s[4..] == hidden + rest;
    assert (hidden + rest)[..|payload|] == hidden && (hidden + rest)[|payload|..] == rest;
  }

  /** The server recovers opcode and payload from every client frame it has room for, under every mask. */
  lemma ReadsEveryClientFrame(f: Frame, mask: Mask, rest: Str)
    requires FrameSane(f)
    ensures ParseAnyFrame(MaskedWire(f, mask) + rest)
            == if |f.payload| <= MAX_PAYLOAD then Some((f.opcode, f.payload, rest)) else None
  {
    var body := mask + Masked(f.payload, mask) + rest;
    LengthReadBack(|f.payload|, true, body);
    MaskedBody(f.payload, mask, rest);
    assert FirstByte(f) as int % 16 == f.opcode;
    hide LengthWire, Masked, ParseLength, ParseBody, FirstByte;
    RegroupFrame([FirstByte(f)], LengthWire(|f.payload|, true), mask, Masked(f.payload, mask), rest);
    var s := MaskedWire(f, mask) + rest;
    assert s[1..] == LengthWire(|f.payload|, true) + body;
  }

  lemma RegroupFrame(a: Str, b: Str, c: Str, d: Str, e: Str)
    ensures a + b + c + d + e == a + (b + (c + d + e))
  {
  }

  // ----- what is read is what the bytes carry -----

  /** A frame in front of the stream, under any mask or none and in any length form. */
  ghost predicate CarriesAny(s: Str, opcode: nat, payload: Str, rest: Str) {
    exists n: nat, final: bool, mask: Option<Mask> :: Carries(s, n, Frame(final, opcode, payload), mask, rest)
  }

  lemma BodyIsRead(s: Str, n: nat, f: Frame, mask: Option<Mask>, rest: Str)
    requires Carries(s, n, f, mask, rest)
    ensures ParseBody(s[2 + n..], mask.Some?, |f.payload|) == Some((f.payload, rest))
  {
    hide Differs, Bit, SizeAt, Xor;
    var body := s[2 + n..];
    if mask.Some? {
      var wire := body[4..][..|f.payload|];
      assert body[..4] == mask.value && body[4..][|f.payload|..] == rest;
      forall i | 0 <= i < |f.payload| ensures wire[i] == Xor(f.payload[i], mask.value[i % 4]) {
        DiffersIsXor(s[2 + n + 4 + i], f.payload[i], mask.value[i % 4]);
        assert wire[i] == s[2 + n + 4 + i];
      }
      assert wire == Masked(f.payload, mask.value);
      MaskTwice(f.payload, mask.value);
    } else {
      assert body[..|f.payload|] == f.payload && body[|f.payload|..] == rest;
    }
  }

  lemma BodyIsCarried(s: Str, n: nat, masked: bool, size: nat, payload: Str, rest: Str) returns (mask: Option<Mask>)
    requires |s| >= 2 + n && ParseBody(s[2 + n..], masked, size) == Some((payload, rest))
    requires SizeAt(s, n, size) && (Bit(s[1] as int, 7) <==> masked)
    ensures Carries(s, n, Frame(Bit(s[0] as int, 7), s[0] as int % 16, payload), mask, rest)
  {
    hide Differs, Bit, SizeAt, Xor;
    var body := s[2 + n..];
    if masked {
      var m: Mask := body[..4];
      var wire := body[4..][..size];
      mask := Some(m);
      MaskTwice(wire, m);
      forall i | 0 <= i < size ensures Differs(s[2 + n + 4 + i], payload[i], m[i % 4]) {
        assert s[2 + n + 4 + i] == wire[i] == Xor(payload[i], m[i % 4]);
        XorDiffers(payload[i], m[i % 4]);
      }
      assert s[2 + n + 4 + size..] == rest && s[2 + n..2 + n + 4] == m;
    } else {
      mask := None;
      assert s[2 + n + size..] == rest;
      assert forall i :: 0 <= i < size ==> payload[i] == body[i] == s[2 + n + i];
    }
  }

  /** The server takes a frame off the stream exactly when one is in front of it, and no larger than it allows. */
  lemma ReadsExactly(s: Str, opcode: nat, payload: Str, rest: Str)
    ensures ParseAnyFrame(s) == Some((opcode, payload, rest))
            <==> |payload| <= MAX_PAYLOAD && CarriesAny(s, opcode, payload, rest)
  {
    hide Differs, Bit, SizeAt, Xor, ParseLength, ParseBody, Carries;
    if ParseAnyFrame(s) == Some((opcode, payload, rest)) {
      var (masked, size, s1) := ParseLength(s[1..]).value;
      var n := LengthThere(s);
      SizeIsRead(s, n, size);
      TopBit(s[1]);
      SizeOfBody(s1, masked, size);
      var mask := BodyIsCarried(s, n, masked, size, payload, rest);
    }
    if |payload| <= MAX_PAYLOAD && CarriesAny(s, opcode, payload, rest) {
      var n: nat, final: bool, mask: Option<Mask> :| Carries(s, n, Frame(final, opcode, payload), mask, rest);
      CarriedHeader(s, n, Frame(final, opcode, payload), mask, rest);
      SizeIsRead(s, n, |payload|);
      TopBit(s[1]);
      BodyIsRead(s, n, Frame(final, opcode, payload), mask, rest);
    }
  }

  lemma SizeOfBody(s: Str, masked: bool, size: nat)
    ensures ParseBody(s, masked, size).Some? ==> |ParseBody(s, masked, size).value.0| == size
  {
    hide Xor;
  }

  lemma LengthThere(s: Str) returns (n: nat)
    requires s != [] && ParseLength(s[1..]).Some?
    ensures |s| >= 2 + n && n == ExtendedCount(s[1])
    ensures ParseLength(s[1..]).value.0 == (s[1] as int >= 128) && ParseLength(s[1..]).value.2 == s[2 + n..]
  {
    n := ExtendedCount(s[1]);
    assert s[1..][0] == s[1] && s[1..][1 + n..] == s[2 + n..];
  }

  lemma CarriedHeader(s: Str, n: nat, f: Frame, mask: Option<Mask>, rest: Str)
    requires Carries(s, n, f, mask, rest)
    ensures |s| >= 2 + n && SizeAt(s, n, |f.payload|) && s[0] as int % 16 == f.opcode
    ensures Bit(s[1] as int, 7) <==> mask.Some?
  {
    hide Differs, Bit, SizeAt;
  }
}
