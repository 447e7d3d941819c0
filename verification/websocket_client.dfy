/** The client's side of the WebSocket (`SocketWebSocket` in src/core/network_client.cpp). */
module WebSocketClient {
  import opened Bytes
  import opened Division
  import opened Utf8
  import opened Frames
  import opened WebSocketServer

  const MAX_FRAMES: nat := 4096

  // ----- what `receive` does with the stream, frame by frame -----

  datatype Header = Header(final: bool, opcode: nat, size: nat)

  /** Reserved bits clear, the length not masked and in its shortest form. */
  function ParseHeader(s: Str): Result<(Header, Str)> {
    if |s| < 2 then Failure(NetworkError)
    else if s[0] as int / 16 % 8 != 0 || s[1] as int >= 128 then Failure(ParseError)
    else
      match ParseLength(s[1..])
      case None => Failure(NetworkError)
      case Some((masked, size, rest)) =>
        if Shortest(ExtendedCount(s[1]), size) then Success((Header(s[0] as int >= 128, s[0] as int % 16, size), rest))
        else Failure(ParseError)
  }

  /** Control frames are whole and short; nothing goes over the limit, one frame or the message so far. */
  function Objection(h: Header, limit: nat, have: nat): Option<ErrorCode>
    requires have <= limit
  {
    if h.opcode >= 8 && (!h.final || h.size > 125) then Some(ParseError)
    else if h.size > limit || (h.opcode < 8 && h.size > limit - have) then Some(ResourceLimit)
    else None
  }

  datatype Turn =
    | Stop(error: ErrorCode)
    | Continue(message: Str, started: bool, rest: Str, ping: Option<Str>)
    | Done(message: Str, rest: Str)

  /** One turn of the receive loop. */
  function TakeTurn(s: Str, limit: nat, message: Str, started: bool): Turn
    requires |message| <= limit
  {
    match ParseHeader(s)
    case Failure(error) => Stop(error)
    case Success((h, body)) =>
      match Objection(h, limit, |message|)
      case Some(error) => Stop(error)
      case None =>
        if |body| < h.size then Stop(NetworkError) else Deliver(h, body[..h.size], body[h.size..], message, started)
  }

  /** What becomes of a payload. */
  function Deliver(h: Header, payload: Str, rest: Str, message: Str, started: bool): Turn {
    if h.opcode == 8 then Stop(NetworkError)
    else if h.opcode == 9 then Continue(message, started, rest, Some(payload))
    else if h.opcode == 10 then Continue(message, started, rest, None)
    else if h.opcode != (if started then 0 else 1) then Stop(ParseError)
    else if !h.final then Continue(message + payload, true, rest, None)
    else if IsUtf8(message + payload) then Done(message + payload, rest)
    else Stop(ParseError)
  }

  datatype Received = Received(message: Result<Str>, rest: Str, pings: seq<Str>)

  /** The whole loop, with `left` turns to go; on success also what is left of the stream and what was pinged. */
  function Receive(s: Str, limit: nat, message: Str, started: bool, left: nat): Received
    requires |message| <= limit
  {
    if left == 0 then Received(Failure(ResourceLimit), s, [])
    else
      match TakeTurn(s, limit, message, started)
      case Stop(error) => Received(Failure(error), s, [])
      case Done(whole, rest) => Received(Success(whole), rest, [])
      case Continue(message', started', rest, ping) =>
        var r := Receive(rest, limit, message', started', left - 1);
        r.(pings := (if ping.Some? then [ping.value] else []) + r.pings)
  }

  // ----- conversations -----

  predicate IsControl(f: Frame) { f.opcode == 9 || f.opcode == 10 }

  /**
   * A fragmented text message interleaved with pings and pongs (sections 5.4 and 5.5): whole control frames of at most
   * 125 bytes anywhere; data frames with opcode 1 first and 0 after, of which only the last, ending it all, is final.
   */
  predicate Conversation(fs: seq<Frame>, limit: nat, have: nat, started: bool) {
    && fs != []
    && FrameSane(fs[0]) && |fs[0].payload| <= limit
    && if IsControl(fs[0]) then
         fs[0].final && |fs[0].payload| <= 125 && Conversation(fs[1..], limit, have, started)
       else
         && fs[0].opcode == (if started then 0 else 1)
         && have + |fs[0].payload| <= limit
         && if fs[0].final then |fs| == 1 else Conversation(fs[1..], limit, have + |fs[0].payload|, true)
  }

  function Text(fs: seq<Frame>): Str {
    if fs == [] then [] else (if IsControl(fs[0]) then [] else fs[0].payload) + Text(fs[1..])
  }

  function Pings(fs: seq<Frame>): seq<Str> {
    if fs == [] then [] else (if fs[0].opcode == 9 then [fs[0].payload] else []) + Pings(fs[1..])
  }

  function WireAll(fs: seq<Frame>): Str {
    if fs == [] then [] else FrameWire(fs[0]) + WireAll(fs[1..])
  }

  lemma HeaderReadBack(f: Frame, rest: Str)
    requires FrameSane(f)
    ensures ParseHeader(FrameWire(f) + rest) == Success((Header(f.final, f.opcode, |f.payload|), f.payload + rest))
  {
    var body := f.payload + rest;
    var s := FrameWire(f) + rest;
    LengthReadBack(|f.payload|, false, body);
    RegroupWire([FirstByte(f)], LengthWire(|f.payload|, false), f.payload, rest);
    assert s[1..] == LengthWire(|f.payload|, false) + body;
    FirstByteParts(f);
    hide ParseLength;
  }

  lemma RegroupWire(a: Str, b: Str, c: Str, d: Str)
    ensures a + b + c + d == a + (b + (c + d))
  {
  }

  lemma FirstByteParts(f: Frame)
    requires FrameSane(f)
    ensures var b := FirstByte(f) as int; b / 16 % 8 == 0 && b % 16 == f.opcode && (b >= 128 <==> f.final)
  {
  }

  lemma FirstAndRest(s: Str)
    requires s != []
    ensures s == [s[0]] + s[1..]
  {
  }

  lemma FirstByteBack(c: Byte, payload: Str)
    requires c as int / 16 % 8 == 0
    ensures FirstByte(Frame(c as int >= 128, c as int % 16, payload)) == c
  {
    Parts(c as int, 16);
    Parts(c as int / 16, 8);
  }

  lemma HeaderWriteBack(s: Str)
    requires ParseHeader(s).Success?
    ensures var (h, body) := ParseHeader(s).value;
            h.size <= |body| ==>
              var f := Frame(h.final, h.opcode, body[..h.size]);
              FrameSane(f) && s == FrameWire(f) + body[h.size..]
  {
    LengthWriteBack(s[1..]);
    hide ParseLength, LengthWire, ExtendedCount, Shortest, FirstByte;
    var (h, body) := ParseHeader(s).value;
    if h.size <= |body| {
      var f := Frame(h.final, h.opcode, body[..h.size]);
      TakeAndDrop(body, h.size);
      FirstAndRest(s);
      FirstByteBack(s[0], f.payload);
      RegroupWire([FirstByte(f)], LengthWire(h.size, false), f.payload, body[h.size..]);
    }
  }

  function HeaderOf(f: Frame): Header { Header(f.final, f.opcode, |f.payload|) }

  lemma TurnOnFrame(f: Frame, later: Str, limit: nat, message: Str, started: bool)
    requires FrameSane(f) && |message| <= limit && Objection(HeaderOf(f), limit, |message|) == None
    ensures TakeTurn(FrameWire(f) + later, limit, message, started)
            == Deliver(HeaderOf(f), f.payload, later, message, started)
  {
    HeaderReadBack(f, later);
    hide ParseHeader, FrameWire, Deliver;
    var body := f.payload + later;
    assert body[..|f.payload|] == f.payload && body[|f.payload|..] == later;
  }

  lemma TurnHasFrame(s: Str, limit: nat, message: Str, started: bool) returns (f: Frame, later: Str)
    requires |message| <= limit && !TakeTurn(s, limit, message, started).Stop?
    ensures FrameSane(f) && s == FrameWire(f) + later && Objection(HeaderOf(f), limit, |message|) == None
    ensures TakeTurn(s, limit, message, started) == Deliver(HeaderOf(f), f.payload, later, message, started)
  {
    HeaderWriteBack(s);
    var (h, body) := ParseHeader(s).value;
    hide ParseHeader, FrameWire, Deliver;
    f, later := Frame(h.final, h.opcode, body[..h.size]), body[h.size..];
    assert HeaderOf(f) == h;
  }

  lemma ReceiveStep(s: Str, limit: nat, message: Str, started: bool, left: nat)
    requires |message| <= limit && left > 0
    ensures match TakeTurn(s, limit, message, started)
            case Stop(error) => Receive(s, limit, message, started, left) == Received(Failure(error), s, [])
            case Done(whole, rest) =>
              Receive(s, limit, message, started, left) == Received(Success(whole), rest, [])
            case Continue(message', started', rest, ping) =>
              && |message'| <= limit
              && var r := Receive(rest, limit, message', started', left - 1);
                 Receive(s, limit, message, started, left)
                 == r.(pings := (if ping.Some? then [ping.value] else []) + r.pings)
  {
  }

  lemma WireCons(f: Frame, fs: seq<Frame>, rest: Str)
    ensures WireAll([f] + fs) + rest == FrameWire(f) + (WireAll(fs) + rest)
    ensures Text([f] + fs) == (if IsControl(f) then [] else f.payload) + Text(fs)
    ensures Pings([f] + fs) == (if f.opcode == 9 then [f.payload] else []) + Pings(fs)
  {
    assert ([f] + fs)[1..] == fs;
    hide FrameWire;
  }

  /** `receive` reassembles every conversation within its frame and size limits, and answers its pings in order. */
  lemma {:induction false} Reassembles(fs: seq<Frame>, rest: Str, limit: nat, message: Str, started: bool, left: nat)
    requires |message| <= limit && Conversation(fs, limit, |message|, started)
    requires |fs| <= left && IsUtf8(message + Text(fs))
    ensures Receive(WireAll(fs) + rest, limit, message, started, left)
            == Received(Success(message + Text(fs)), rest, Pings(fs))
    decreases |fs|
  {
    hide *;
    var f, tail := FirstOfConversation(fs, limit, |message|, started);
    WireCons(f, tail, rest);
    if IsControl(f) {
      EmptyIsUnit(Text(tail));
      Reassembles(tail, rest, limit, message, started, left - 1);
      ControlStep(f, tail, rest, limit, message, started, left);
    } else if f.final {
      assert fs == [f];
      LastStep(f, rest, limit, message, started, left);
    } else {
      Associate(message, f.payload, Text(tail));
      Reassembles(tail, rest, limit, message + f.payload, true, left - 1);
      FragmentStep(f, tail, rest, limit, message, started, left);
    }
  }

  /** A conversation taken apart. */
  lemma FirstOfConversation(fs: seq<Frame>, limit: nat, have: nat, started: bool) returns (f: Frame, tail: seq<Frame>)
    requires have <= limit && Conversation(fs, limit, have, started)
    ensures fs == [f] + tail && |fs| == 1 + |tail| && FrameSane(f)
    ensures IsControl(f) ==> Objection(HeaderOf(f), limit, have) == None && Conversation(tail, limit, have, started)
    ensures !IsControl(f) ==>
              && have + |f.payload| <= limit && f.opcode == (if started then 0 else 1)
              && if f.final then tail == [] else Conversation(tail, limit, have + |f.payload|, true)
  {
    f, tail := fs[0], fs[1..];
  }

  lemma ControlStep(f: Frame, tail: seq<Frame>, rest: Str, limit: nat, message: Str, started: bool, left: nat)
    requires |message| <= limit && left > 0 && FrameSane(f) && IsControl(f)
    requires Objection(HeaderOf(f), limit, |message|) == None
    requires Receive(WireAll(tail) + rest, limit, message, started, left - 1)
             == Received(Success(message + Text(tail)), rest, Pings(tail))
    ensures Receive(WireAll([f] + tail) + rest, limit, message, started, left)
            == Received(Success(message + Text([f] + tail)), rest, Pings([f] + tail))
  {
    WireCons(f, tail, rest);
    TurnOnFrame(f, WireAll(tail) + rest, limit, message, started);
    ReceiveStep(FrameWire(f) + (WireAll(tail) + rest), limit, message, started, left);
    hide TakeTurn, Receive, FrameWire, IsUtf8, Text, Pings, WireAll, Objection;
    EmptyIsUnit(Text(tail));
  }

  lemma FragmentStep(f: Frame, tail: seq<Frame>, rest: Str, limit: nat, message: Str, started: bool, left: nat)
    requires |message| + |f.payload| <= limit && left > 0 && FrameSane(f) && !f.final
    requires f.opcode == (if started then 0 else 1)
    requires Receive(WireAll(tail) + rest, limit, message + f.payload, true, left - 1)
             == Received(Success(message + f.payload + Text(tail)), rest, Pings(tail))
    ensures Receive(WireAll([f] + tail) + rest, limit, message, started, left)
            == Received(Success(message + Text([f] + tail)), rest, Pings([f] + tail))
  {
    WireCons(f, tail, rest);
    TurnOnFrame(f, WireAll(tail) + rest, limit, message, started);
    ReceiveStep(FrameWire(f) + (WireAll(tail) + rest), limit, message, started, left);
    hide TakeTurn, Receive, FrameWire, IsUtf8, Text, Pings, WireAll;
    Associate(message, f.payload, Text(tail));
  }

  lemma LastStep(f: Frame, rest: Str, limit: nat, message: Str, started: bool, left: nat)
    requires |message| + |f.payload| <= limit && left > 0 && FrameSane(f) && f.final
    requires f.opcode == (if started then 0 else 1) && IsUtf8(message + Text([f]))
    ensures Receive(WireAll([f]) + rest, limit, message, started, left)
            == Received(Success(message + Text([f])), rest, Pings([f]))
  {
    EmptyTail([], rest);
    WireCons(f, [], rest);
    TurnOnFrame(f, rest, limit, message, started);
    ReceiveStep(FrameWire(f) + rest, limit, message, started, left);
    hide TakeTurn, Receive, FrameWire, IsUtf8, Text, Pings, WireAll;
    assert [f] + [] == [f];
    EmptyIsUnit(f.payload);
  }

  lemma EmptyTail(fs: seq<Frame>, rest: Str)
    requires fs == []
    ensures Text(fs) == [] && Pings(fs) == [] && WireAll(fs) + rest == rest
  {
  }

  /** And nothing else is received: a message comes only from such a conversation. */
  lemma {:induction false} ReceivesOnlyConversations(s: Str, limit: nat, message: Str, started: bool, left: nat)
    returns (fs: seq<Frame>)
    requires |message| <= limit && Receive(s, limit, message, started, left).message.Success?
    ensures Conversation(fs, limit, |message|, started) && |fs| <= left
    ensures var r := Receive(s, limit, message, started, left);
            && r.message == Success(message + Text(fs)) && IsUtf8(message + Text(fs))
            && s == WireAll(fs) + r.rest && r.pings == Pings(fs)
    decreases left
  {
    hide *;
    SuccessTurn(s, limit, message, started, left);
    var turn := TakeTurn(s, limit, message, started);
    if turn.Done? {
      fs := OnlyLast(s, limit, message, started);
    } else {
      var tail := ReceivesOnlyConversations(turn.rest, limit, turn.message, turn.started, left - 1);
      fs := OneMore(s, limit, message, started, tail, Receive(s, limit, message, started, left).rest);
    }
  }

  /** The first turn of a run that ends in a message. */
  lemma SuccessTurn(s: Str, limit: nat, message: Str, started: bool, left: nat)
    requires |message| <= limit && Receive(s, limit, message, started, left).message.Success?
    ensures left > 0 && !TakeTurn(s, limit, message, started).Stop?
    ensures var turn, r := TakeTurn(s, limit, message, started), Receive(s, limit, message, started, left);
            && (turn.Done? ==> r == Received(Success(turn.message), turn.rest, []))
            && (turn.Continue? ==>
                  && |turn.message| <= limit
                  && var r' := Receive(turn.rest, limit, turn.message, turn.started, left - 1);
                     r == r'.(pings := (if turn.ping.Some? then [turn.ping.value] else []) + r'.pings))
  {
  }

  lemma OnlyLast(s: Str, limit: nat, message: Str, started: bool) returns (fs: seq<Frame>)
    requires |message| <= limit && TakeTurn(s, limit, message, started).Done?
    ensures |fs| == 1 && Conversation(fs, limit, |message|, started)
    ensures var turn := TakeTurn(s, limit, message, started);
            && turn.message == message + Text(fs) && IsUtf8(message + Text(fs))
            && s == WireAll(fs) + turn.rest && Pings(fs) == []
  {
    var f, later := TurnHasFrame(s, limit, message, started);
    hide TakeTurn, FrameWire, IsUtf8, Text, Pings, WireAll;
    fs := [f];
    EmptyTail([], later);
    WireCons(f, [], later);
    assert [f] + [] == [f];
    EmptyIsUnit(f.payload);
  }

  lemma OneMore(s: Str, limit: nat, message: Str, started: bool, tail: seq<Frame>, last: Str) returns (fs: seq<Frame>)
    requires |message| <= limit && TakeTurn(s, limit, message, started).Continue?
    requires var turn := TakeTurn(s, limit, message, started);
             |turn.message| <= limit && Conversation(tail, limit, |turn.message|, turn.started)
             && turn.rest == WireAll(tail) + last
    ensures |fs| == 1 + |tail| && Conversation(fs, limit, |message|, started)
    ensures var turn := TakeTurn(s, limit, message, started);
            && turn.message + Text(tail) == message + Text(fs)
            && s == WireAll(fs) + last
            && Pings(fs) == (if turn.ping.Some? then [turn.ping.value] else []) + Pings(tail)
  {
    var f, later := TurnHasFrame(s, limit, message, started);
    hide TakeTurn, FrameWire, IsUtf8, Text, Pings, WireAll, FrameSane, Deliver, Conversation;
    DeliverCases(HeaderOf(f), f.payload, later, message, started);
    NoObjection(HeaderOf(f), limit, |message|);
    ConversationCons(f, tail, limit, |message|, started);
    fs := [f] + tail;
    WireCons(f, tail, last);
    EmptyIsUnit(Text(tail));
    Associate(message, f.payload, Text(tail));
  }

  lemma ConversationCons(f: Frame, tail: seq<Frame>, limit: nat, have: nat, started: bool)
    ensures FrameSane(f) && |f.payload| <= limit
            && (if IsControl(f) then f.final && |f.payload| <= 125 && Conversation(tail, limit, have, started)
                else f.opcode == (if started then 0 else 1) && have + |f.payload| <= limit && !f.final
                     && Conversation(tail, limit, have + |f.payload|, true))
            ==> Conversation([f] + tail, limit, have, started)
  {
    assert ([f] + tail)[1..] == tail;
  }

  /** Any server's whole text message is received exactly when it is UTF-8 and within the limit. */
  lemma ReceivesServerMessages(payload: Str, rest: Str, limit: nat)
    requires |payload| < TWO_63
    ensures var r := Receive(FrameWire(Frame(true, 1, payload)) + rest, limit, [], false, MAX_FRAMES);
            && (r.message == Success(payload) <==> |payload| <= limit && IsUtf8(payload))
            && (r.message == Success(payload) ==> r.rest == rest && r.pings == [])
  {
    var f := Frame(true, 1, payload);
    HeaderReadBack(f, rest);
    ReceiveFirst(FrameWire(f) + rest, limit);
    hide FrameWire, ParseHeader, IsUtf8, Receive;
    assert (payload + rest)[..|payload|] == payload && (payload + rest)[|payload|..] == rest;
    EmptyIsUnit(payload);
  }

  lemma ReceiveFirst(s: Str, limit: nat)
    ensures match TakeTurn(s, limit, [], false)
            case Stop(error) => Receive(s, limit, [], false, MAX_FRAMES).message == Failure(error)
            case Done(whole, rest) => Receive(s, limit, [], false, MAX_FRAMES) == Received(Success(whole), rest, [])
            case Continue(message', started', rest, ping) => true
  {
  }

  /** What the client sends: its pongs, each under a mask of its own. */
  function Pongs(pings: seq<Str>, masks: seq<Mask>): Str
    requires |pings| == |masks|
  {
    if pings == [] then []
    else
      Pongs(pings[..|pings| - 1], masks[..|masks| - 1])
      + MaskedWire(Frame(true, 10, pings[|pings| - 1]), masks[|masks| - 1])
  }

  /** A stream of client frames, as the server reads it. */
  function ServerReads(s: Str, n: nat): Option<(seq<(nat, Str)>, Str)> {
    if n == 0 then Some(([], s))
    else
      var (frames, rest) :- ServerReads(s, n - 1);
      var (opcode, payload, rest') :- ParseAnyFrame(rest);
      Some((frames + [(opcode, payload)], rest'))
  }

  function TenFor(pings: seq<Str>): seq<(nat, Str)> {
    if pings == [] then [] else TenFor(pings[..|pings| - 1]) + [(10, pings[|pings| - 1])]
  }

  /** The server reads one pong for each ping, with its payload, in order. */
  lemma {:induction false} ServerReadsPongs(pings: seq<Str>, masks: seq<Mask>, rest: Str)
    requires |pings| == |masks| && AllShort(pings)
    ensures ServerReads(Pongs(pings, masks) + rest, |pings|) == Some((TenFor(pings), rest))
  {
    hide MaskedWire, ParseAnyFrame;
    if pings == [] {
      EmptyIsUnit(rest);
    } else {
      var n := |pings| - 1;
      var last := MaskedWire(Frame(true, 10, pings[n]), masks[n]);
      ServerReadsPongs(pings[..n], masks[..n], last + rest);
      ReadsEveryClientFrame(Frame(true, 10, pings[n]), masks[n], rest);
      Associate(Pongs(pings[..n], masks[..n]), last, rest);
    }
  }

  // ----- the code -----

  /** The pong that a turn sends. */
  function PongOf(turn: Turn, mask: Mask): Str {
    if turn.Continue? && turn.ping.Some? then MaskedWire(Frame(true, 10, turn.ping.value), mask) else []
  }

  class SocketWebSocket {
    const socket: Socket
    const limit: nat

    constructor (socket: Socket, limit: nat)
      ensures this.socket == socket && this.limit == limit
    {
      this.socket := socket;
      this.limit := limit;
    }

    /** `RAND_bytes`: any four bytes, unless it fails. */
    method RandomMask() returns (mask: Option<Mask>)
    {
      var fails: bool, a: Byte, b: Byte, c: Byte, d: Byte := *, *, *, *, *;
      mask := if fails then None else Some([a, b, c, d]);
    }

    /** The payload loop of `frame`. */
    method MaskPayload(text: Str, mask: Mask) returns (r: Str)
      ensures r == Masked(text, mask)
    {
      r := [];
      for i := 0 to |text|
        invariant |r| == i && forall k :: 0 <= k < i ==> r[k] == Xor(text[k], mask[k % 4])
      {
        r := r + [Xor(text[i], mask[i % 4])];
      }
    }

    /** `frame`; without a mask nothing is written. */
    method SendFrame(opcode: nat, text: Str) returns (thrown: Option<ErrorCode>, ghost mask: Option<Mask>)
      requires opcode < 16 && |text| < TWO_63
      modifies socket`output, socket`room
      ensures mask == None ==>
                thrown == Some(Internal) && socket.output == old(socket.output) && socket.room == old(socket.room)
      ensures mask.Some? ==>
                var wire := MaskedWire(Frame(true, opcode, text), mask.value);
                thrown == (if |wire| <= old(socket.room) then None else Some(NetworkError))
                && socket.output == old(socket.output) + Taken(wire, old(socket.room))
                && socket.room == old(socket.room) - |Taken(wire, old(socket.room))|
                && Carries(wire, FormOf(|text|), Frame(true, opcode, text), mask, [])
    {
      hide Masked, Carries;
      var drawn := RandomMask();
      mask := drawn;
      if drawn.None? { return Some(Internal), None; }
      var random := drawn.value;
      var wire: Str := [ToByte(128 + opcode)];
      if |text| < 126 {
        wire := wire + [ToByte(128 + |text|)];
      } else {
        var count := if |text| <= 65535 then 2 else 8;
        wire := wire + [ToByte(128 + if count == 2 then 126 else 127)];
        var extended := WriteBigEndian(|text|, count);
        wire := wire + extended;
      }
      assert wire == [FirstByte(Frame(true, opcode, text))] + LengthWire(|text|, true);
      wire := wire + random;
      var masked := MaskPayload(text, random);
      wire := wire + masked;
      MaskedWireCarries(Frame(true, opcode, text), random, []);
      EmptyIsUnit(wire);
      var ok := socket.SendAll(wire);
      thrown := if ok then None else Some(NetworkError);
    }

    /** The shift loop for an extended length of `count` bytes. */
    method WriteBigEndian(v: nat, count: nat) returns (s: Str)
      ensures s == BE(v, count)
    {
      s := [];
      var rest := v;
      for i := 0 to count
        invariant BE(rest, count - i) + s == BE(v, count)
      {
        Associate(BE(rest / 256, count - i - 1), [ToByte(rest % 256)], s);
        s := [ToByte(rest % 256)] + s;
        rest := rest / 256;
      }
      EmptyIsUnit(s);
    }

    /** `send`. */
    method SendText(text: Str) returns (thrown: Option<ErrorCode>, ghost mask: Option<Mask>)
      requires limit < TWO_63
      modifies socket`output, socket`room
      ensures mask == None ==> |text| <= limit && IsUtf8(text) && thrown == Some(Internal)
                               && socket.output == old(socket.output)
      ensures mask.Some? ==>
                var wire := MaskedWire(Frame(true, 1, text), mask.value);
                thrown == (if |text| > limit then Some(ResourceLimit)
                           else if !IsUtf8(text) then Some(ParseError)
                           else if |wire| > old(socket.room) then Some(NetworkError)
                           else None)
                && socket.output == old(socket.output) + if |text| > limit || !IsUtf8(text) then []
                                                         else Taken(wire, old(socket.room))
    {
      mask := Some("aaaa");
      if |text| > limit { return Some(ResourceLimit), mask; }
      var valid := ValidateUtf8(text);
      if !valid { return Some(ParseError), mask; }
      thrown, mask := SendFrame(1, text);
    }

    /** The header part of one turn. */
    method ReadHeader() returns (r: Result<Header>)
      modifies socket`input
      ensures match ParseHeader(old(socket.input))
              case Failure(error) => r == Failure(error)
              case Success((h, rest)) => r == Success(h) && socket.input == rest
    {
      ghost var all := socket.input;
      var head := socket.ReadExact(2);
      if head.None? { return Failure(NetworkError); }
      var first, second := head.value[0], head.value[1];
      if first as int / 16 % 8 != 0 || second as int >= 128 { return Failure(ParseError); }
      assert all[1..] == [second] + socket.input;
      var size := ReadLength(socket, second);
      if size.None? { return Failure(NetworkError); }
      var extended := ExtendedCount(second);
      if (extended == 2 && size.value < 126) || (extended == 8 && (size.value < 65536 || size.value >= TWO_63)) {
        return Failure(ParseError);
      }
      return Success(Header(first as int >= 128, first as int % 16, size.value));
    }

    /** One turn of the loop in `receive`; a ping is answered on the way, as far as the peer takes the pong. */
    method OneTurn(message: Str, started: bool) returns (turn: Turn, ghost mask: Option<Mask>)
      requires |message| <= limit
      modifies socket
      ensures var next := TakeTurn(old(socket.input), limit, message, started);
              mask == None ==> next.Continue? && next.ping.Some? && turn == Stop(Internal)
                               && socket.output == old(socket.output) && socket.room == old(socket.room)
      ensures mask.Some? ==>
              var next := TakeTurn(old(socket.input), limit, message, started);
              var pong := PongOf(next, mask.value);
              turn == (if |pong| <= old(socket.room) then next else Stop(NetworkError))
              && socket.output == old(socket.output) + Taken(pong, old(socket.room))
              && socket.room == old(socket.room) - |Taken(pong, old(socket.room))|
      ensures turn.Continue? ==> |turn.message| <= limit
      ensures !turn.Stop? ==> socket.input == turn.rest
    {
      hide ParseHeader, Deliver, IsUtf8, MaskedWire, Objection;
      mask := Some("aaaa");
      EmptyIsUnit(socket.output);
      var header := ReadHeader();
      if header.Failure? { return Stop(header.error), mask; }
      var h := header.value;
      var objection := Object(h, |message|);
      if objection.Some? { return Stop(objection.value), mask; }
      var read := socket.ReadExact(h.size);
      if read.None? { return Stop(NetworkError), mask; }
      var payload := read.value;
      DeliverCases(h, payload, socket.input, message, started);
      NoObjection(h, limit, |message|);
      if h.opcode == 8 { return Stop(NetworkError), mask; }
      if h.opcode == 9 {
        var thrown;
        thrown, mask := SendFrame(10, payload);
        return if thrown.None? then Continue(message, started, socket.input, Some(payload)) else Stop(thrown.value), mask;
      }
      if h.opcode == 10 { return Continue(message, started, socket.input, None), mask; }
      if (h.opcode != 0 && h.opcode != 1) || (h.opcode == 0 && !started) || (h.opcode == 1 && started) {
        return Stop(ParseError), mask;
      }
      if !h.final { return Continue(message + payload, true, socket.input, None), mask; }
      var valid := ValidateUtf8(message + payload);
      return if valid then Done(message + payload, socket.input) else Stop(ParseError), mask;
    }

    /**
     * `receive`: the result is that of the stream, and every ping is answered in order, unless the peer stops taking
     * pongs or a mask cannot be drawn. In the first case `pings` ends with the first ping whose pong did not fit, in the
     * second it ends before the first ping that found no mask.
     */
    method ReceiveText() returns (r: Result<Str>, ghost masks: seq<Mask>, ghost pings: seq<Str>, ghost drawn: bool)
      modifies socket
      ensures |masks| == |pings|
      ensures !drawn ==> r == Failure(Internal) && |Pongs(pings, masks)| <= old(socket.room)
                         && socket.output == old(socket.output) + Pongs(pings, masks)
                         && pings < Receive(old(socket.input), limit, [], false, MAX_FRAMES).pings
      ensures drawn ==>
              var spec, pongs, room := Receive(old(socket.input), limit, [], false, MAX_FRAMES), Pongs(pings, masks),
                                       old(socket.room);
              && socket.output == old(socket.output) + Taken(pongs, room)
              && (if |pongs| <= room then r == spec.message && pings == spec.pings
                  else r == Failure(NetworkError) && AllButLastFit(pings, masks, room) && pings <= spec.pings)
              && (r.Success? ==> socket.input == spec.rest)
    {
      hide TakeTurn, MaskedWire, Receive, Pongs, PongOf, Taken;
      var message: Str, started := [], false;
      masks, pings, drawn := [], [], true;
      NoPongs(socket.output);
      ghost var spec := Receive(socket.input, limit, [], false, MAX_FRAMES);
      for frames := 0 to MAX_FRAMES
        invariant |message| <= limit && |masks| == |pings| && drawn
        invariant socket.output == old(socket.output) + Pongs(pings, masks)
        invariant socket.room == old(socket.room) - |Pongs(pings, masks)|
        invariant var now := Receive(socket.input, limit, message, started, MAX_FRAMES - frames);
                  spec == now.(pings := pings + now.pings)
      {
        ReceiveTurn(socket.input, limit, message, started, MAX_FRAMES - frames, pings);
        ghost var next := TakeTurn(socket.input, limit, message, started);
        var turn, mask := OneTurn(message, started);
        drawn := mask.Some?;
        if drawn {
          AnswerTurn(old(socket.output), old(socket.room), pings, masks, next, mask.value);
          if turn.Stop? && next.Continue? {
            masks, pings := masks + [mask.value], pings + [next.ping.value];
          }
        } else {
          assert pings < pings + [next.ping.value] <= spec.pings;
        }
        match turn {
          case Stop(error) => r := Failure(error); return;
          case Done(whole, rest) => r := Success(whole); return;
          case Continue(message', started', rest, ping) =>
            message, started := message', started';
            if ping.Some? {
              masks, pings := masks + [mask.value], pings + [ping.value];
            }
        }
      }
      OutOfTurns(socket.input, limit, message, started, pings);
      TakesAll(Pongs(pings, masks), old(socket.room));
      r := Failure(ResourceLimit);
    }

    /** The two guards of `receive`; `limit - have` cannot wrap. */
    method Object(h: Header, have: nat) returns (objection: Option<ErrorCode>)
      requires have <= limit
      ensures objection == Objection(h, limit, have)
    {
      if h.opcode >= 8 && (!h.final || h.size > 125) { return Some(ParseError); }
      if h.size > limit || (h.opcode < 8 && h.size > limit - have) { return Some(ResourceLimit); }
      return None;
    }
  }

  lemma NoObjection(h: Header, limit: nat, have: nat)
    requires have <= limit && Objection(h, limit, have) == None
    ensures h.opcode >= 8 ==> h.size <= 125
    ensures h.opcode < 8 ==> have + h.size <= limit
  {
  }

  lemma NoPongs(s: Str)
    ensures s + Pongs([], []) == s && Pongs([], []) == []
  {
  }

  /** The last pong did not fit, the others did. */
  predicate AllButLastFit(pings: seq<Str>, masks: seq<Mask>, room: nat)
    requires |pings| == |masks|
  {
    pings != [] && |Pongs(pings[..|pings| - 1], masks[..|pings| - 1])| <= room < |Pongs(pings, masks)|
  }

  lemma TakesAll(data: Str, room: nat)
    ensures |data| <= room ==> Taken(data, room) == data
    ensures |Taken(data, room)| == Min(|data|, room)
  {
  }

  lemma TakesBoth(a: Str, b: Str, room: nat)
    requires |a| <= room
    ensures a + Taken(b, room - |a|) == Taken(a + b, room)
  {
  }

  /** What was written when a turn's pong has followed those before it. */
  lemma AnswerTurn(before: Str, room: nat, pings: seq<Str>, masks: seq<Mask>, next: Turn, mask: Mask)
    requires |pings| == |masks| && |Pongs(pings, masks)| <= room
    ensures var sofar, pong := Pongs(pings, masks), PongOf(next, mask);
            before + sofar + Taken(pong, room - |sofar|) == before + Taken(sofar + pong, room)
            && (|pong| <= room - |sofar| ==>
                  before + Taken(sofar + pong, room) == before + (sofar + pong)
                  && |Taken(pong, room - |sofar|)| == |pong|)
            && (pong == [] ==> sofar + pong == sofar)
            && (!(next.Continue? && next.ping.Some?) ==> pong == [])
            && (next.Continue? && next.ping.Some? ==>
                  Pongs(pings + [next.ping.value], masks + [mask]) == sofar + pong
                  && (|sofar + pong| > room ==> AllButLastFit(pings + [next.ping.value], masks + [mask], room)))
  {
    hide MaskedWire, Taken;
    var sofar, pong := Pongs(pings, masks), PongOf(next, mask);
    TakesBoth(sofar, pong, room);
    TakesAll(pong, room - |sofar|);
    TakesAll(sofar + pong, room);
    Associate(before, sofar, Taken(pong, room - |sofar|));
    EmptyIsUnit(sofar);
    if next.Continue? && next.ping.Some? {
      PongsSnoc(pings, masks, next.ping.value, mask);
      assert (pings + [next.ping.value])[..|pings|] == pings && (masks + [mask])[..|pings|] == masks;
    }
  }

  /** The turn still to be taken, seen from a run that has collected `pings`. */
  lemma ReceiveTurn(s: Str, limit: nat, message: Str, started: bool, left: nat, pings: seq<Str>)
    requires |message| <= limit && left > 0
    ensures var now := Receive(s, limit, message, started, left);
            match TakeTurn(s, limit, message, started)
            case Stop(error) => now.message == Failure(error) && pings + now.pings == pings
            case Done(whole, rest) => now.message == Success(whole) && now.rest == rest && pings + now.pings == pings
            case Continue(message', started', rest, ping) =>
              && |message'| <= limit
              && var r := Receive(rest, limit, message', started', left - 1);
                 now.(pings := pings + now.pings)
                 == r.(pings := (pings + if ping.Some? then [ping.value] else []) + r.pings)
  {
    hide *;
    ReceiveStep(s, limit, message, started, left);
    var turn := TakeTurn(s, limit, message, started);
    if turn.Continue? {
      var r := Receive(turn.rest, limit, turn.message, turn.started, left - 1);
      Associate(pings, if turn.ping.Some? then [turn.ping.value] else [], r.pings);
    }
    assert pings + [] == pings;
  }

  lemma OutOfTurns(s: Str, limit: nat, message: Str, started: bool, pings: seq<Str>)
    requires |message| <= limit
    ensures Receive(s, limit, message, started, 0).message == Failure(ResourceLimit)
    ensures pings + Receive(s, limit, message, started, 0).pings == pings
  {
  }

  predicate AllShort(pings: seq<Str>) { forall i :: 0 <= i < |pings| ==> |pings[i]| <= 125 }

  lemma AllShortAppend(a: seq<Str>, b: seq<Str>)
    requires AllShort(a) && AllShort(b)
    ensures AllShort(a + b)
  {
  }

  lemma AllShortBase(s: Str, limit: nat, message: Str, started: bool)
    requires |message| <= limit
    ensures AllShort(Receive(s, limit, message, started, 0).pings) && AllShort([])
    ensures forall p: Str | |p| <= 125 :: AllShort([p])
  {
  }

  /** Only short payloads are ever sent back. */
  lemma {:induction false} PingsAreShort(s: Str, limit: nat, message: Str, started: bool, left: nat)
    requires |message| <= limit
    ensures AllShort(Receive(s, limit, message, started, left).pings)
    decreases left
  {
    hide *;
    AllShortBase(s, limit, message, started);
    if left > 0 {
      ReceiveStep(s, limit, message, started, left);
      var turn := TakeTurn(s, limit, message, started);
      if turn.Continue? {
        PingsAreShort(turn.rest, limit, turn.message, turn.started, left - 1);
        ShortPing(s, limit, message, started);
        AllShortAppend(if turn.ping.Some? then [turn.ping.value] else [],
                       Receive(turn.rest, limit, turn.message, turn.started, left - 1).pings);
      }
    }
  }

  lemma ShortPing(s: Str, limit: nat, message: Str, started: bool)
    requires |message| <= limit
    ensures var turn := TakeTurn(s, limit, message, started);
            turn.Continue? && turn.ping.Some? ==> |turn.ping.value| <= 125
  {
  }

  lemma PongsSnoc(pings: seq<Str>, masks: seq<Mask>, ping: Str, mask: Mask)
    requires |pings| == |masks|
    ensures Pongs(pings + [ping], masks + [mask]) == Pongs(pings, masks) + MaskedWire(Frame(true, 10, ping), mask)
  {
    assert (pings + [ping])[..|pings|] == pings && (masks + [mask])[..|masks|] == masks;
  }

  lemma DeliverCases(h: Header, payload: Str, rest: Str, message: Str, started: bool)
    ensures h.opcode == 8 ==> Deliver(h, payload, rest, message, started) == Stop(NetworkError)
    ensures h.opcode == 9 ==> Deliver(h, payload, rest, message, started) == Continue(message, started, rest, Some(payload))
    ensures h.opcode == 10 ==> Deliver(h, payload, rest, message, started) == Continue(message, started, rest, None)
    ensures h.opcode !in {8, 9, 10} ==>
              Deliver(h, payload, rest, message, started)
              == if h.opcode != (if started then 0 else 1) then Stop(ParseError)
                 else if !h.final then Continue(message + payload, true, rest, None)
                 else if IsUtf8(message + payload) then Done(message + payload, rest)
                 else Stop(ParseError)
  {
  }
}
