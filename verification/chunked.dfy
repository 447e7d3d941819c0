/** HTTP chunked bodies (`decode_chunked` in src/core/network_client.cpp; section 7.1 of RFC 9112). */
module Chunked {
  import opened Bytes
  import opened Frames

  const CRLF: Str := "\r\n"
  const TWO_64: nat := 2 * TWO_63

  /** `std::size_t`. */
  type Size = n: nat | n < TWO_64

  /** Arithmetic on sizes wraps. */
  function AsSize(n: nat): Size { n % TWO_64 }

  lemma SizeFits(n: Size)
    ensures AsSize(n) == n
  {
  }

  // ----- size lines -----

  function HexDigit(c: Byte): Option<nat> {
    if '0' <= c <= '9' then Some(c as int - '0' as int)
    else if 'a' <= c <= 'f' then Some(c as int - 'a' as int + 10)
    else if 'A' <= c <= 'F' then Some(c as int - 'A' as int + 10)
    else None
  }

  /** How far the digits go. */
  function HexPrefix(s: Str): (n: nat)
    ensures n <= |s| && forall i :: 0 <= i < n ==> HexDigit(s[i]).Some?
  {
    if s == [] || HexDigit(s[0]).None? then 0 else 1 + HexPrefix(s[1..])
  }

  function HexValue(s: Str): nat
    requires forall i :: 0 <= i < |s| ==> HexDigit(s[i]).Some?
  {
    if s == [] then 0 else HexValue(s[..|s| - 1]) * 16 + HexDigit(s[|s| - 1]).value
  }

  /** How long the sign in front of a number is. */
  function SignLength(s: Str): nat { if s != [] && (s[0] == '+' || s[0] == '-') then 1 else 0 }

  /** The length of `0x`, which counts only in front of a digit. */
  function RadixLength(s: Str): nat {
    if |s| > 2 && s[0] == '0' && (s[1] == 'x' || s[1] == 'X') && HexDigit(s[2]).Some? then 2 else 0
  }

  /** `strtoul` with base 16, behind the blanks: a number that is too large saturates, a negative one wraps. */
  function Strtoul(s: Str): Option<Size> {
    var unsigned := s[SignLength(s)..];
    var digits := unsigned[RadixLength(unsigned)..];
    var n := HexPrefix(digits);
    if n == 0 then None
    else
      var v := HexValue(digits[..n]);
      Some(if v >= TWO_64 then TWO_64 - 1 else if s[0] == '-' && v > 0 then TWO_64 - v else v)
  }

  /** The size a line announces: extensions cut off, blanks trimmed, then the number in front. */
  function ChunkSize(line: Str): Option<Size> {
    Strtoul(TrimRight(TrimLeft(line[..Find(line, ';', 0)])))
  }

  // ----- decoding, as a function of everything the peer sends -----

  /** `Beyond` is a size that no string can have and that the test against the limit lets pass, because its sum wraps. */
  datatype Piece = Broken | Oversized | Beyond | Last | Data(data: Str, rest: Str)

  /** The chunk at the front of `s`, when `have` bytes have been decoded. */
  function NextPiece(s: Str, have: nat, max: nat): (p: Piece)
    ensures p.Data? ==> |p.data| + |p.rest| < |s|
  {
    match FindStr(s, CRLF, 0)
    case None => Broken
    case Some(k) => PieceAfter(s, ChunkSize(s[..k]), k + 2, have, max)
  }

  /** The same when the size line has been read and the data starts at `at`. */
  function PieceAfter(s: Str, size: Option<Size>, at: nat, have: nat, max: nat): (p: Piece)
    requires 0 < at <= |s|
    ensures p.Data? ==> |p.data| + |p.rest| < |s|
  {
    match size
    case None => Broken
    case Some(n) =>
      if n == 0 then if FindStr(s, CRLF, at).Some? then Last else Broken
      else if AsSize(have + n) > max then Oversized
      else if n >= TWO_63 then Beyond
      else if FindStr(s, CRLF, at + n).None? then Broken
      else Data(s[at..at + n], s[at + n + 2..])
  }

  /** The decoded body, or the error; `None` once a size is beyond what the model says. */
  function DecodeAll(s: Str, body: Str, max: nat): Option<Result<Str>>
    decreases |s|
  {
    match NextPiece(s, |body|, max)
    case Broken => Some(Failure(NetworkError))
    case Oversized => Some(Failure(ResourceLimit))
    case Beyond => None
    case Last => Some(Success(body))
    case Data(data, rest) => DecodeAll(rest, body + data, max)
  }

  /** A match in what has arrived is the match in everything that will arrive. */
  lemma FindInPrefix(a: Str, b: Str, needle: Str, from: nat)
    requires FindStr(a, needle, from).Some?
    ensures FindStr(a + b, needle, from) == FindStr(a, needle, from)
  {
    hide FindStr;
    var k := FindStr(a, needle, from).value;
    forall j: nat | j <= k ensures OccursAt(a + b, needle, j) <==> OccursAt(a, needle, j) {
      assert (a + b)[j..j + |needle|] == a[j..j + |needle|];
    }
  }

  /** Searching from an offset is searching what follows the offset. */
  lemma FindFromOffset(s: Str, needle: Str, offset: nat, from: nat)
    requires offset <= |s|
    ensures FindStr(s, needle, offset + from)
            == match FindStr(s[offset..], needle, from) case None => None case Some(k) => Some(offset + k)
  {
    hide FindStr;
    var t := s[offset..];
    forall j: nat ensures OccursAt(t, needle, j) <==> OccursAt(s, needle, offset + j) {
      if j + |needle| <= |t| {
        assert t[j..j + |needle|] == s[offset + j..offset + j + |needle|];
      }
    }
    match FindStr(t, needle, from)
    case None =>
      forall j: nat | offset + from <= j ensures !OccursAt(s, needle, j) {
        assert OccursAt(t, needle, j - offset) <==> OccursAt(s, needle, offset + (j - offset));
      }
    case Some(k) =>
      forall j: nat | offset + from <= j < offset + k ensures !OccursAt(s, needle, j) {
        assert OccursAt(t, needle, j - offset) <==> OccursAt(s, needle, offset + (j - offset));
      }
  }

  lemma PieceShift(s: Str, offset: nat, size: Option<Size>, at: nat, have: nat, max: nat)
    requires offset < at <= |s|
    ensures PieceAfter(s[offset..], size, at - offset, have, max) == PieceAfter(s, size, at, have, max)
  {
    hide FindStr, AsSize;
    var t := s[offset..];
    FindFromOffset(s, CRLF, offset, at - offset);
    if size.Some? {
      var n := size.value;
      FindFromOffset(s, CRLF, offset, at - offset + n);
      if at + n + 2 <= |s| {
        assert t[at - offset..at - offset + n] == s[at..at + n];
        assert t[at - offset + n + 2..] == s[at + n + 2..];
      }
    }
  }

  /** The piece at an offset of the stream, in terms of positions in the stream. */
  lemma PieceAt(s: Str, offset: nat, have: nat, max: nat)
    requires offset <= |s|
    ensures NextPiece(s[offset..], have, max)
            == match FindStr(s, CRLF, offset)
               case None => Broken
               case Some(k) => PieceAfter(s, ChunkSize(s[offset..k]), k + 2, have, max)
  {
    hide FindStr, OccursAt, ChunkSize, PieceAfter;
    FindFromOffset(s, CRLF, offset, 0);
    var found := FindStr(s, CRLF, offset);
    if found.Some? {
      assert s[offset..][..found.value - offset] == s[offset..found.value];
      PieceShift(s, offset, ChunkSize(s[offset..found.value]), found.value + 2, have, max);
    }
  }

  // ----- the code -----

  /** What one turn of the loop comes to. */
  datatype Turn = Throws(error: ErrorCode) | GoesBeyond | Ends | Takes(data: Str)

  class ChunkReader {
    const socket: Socket
    var raw: Str

    constructor (socket: Socket, raw: Str)
      ensures this.socket == socket && this.raw == raw
    {
      this.socket := socket;
      this.raw := raw;
    }

    /** Everything that has arrived and will arrive. */
    function Stream(): Str
      reads this, socket
    {
      raw + socket.input
    }

    method RecvMore() returns (ok: bool)
      modifies this`raw, socket`input
      ensures Stream() == old(Stream()) && |old(raw)| <= |raw|
      ensures ok <==> old(socket.input) != []
      ensures ok ==> |socket.input| < |old(socket.input)|
      ensures !ok ==> raw == old(raw)
    {
      var chunk := socket.Recv(8192);
      Associate(raw, chunk, socket.input);
      raw := raw + chunk;
      return chunk != [];
    }

    /** Waits for `needle` at or after `offset`, as far as the stream goes. */
    method FillUntil(offset: nat, needle: Str) returns (ok: bool)
      modifies this`raw, socket`input
      ensures Stream() == old(Stream()) && |old(raw)| <= |raw|
      ensures ok <==> FindStr(Stream(), needle, offset).Some?
      ensures ok ==> FindStr(raw, needle, offset) == FindStr(Stream(), needle, offset)
    {
      hide FindStr;
      while true
        invariant Stream() == old(Stream()) && |old(raw)| <= |raw|
        decreases |socket.input|
      {
        var found := FindStr(raw, needle, offset);
        if found.Some? {
          FindInPrefix(raw, socket.input, needle, offset);
          return true;
        }
        var more := RecvMore();
        if !more {
          EmptyIsUnit(raw);
          return false;
        }
      }
    }

    /** One turn of the loop: the chunk at `offset`, if it is not the last, and where the next one starts. */
    method NextChunk(offset: nat, have: nat, max: nat) returns (turn: Turn, next: nat)
      requires offset <= |raw|
      modifies this`raw, socket`input
      ensures Stream() == old(Stream())
      ensures var piece := NextPiece(Stream()[offset..], have, max);
              match turn
              case Throws(error) => error in {ResourceLimit, NetworkError}
                                    && piece == if error == ResourceLimit then Oversized else Broken
              case GoesBeyond => piece == Beyond
              case Ends => piece == Last
              case Takes(data) => offset < next <= |raw| && piece == Data(data, Stream()[next..])
    {
      hide FindStr, OccursAt, ChunkSize, NextPiece, AsSize;
      ghost var all := Stream();
      PieceAt(all, offset, have, max);
      next := offset;
      var filled := FillUntil(offset, CRLF);
      if !filled { return Throws(NetworkError), next; }
      var lineEnd := FindStr(raw, CRLF, offset).value;
      var line := raw[offset..lineEnd];
      assert line == all[offset..lineEnd];
      next := lineEnd + 2;
      var size := ChunkSize(line);
      if size.None? { return Throws(NetworkError), next; }
      if size.value == 0 {
        filled := FillUntil(next, CRLF);
        return if filled then Ends else Throws(NetworkError), next;
      }
      if AsSize(have + size.value) > max { return Throws(ResourceLimit), next; }
      if size.value >= TWO_63 { return GoesBeyond, next; }
      filled := FillUntil(next + size.value, CRLF);
      if !filled { return Throws(NetworkError), next; }
      var data := raw[next..next + size.value];
      assert data == all[next..next + size.value];
      next := next + size.value + 2;
      return Takes(data), next;
    }

    /** `decode_chunked`: whatever pieces the bytes arrive in, the result is that of the whole stream. */
    method DecodeChunked(start: nat, max: nat) returns (r: Option<Result<Str>>)
      requires start <= |raw|
      modifies this`raw, socket`input
      ensures r == DecodeAll(old(Stream())[start..], [], max)
      ensures Stream() == old(Stream())
    {
      hide NextPiece;
      ghost var all := Stream();
      var offset, body: Str := start, [];
      while true
        invariant Stream() == all && offset <= |raw|
        invariant DecodeAll(all[start..], [], max) == DecodeAll(all[offset..], body, max)
        decreases |all| - offset
      {
        var turn, next := NextChunk(offset, |body|, max);
        match turn {
          case Throws(error) => return Some(Failure(error));
          case GoesBeyond => return None;
          case Ends => return Some(Success(body));
          case Takes(data) => body, offset := body + data, next;
        }
      }
    }
  }

  // ----- encoding -----

  /**
   * A chunk: its size line, which may carry extensions, its data, and the two bytes behind the data. A peer writes a
   * line end there; the decoder drops whatever it finds.
   */
  datatype Chunk = Chunk(line: Str, data: Str, end: Str)

  ghost predicate HoldsNoCrlf(line: Str) { forall j: nat :: !OccursAt(line, CRLF, j) }

  ghost predicate ChunkOk(c: Chunk) {
    c.data != [] && HoldsNoCrlf(c.line) && ChunkSize(c.line) == Some(|c.data|) && |c.end| == 2
  }

  ghost predicate ChunksOk(cs: seq<Chunk>) { forall c :: c in cs ==> ChunkOk(c) }

  function DataOf(cs: seq<Chunk>): Str {
    if cs == [] then [] else cs[0].data + DataOf(cs[1..])
  }

  function ChunkWire(c: Chunk, rest: Str): Str { c.line + CRLF + (c.data + c.end + rest) }

  /** The chunks, then `tail`: the last size line and the trailer section. */
  function ChunksWire(cs: seq<Chunk>, tail: Str): Str {
    if cs == [] then tail else ChunkWire(cs[0], ChunksWire(cs[1..], tail))
  }

  /** A zero size line, then a trailer section that holds at least one line end. */
  ghost predicate TailOk(tail: Str, line: Str, trailer: Str) {
    tail == line + CRLF + trailer && HoldsNoCrlf(line) && ChunkSize(line) == Some(0)
    && FindStr(trailer, CRLF, 0).Some?
  }

  lemma FirstCrlf(line: Str, rest: Str)
    requires HoldsNoCrlf(line)
    ensures FindStr(line + CRLF + rest, CRLF, 0) == Some(|line|)
    ensures (line + CRLF + rest)[..|line|] == line && (line + CRLF + rest)[|line| + 2..] == rest
  {
    hide FindStr, HoldsNoCrlf;
    var s := line + CRLF + rest;
    assert s[|line|..|line| + 2] == CRLF && OccursAt(s, CRLF, |line|);
    forall j: nat | j < |line| ensures !OccursAt(s, CRLF, j) {
      NoCrlfBefore(line, rest, j);
    }
  }

  lemma NoCrlfBefore(line: Str, rest: Str, j: nat)
    requires HoldsNoCrlf(line) && j < |line|
    ensures !OccursAt(line + CRLF + rest, CRLF, j)
  {
    var s := line + CRLF + rest;
    if j + 2 <= |line| {
      assert s[j..j + 2] == line[j..j + 2];
      assert !OccursAt(line, CRLF, j);
    } else {
      assert s[j..j + 2][1] == '\r';
    }
  }

  /** What follows the data holds a line end, if what follows that does. */
  lemma FoundBehind(before: Str, rest: Str, from: nat)
    requires FindStr(rest, CRLF, 0).Some? && from <= |before|
    ensures FindStr(before + rest, CRLF, from).Some?
  {
    hide FindStr;
    var k := FindStr(rest, CRLF, 0).value;
    var s := before + rest;
    assert s[|before| + k..|before| + k + 2] == rest[k..k + 2];
    assert OccursAt(s, CRLF, |before| + k);
  }

  lemma PieceOfChunk(c: Chunk, rest: Str, have: nat, max: nat)
    requires ChunkOk(c) && FindStr(rest, CRLF, 0).Some?
    ensures have + |c.data| < TWO_63 ==>
              NextPiece(ChunkWire(c, rest), have, max)
              == if have + |c.data| > max then Oversized else Data(c.data, rest)
    ensures FindStr(ChunkWire(c, rest), CRLF, 0).Some?
  {
    hide FindStr, OccursAt, ChunkSize, HoldsNoCrlf, AsSize;
    if have + |c.data| < TWO_63 { SizeFits(have + |c.data|); }
    var after, s := c.data + c.end + rest, ChunkWire(c, rest);
    FirstCrlf(c.line, after);
    FoundBehind(c.data + c.end, rest, |c.data|);
    FindFromOffset(s, CRLF, |c.line| + 2, |c.data|);
    assert after[..|c.data|] == c.data && after[|c.data| + 2..] == rest;
    assert s[|c.line| + 2..|c.line| + 2 + |c.data|] == after[..|c.data|];
    assert s[|c.line| + 2 + |c.data| + 2..] == after[|c.data| + 2..];
  }

  lemma {:induction false} WireHoldsCrlf(cs: seq<Chunk>, tail: Str, line: Str, trailer: Str)
    requires ChunksOk(cs) && TailOk(tail, line, trailer)
    ensures FindStr(ChunksWire(cs, tail), CRLF, 0).Some?
  {
    hide FindStr, ChunkOk, HoldsNoCrlf, ChunkSize, ChunkWire;
    if cs == [] {
      FoundBehind(line + CRLF, trailer, 0);
    } else {
      assert cs[0] in cs;
      WireHoldsCrlf(cs[1..], tail, line, trailer);
      PieceOfChunk(cs[0], ChunksWire(cs[1..], tail), 0, 0);
    }
  }

  /**
   * Every chunked body is decoded to the concatenation of its chunks, unless that exceeds the limit; and since the
   * decoder's result is a function of the stream, however the bytes are split across reads.
   */
  lemma {:induction false} DecodesEveryChunking(cs: seq<Chunk>, tail: Str, line: Str, trailer: Str, body: Str, max: nat)
    requires ChunksOk(cs) && TailOk(tail, line, trailer) && |body| <= max && |body| + |DataOf(cs)| < TWO_63
    ensures DecodeAll(ChunksWire(cs, tail), body, max)
            == Some(if |body| + |DataOf(cs)| <= max then Success(body + DataOf(cs)) else Failure(ResourceLimit))
    decreases |cs|
  {
    hide NextPiece, ChunkOk, ChunkWire, FindStr, HoldsNoCrlf, ChunkSize;
    if cs == [] {
      LastPiece(line, trailer, |body|, max);
      EmptyIsUnit(body);
    } else {
      var c, rest := cs[0], ChunksWire(cs[1..], tail);
      assert c in cs;
      WireHoldsCrlf(cs[1..], tail, line, trailer);
      PieceOfChunk(c, rest, |body|, max);
      Associate(body, c.data, DataOf(cs[1..]));
      if |body| + |c.data| <= max {
        DecodesEveryChunking(cs[1..], tail, line, trailer, body + c.data, max);
      }
    }
  }

  lemma LastPiece(line: Str, trailer: Str, have: nat, max: nat)
    requires HoldsNoCrlf(line) && ChunkSize(line) == Some(0) && FindStr(trailer, CRLF, 0).Some?
    ensures NextPiece(line + CRLF + trailer, have, max) == Last
  {
    hide FindStr, ChunkSize, HoldsNoCrlf;
    FirstCrlf(line, trailer);
    FindFromOffset(line + CRLF + trailer, CRLF, |line| + 2, 0);
  }

  // ----- plain hexadecimal size lines -----

  function Hex(n: nat): Str {
    if n < 16 then [HexSymbol(n)] else Hex(n / 16) + [HexSymbol(n % 16)]
  }

  predicate AllHex(s: Str) { forall i :: 0 <= i < |s| ==> HexDigit(s[i]).Some? }

  lemma {:induction false} HexRoundTrip(n: nat)
    ensures Hex(n) != [] && AllHex(Hex(n)) && HexValue(Hex(n)) == n
  {
    if n >= 16 {
      HexRoundTrip(n / 16);
      assert Hex(n)[..|Hex(n)| - 1] == Hex(n / 16);
    } else {
      assert [HexSymbol(n)][..0] == [];
    }
  }

  lemma {:induction false} HexPrefixIsAll(s: Str)
    requires AllHex(s)
    ensures HexPrefix(s) == |s|
  {
    if s != [] {
      HexPrefixIsAll(s[1..]);
    }
  }

  /** Hex digits are neither blank, nor `;`, nor a line end, so nothing is cut off them. */
  lemma HexIsPlain(s: Str)
    requires AllHex(s) && s != []
    ensures Find(s, ';', 0) == |s| && TrimLeft(s) == s && TrimRight(s) == s
    ensures HoldsNoCrlf(s)
  {
    hide HexDigit;
    forall i | 0 <= i < |s| ensures s[i] != ';' && s[i] != '\r' && !IsSpace(s[i]) {
      NotHex(s[i]);
    }
    forall j: nat ensures !OccursAt(s, CRLF, j) {
      if j + 2 <= |s| {
        assert s[j..j + 2][0] == s[j];
      }
    }
  }

  lemma NotHex(c: Byte)
    requires HexDigit(c).Some?
    ensures c != ';' && c != '\r' && !IsSpace(c)
  {
  }

  /** Plain digits are neither a sign nor `0x`. */
  lemma PlainNumber(s: Str)
    requires AllHex(s) && s != []
    ensures Strtoul(s) == Some(if HexValue(s) >= TWO_64 then TWO_64 - 1 else HexValue(s))
  {
    hide HexValue, HexPrefix;
    HexPrefixIsAll(s);
    assert s[0..] == s && s[..|s|] == s;
    assert SignLength(s) == 0 by { assert HexDigit(s[0]).Some?; }
    assert RadixLength(s) == 0 by { assert |s| > 1 ==> HexDigit(s[1]).Some?; }
  }

  /** The plain hexadecimal size is a size line for its value. */
  lemma PlainHexLine(n: Size)
    ensures ChunkSize(Hex(n)) == Some(n) && HoldsNoCrlf(Hex(n))
  {
    hide HexValue, Hex, AllHex, TrimLeft, TrimRight, Find, HoldsNoCrlf, Strtoul;
    var s := Hex(n);
    HexRoundTrip(n);
    PlainNumber(s);
    HexIsPlain(s);
    assert s[..|s|] == s;
  }

  /** A list of data pieces, each with the plain hexadecimal size in front. */
  function PlainChunks(pieces: seq<Str>): seq<Chunk> {
    if pieces == [] then [] else [Chunk(Hex(|pieces[0]|), pieces[0], CRLF)] + PlainChunks(pieces[1..])
  }

  lemma {:induction false} PlainChunksAreOk(pieces: seq<Str>)
    requires forall piece :: piece in pieces ==> piece != []
    requires |DataOf(PlainChunks(pieces))| < TWO_63
    ensures ChunksOk(PlainChunks(pieces))
  {
    hide ChunkSize, HoldsNoCrlf, Hex;
    if pieces != [] {
      assert pieces[0] in pieces;
      PlainHexLine(|pieces[0]|);
      forall piece | piece in pieces[1..] ensures piece != [] {
        assert piece in pieces;
      }
      PlainChunksAreOk(pieces[1..]);
    }
  }

  /** The plainest encoding of a list of nonempty pieces is decoded to their concatenation, within the limit. */
  lemma DecodesPlainChunks(pieces: seq<Str>, max: nat)
    requires forall piece :: piece in pieces ==> piece != []
    requires |DataOf(PlainChunks(pieces))| < TWO_63
    ensures var data := DataOf(PlainChunks(pieces));
            DecodeAll(ChunksWire(PlainChunks(pieces), "0\r\n\r\n"), [], max)
            == Some(if |data| <= max then Success(data) else Failure(ResourceLimit))
  {
    PlainChunksAreOk(pieces);
    PlainHexLine(0);
    assert Hex(0) == "0" && "0\r\n\r\n" == "0" + CRLF + "\r\n";
    assert FindStr("\r\n", CRLF, 0).Some?;
    hide ChunksOk, DecodeAll, ChunksWire, PlainChunks, DataOf, ChunkSize, FindStr, HoldsNoCrlf;
    DecodesEveryChunking(PlainChunks(pieces), "0\r\n\r\n", "0", "\r\n", [], max);
    EmptyIsUnit(DataOf(PlainChunks(pieces)));
  }

  // ----- nothing else is decoded -----

  /** Where the first line ends, the front of a stream is a line. */
  lemma LineInFront(s: Str, k: nat)
    requires FindStr(s, CRLF, 0) == Some(k)
    ensures s == s[..k] + CRLF + s[k + 2..] && HoldsNoCrlf(s[..k])
  {
    hide FindStr;
    assert s[k..k + 2] == CRLF && s == s[..k] + s[k..k + 2] + s[k + 2..];
    forall j: nat ensures !OccursAt(s[..k], CRLF, j) {
      assert j + 2 <= k ==> s[..k][j..j + 2] == s[j..j + 2] && !OccursAt(s, CRLF, j);
    }
  }

  lemma DataPieceFound(s: Str, size: Option<Size>, at: nat, have: nat, max: nat)
    requires 0 < at <= |s| && PieceAfter(s, size, at, have, max).Data?
    ensures size.Some? && at + size.value + 2 <= |s|
  {
    hide AsSize;
  }

  lemma DataPiece(s: Str, size: Option<Size>, at: nat, have: nat, max: nat)
    requires 0 < at <= |s| && PieceAfter(s, size, at, have, max).Data? && have + |s| < TWO_63
    ensures size.Some? && size.value > 0 && at + size.value + 2 <= |s| && have + size.value <= max
    ensures var n := size.value; PieceAfter(s, size, at, have, max) == Data(s[at..at + n], s[at + n + 2..])
  {
    hide OccursAt, FindStr, AsSize;
    DataPieceFound(s, size, at, have, max);
    SizeFits(have + size.value);
  }

  /** A chunk that is taken off a stream was in front of it. */
  lemma ChunkInFront(s: Str, have: nat, max: nat) returns (c: Chunk)
    requires NextPiece(s, have, max).Data? && have + |s| < TWO_63
    ensures ChunkOk(c) && s == ChunkWire(c, NextPiece(s, have, max).rest)
    ensures c.data == NextPiece(s, have, max).data && have + |c.data| <= max
  {
    hide FindStr, OccursAt, ChunkSize, HoldsNoCrlf, PieceAfter;
    var k := FindStr(s, CRLF, 0).value;
    LineInFront(s, k);
    DataPiece(s, ChunkSize(s[..k]), k + 2, have, max);
    var n, at := ChunkSize(s[..k]).value, k + 2;
    c := Chunk(s[..k], s[at..at + n], s[at + n..at + n + 2]);
    assert s[at..] == c.data + c.end + s[at + n + 2..];
  }

  /** The end of a body that was taken off a stream was in front of it. */
  lemma TailInFront(s: Str, have: nat, max: nat) returns (line: Str, trailer: Str)
    requires NextPiece(s, have, max).Last?
    ensures TailOk(s, line, trailer)
  {
    hide FindStr, OccursAt, ChunkSize, HoldsNoCrlf;
    var k := FindStr(s, CRLF, 0).value;
    LineInFront(s, k);
    FindFromOffset(s, CRLF, k + 2, 0);
    line, trailer := s[..k], s[k + 2..];
  }

  predicate Decodes(s: Str, body: Str, max: nat) {
    DecodeAll(s, body, max).Some? && DecodeAll(s, body, max).value.Success?
  }

  /** Whatever is decoded was a list of nonempty chunks and a tail, byte for byte. */
  lemma {:induction false} DecodesOnlyChunks(s: Str, body: Str, max: nat)
    returns (cs: seq<Chunk>, tail: Str, line: Str, trailer: Str)
    requires Decodes(s, body, max) && |body| <= max && |body| + |s| < TWO_63
    ensures ChunksOk(cs) && TailOk(tail, line, trailer) && s == ChunksWire(cs, tail)
    ensures DecodeAll(s, body, max) == Some(Success(body + DataOf(cs))) && |body + DataOf(cs)| <= max
    ensures |DataOf(cs)| <= |s|
    decreases |s|
  {
    hide NextPiece, ChunkOk, TailOk, ChunkWire;
    var piece := NextPiece(s, |body|, max);
    if piece.Last? {
      line, trailer := TailInFront(s, |body|, max);
      cs, tail := [], s;
      EmptyIsUnit(body);
    } else {
      var c := ChunkInFront(s, |body|, max);
      var more;
      more, tail, line, trailer := DecodesOnlyChunks(piece.rest, body + c.data, max);
      cs := [c] + more;
      assert cs[1..] == more;
      Associate(body, c.data, DataOf(more));
    }
  }

  /** `s` is a list of nonempty chunks with `data` and a tail. */
  ghost predicate IsChunking(s: Str, data: Str) {
    exists cs: seq<Chunk>, tail: Str, line: Str, trailer: Str :: ChunksTo(s, data, cs, tail, line, trailer)
  }

  ghost predicate ChunksTo(s: Str, data: Str, cs: seq<Chunk>, tail: Str, line: Str, trailer: Str) {
    ChunksOk(cs) && TailOk(tail, line, trailer) && s == ChunksWire(cs, tail) && data == DataOf(cs)
  }

  /** A stream decodes to some data exactly when it is a chunking of it, and the data is within the limit. */
  lemma DecodesExactlyChunkings(s: Str, data: Str, max: nat)
    requires |s| < TWO_63
    ensures DecodeAll(s, [], max) == Some(Success(data)) <==> IsChunking(s, data) && |data| <= max
  {
    hide DecodeAll, ChunksOk, TailOk, ChunksWire, DataOf;
    if Decodes(s, [], max) {
      var cs, tail, line, trailer := DecodesOnlyChunks(s, [], max);
      EmptyIsUnit(DataOf(cs));
      assert ChunksTo(s, DataOf(cs), cs, tail, line, trailer);
    }
    if IsChunking(s, data) {
      var cs, tail, line, trailer :| ChunksTo(s, data, cs, tail, line, trailer);
      DataWithin(cs, tail);
      DecodesEveryChunking(cs, tail, line, trailer, [], max);
      EmptyIsUnit(DataOf(cs));
    }
  }

  lemma {:induction false} DataWithin(cs: seq<Chunk>, tail: Str)
    ensures |DataOf(cs)| <= |ChunksWire(cs, tail)|
  {
    if cs != [] {
      DataWithin(cs[1..], tail);
    }
  }
}
