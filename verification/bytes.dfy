/** Byte strings, the outcome types, and searching: the vocabulary of every other module. */
module Bytes {
  /** One C++ `char` or `uint8_t`, written as a character so that literals stay readable. */
  type Byte = c: char | c as int < 256 witness 'a'

  /** `std::string` and `std::vector<uint8_t>` alike. */
  type Str = seq<Byte>

  datatype Option<+T> = None | Some(value: T) {
    predicate IsFailure() { None? }

    function PropagateFailure<U>(): Option<U>
      requires None?
    {
      None
    }

    function Extract(): T
      requires Some?
    {
      value
    }
  }

  /** The error codes the modelled code throws. */
  datatype ErrorCode = InvalidArgument | InvalidUrl | ParseError | ResourceLimit | NetworkError | Internal

  datatype Result<+T> = Success(value: T) | Failure(error: ErrorCode) {
    predicate IsFailure() { Failure? }

    function PropagateFailure<U>(): Result<U>
      requires Failure?
    {
      Failure(error)
    }

    function Extract(): T
      requires Success?
    {
      value
    }
  }

  function ToByte(v: nat): Byte
    requires v < 256
  {
    v as char
  }

  predicate IsDigit(c: Byte) { '0' <= c <= '9' }

  function HexSymbol(v: nat): Byte
    requires v < 16
  {
    if v < 10 then ToByte('0' as int + v) else ToByte('a' as int + v - 10)
  }

  function Min(a: int, b: int): int { if a < b then a else b }

  function Max(a: int, b: int): int { if a < b then b else a }

  function Pow2(n: nat): (p: nat)
    ensures p > 0
  {
    if n == 0 then 1 else 2 * Pow2(n - 1)
  }

  /** `std::string::find(c, from)`, with `|s|` standing for `npos`. */
  function Find(s: Str, c: char, from: nat): (i: nat)
    requires from <= |s|
    ensures from <= i <= |s|
    ensures i < |s| ==> s[i] == c
    ensures forall j :: from <= j < i ==> s[j] != c
    decreases |s| - from
  {
    if from == |s| || s[from] == c then from else Find(s, c, from + 1)
  }

  /** `std::string::find_last_of(c)`, with `-1` standing for `npos`. */
  function FindLast(s: Str, c: char): (i: int)
    ensures -1 <= i < |s|
    ensures 0 <= i ==> s[i] == c
    ensures forall j :: i < j < |s| ==> s[j] != c
  {
    if s == [] then -1 else if s[|s| - 1] == c then |s| - 1 else FindLast(s[..|s| - 1], c)
  }

  /** `std::string::find_first_of(set)`, with `|s|` standing for `npos`. */
  function FindFirstOf(s: Str, cs: string): (i: nat)
    ensures i <= |s|
    ensures i < |s| ==> s[i] in cs
    ensures forall j :: 0 <= j < i ==> s[j] !in cs
  {
    if s == [] || s[0] in cs then 0 else 1 + FindFirstOf(s[1..], cs)
  }

  predicate StartsWith(s: Str, prefix: Str) { prefix <= s }

  predicate OccursAt(s: Str, needle: Str, at: nat) {
    at + |needle| <= |s| && s[at..at + |needle|] == needle
  }

  /** `std::string::find(needle, from)` for a string needle, with `None` standing for `npos`. */
  function FindStr(s: Str, needle: Str, from: nat): (r: Option<nat>)
    ensures r.Some? ==> from <= r.value <= |s| - |needle| && OccursAt(s, needle, r.value)
    ensures r.Some? ==> forall j :: from <= j < r.value ==> !OccursAt(s, needle, j)
    ensures r.None? ==> forall j :: from <= j ==> !OccursAt(s, needle, j)
    decreases |s| - from
  {
    if from + |needle| > |s| then None
    else if OccursAt(s, needle, from) then Some(from)
    else FindStr(s, needle, from + 1)
  }

  lemma Associate<T>(a: seq<T>, b: seq<T>, c: seq<T>)
    ensures a + (b + c) == (a + b) + c
  {
  }

  lemma EmptyIsUnit<T>(a: seq<T>)
    ensures [] + a == a && a + [] == a
  {
  }

  /** ASCII `std::tolower`. */
  function LowerByte(c: Byte): Byte {
    if 'A' <= c <= 'Z' then ToByte(c as int + 32) else c
  }

  function Lower(s: Str): (r: Str)
    ensures |r| == |s|
    ensures forall i :: 0 <= i < |s| ==> r[i] == LowerByte(s[i])
  {
    seq(|s|, i requires 0 <= i < |s| => LowerByte(s[i]))
  }

  const CAPITALS: Str := "ABCDEFGHIJKLMNOPQRSTUVWXYZ"

  /** Capital letters become small ones, and nothing else changes. */
  lemma LowerLetters()
    ensures Lower(CAPITALS) == "abcdefghijklmnopqrstuvwxyz"
    ensures forall c: Byte :: c !in CAPITALS ==> LowerByte(c) == c
  {
    forall c: Byte | 'A' <= c <= 'Z' ensures c in CAPITALS {
      assert CAPITALS[c as int - 65] == c;
    }
  }

  // ----- slices -----

  lemma TakeMore<T>(s: seq<T>, i: nat)
    requires i < |s|
    ensures s[..i + 1] == s[..i] + [s[i]]
  {
  }

  lemma Unsnoc<T>(s: seq<T>)
    requires s != []
    ensures s == s[..|s| - 1] + [s[|s| - 1]]
  {
  }

  lemma TakeAll<T>(s: seq<T>)
    ensures s[..|s|] == s
  {
  }

  lemma TakeAndDrop<T>(s: seq<T>, n: nat)
    requires n <= |s|
    ensures s == s[..n] + s[n..]
  {
  }

  lemma SliceAfter<T>(s: seq<T>, at: nat, n: nat)
    requires at + n <= |s|
    ensures s[at..][n..] == s[at + n..] && s[..at] + s[at..][..n] == s[..at + n]
  {
  }

  lemma LowerTwice(s: Str)
    ensures Lower(Lower(s)) == Lower(s)
  {
  }

  /** `std::isspace` in the "C" locale. */
  predicate IsSpace(c: Byte) {
    c == ' ' || '\t' as int <= c as int <= '\r' as int
  }

  function TrimLeft(s: Str): (r: Str)
    ensures |r| <= |s| && (r != [] ==> !IsSpace(r[0]))
  {
    if s != [] && IsSpace(s[0]) then TrimLeft(s[1..]) else s
  }

  function TrimRight(s: Str): (r: Str)
    ensures |r| <= |s| && (r != [] ==> !IsSpace(r[|r| - 1]))
  {
    if s != [] && IsSpace(s[|s| - 1]) then TrimRight(s[..|s| - 1]) else s
  }
}
