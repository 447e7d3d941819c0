/** Little-endian integers, and the growing output vector and moving input cursor that the binary codecs share. */
module Wire {
  import opened Bytes
  import opened Division

  type U32 = v: nat | v < 0x1_0000_0000

  function Pow256(n: nat): (p: nat)
    ensures p > 0
  {
    if n == 0 then 1 else 256 * Pow256(n - 1)
  }

  /** The low `n` bytes of `v`, least significant first. */
  function LE(v: nat, n: nat): (s: Str)
    ensures |s| == n
  {
    if n == 0 then [] else [ToByte(v % 256)] + LE(v / 256, n - 1)
  }

  function ValueLE(s: Str): (v: nat)
    ensures v < Pow256(|s|)
  {
    if s == [] then 0 else s[0] as int + 256 * ValueLE(s[1..])
  }

  lemma {:induction false} ValueOfLE(v: nat, n: nat)
    requires v < Pow256(n)
    ensures ValueLE(LE(v, n)) == v
  {
    if n > 0 {
      Parts(v, 256);
      ValueOfLE(v / 256, n - 1);
      assert LE(v, n)[1..] == LE(v / 256, n - 1);
    }
  }

  lemma {:induction false} LEOfValue(s: Str)
    ensures LE(ValueLE(s), |s|) == s
  {
    if s != [] {
      LEOfValue(s[1..]);
      Divides(ValueLE(s[1..]), 256, s[0] as int);
    }
  }

  lemma Weigh(weight: nat, low: nat, high: nat)
    ensures weight * (low + 256 * high) == weight * low + 256 * weight * high
  {
  }

  lemma FourBytes()
    ensures Pow256(4) == 0x1_0000_0000
  {
    assert Pow256(2) == 0x1_0000;
  }

  /** The four bytes of `static_cast<uint32_t>(v)`, least significant first. */
  function LE32(v: nat): (s: Str)
    ensures |s| == 4
  {
    LE(v, 4)
  }

  function ParseU32(s: Str): Option<(U32, Str)> {
    if |s| < 4 then None
    else
      FourBytes();
      Some((ValueLE(s[..4]), s[4..]))
  }

  lemma U32Bijection(s: Str, v: U32, t: Str)
    ensures ParseU32(s) == Some((v, t)) <==> s == LE32(v) + t
  {
    FourBytes();
    if ParseU32(s) == Some((v, t)) {
      LEOfValue(s[..4]);
      assert s == s[..4] + t;
    }
    if s == LE32(v) + t {
      ValueOfLE(v, 4);
      assert s[..4] == LE32(v) && s[4..] == t;
    }
  }

  lemma TwoParts(s: Str, at: nat, n: nat, a: Str, b: Str)
    requires at + n <= |s| && |a| == n
    ensures s[at..] == a + b <==> s[at..at + n] == a && s[at + n..] == b
  {
    assert s[at..] == s[at..at + n] + s[at + n..];
    assert (a + b)[..n] == a && (a + b)[n..] == b;
  }

  /** The number at an offset, as its four bytes make it: each weighs 256 times the one before. */
  predicate NumberAt(s: Str, at: nat, v: nat) {
    at + 4 <= |s|
    && v == s[at] as int + 0x100 * s[at + 1] as int + 0x1_0000 * s[at + 2] as int + 0x100_0000 * s[at + 3] as int
  }

  lemma FourWeights(s: Str)
    requires |s| == 4
    ensures ValueLE(s) == s[0] as int + 0x100 * s[1] as int + 0x1_0000 * s[2] as int + 0x100_0000 * s[3] as int
  {
    assert s[1..][1..] == s[2..] && s[2..][1..] == s[3..] && s[3..][1..] == [];
    assert ValueLE(s[3..]) == s[3] as int;
    assert ValueLE(s[2..]) == s[2] as int + 256 * ValueLE(s[3..]);
    assert ValueLE(s[1..]) == s[1] as int + 256 * ValueLE(s[2..]);
  }

  /** What is written is what its bytes make. */
  lemma U32ByWeight(s: Str, at: nat, v: U32)
    requires at + 4 <= |s|
    ensures NumberAt(s, at, v) <==> s[at..at + 4] == LE32(v)
  {
    var four := s[at..at + 4];
    FourWeights(four);
    FourBytes();
    hide ValueLE;
    LEOfValue(four);
    ValueOfLE(v, 4);
  }

  /** A `std::vector<uint8_t>` being filled. */
  class ByteVector {
    var data: Str

    constructor (start: Str)
      ensures data == start
    {
      data := start;
    }

    method PushBack(b: Byte)
      modifies this
      ensures data == old(data) + [b]
    {
      data := data + [b];
    }

    method Insert(s: Str)
      modifies this
      ensures data == old(data) + s
    {
      data := data + s;
    }

    method WriteU32(value: nat)
      modifies this
      ensures data == old(data) + LE32(value)
    {
      var rest := value;
      for i := 0 to 4
        invariant data + LE(rest, 4 - i) == old(data) + LE32(value)
      {
        assert LE(rest, 4 - i) == [ToByte(rest % 256)] + LE(rest / 256, 3 - i);
        data := data + [ToByte(rest % 256)];
        rest := rest / 256;
      }
    }
  }

  /** A read position in a fixed input; `bytes.size() - pos` never wraps while `Valid` holds. */
  class Cursor {
    const bytes: Str
    var pos: nat

    ghost predicate Valid()
      reads this
    {
      pos <= |bytes|
    }

    function Rest(): Str
      requires Valid()
      reads this
    {
      bytes[pos..]
    }

    constructor (bytes: Str)
      ensures Valid() && this.bytes == bytes && pos == 0
    {
      this.bytes := bytes;
      pos := 0;
    }

    method ReadU32() returns (r: Option<U32>)
      requires Valid()
      modifies this
      ensures Valid() && old(pos) <= pos
      ensures match ParseU32(old(Rest()))
              case None => r == None && pos == old(pos)
              case Some((v, rest)) => r == Some(v) && Rest() == rest
    {
      if |bytes| - pos < 4 { return None; }
      ghost var four := bytes[pos..][..4];
      var value, weight := 0, 1;
      for i := 0 to 4
        invariant pos == old(pos) + i
        invariant weight == Pow256(i)
        invariant value + weight * ValueLE(four[i..]) == ValueLE(four)
      {
        assert four[i..][1..] == four[i + 1..] && four[i] == bytes[pos];
        Weigh(weight, bytes[pos] as int, ValueLE(four[i + 1..]));
        value, weight := value + weight * bytes[pos] as int, 256 * weight;
        pos := pos + 1;
      }
      FourBytes();
      assert bytes[old(pos)..][4..] == bytes[pos..];
      return Some(value);
    }

    /** `count` bytes, which the caller has checked are there. */
    method Take(count: nat) returns (s: Str)
      requires Valid() && count <= |bytes| - pos
      modifies this
      ensures Valid() && s == old(Rest())[..count] && Rest() == old(Rest())[count..]
      ensures pos == old(pos) + count
    {
      s := bytes[pos..pos + count];
      pos := pos + count;
    }
  }
}
