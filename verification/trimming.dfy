/** Trimming blanks off both ends of a text. */
module Trimming {
  import opened Bytes

  predicate Blank(s: Str) { forall i :: 0 <= i < |s| ==> IsSpace(s[i]) }

  lemma {:induction false} TrimFront(a: Str, s: Str)
    requires Blank(a)
    ensures TrimLeft(a + s) == TrimLeft(s)
  {
    if a == [] {
      EmptyIsUnit(s);
    } else {
      assert (a + s)[0] == a[0] && (a + s)[1..] == a[1..] + s;
      assert forall i :: 0 <= i < |a[1..]| ==> a[1..][i] == a[i + 1];
      TrimFront(a[1..], s);
    }
  }

  lemma {:induction false} BlanksTrimmed(s: Str) returns (a: Str)
    ensures s == a + TrimLeft(s) && Blank(a)
  {
    if s != [] && IsSpace(s[0]) {
      var b := BlanksTrimmed(s[1..]);
      a := [s[0]] + b;
      assert s == a + TrimLeft(s);
    } else {
      a := [];
      EmptyIsUnit(s);
    }
  }

  lemma TrimPlain(s: Str)
    requires s == [] || !IsSpace(s[0])
    ensures TrimLeft(s) == s
  {
  }

  /** Trimming on the right stops at a byte that is no blank. */
  lemma {:induction false} OnlyRestTrimmed(front: Str, rest: Str)
    requires front != [] && !IsSpace(front[|front| - 1])
    ensures TrimRight(front + rest) == front + TrimRight(rest)
    ensures TrimRight(rest) <= rest
  {
    if rest == [] {
      EmptyIsUnit(front);
    } else if IsSpace(rest[|rest| - 1]) {
      assert (front + rest)[..|front + rest| - 1] == front + rest[..|rest| - 1];
      OnlyRestTrimmed(front, rest[..|rest| - 1]);
    }
  }

  lemma {:induction false} TrimmedInFront(s: Str)
    ensures var t := TrimRight(s); t <= s && Blank(s[|t|..])
  {
    if s != [] && IsSpace(s[|s| - 1]) {
      var init := s[..|s| - 1];
      TrimmedInFront(init);
      var t := TrimRight(s);
      assert s[|t|..] == init[|t|..] + [s[|s| - 1]];
    }
  }
}
