/** Strings made of slash-separated segments: layout paths and URL paths alike. */
module Slashes {
  import opened Bytes

  /** Empty, or starting with a slash: a path that follows an authority, or what follows a first segment. */
  predicate Rooted(path: Str) { path == [] || path[0] == '/' }

  predicate NoSlash(segments: seq<Str>) { forall s :: s in segments ==> '/' !in s }

  /** Each segment with a slash in front of it. */
  function Slashed(segments: seq<Str>): (path: Str)
    ensures Rooted(path) && (path == [] <==> segments == [])
  {
    if segments == [] then [] else Slashed(segments[..|segments| - 1]) + "/" + segments[|segments| - 1]
  }

  lemma SlashedSnoc(segments: seq<Str>, s: Str)
    ensures Slashed(segments + [s]) == Slashed(segments) + "/" + s
  {
    assert (segments + [s])[..|segments|] == segments;
  }

  lemma {:induction false} SlashedCons(s: Str, segments: seq<Str>)
    ensures Slashed([s] + segments) == "/" + s + Slashed(segments)
  {
    var all := [s] + segments;
    if segments == [] {
      assert all[..0] == [];
      EmptyIsUnit("/" + s);
    } else {
      var init, last := segments[..|segments| - 1], segments[|segments| - 1];
      assert all == ([s] + init) + [last] && segments == init + [last];
      hide Slashed;
      SlashedCons(s, init);
      SlashedSnoc([s] + init, last);
      SlashedSnoc(init, last);
      assert ("/" + s + Slashed(init)) + "/" + last == "/" + s + (Slashed(init) + "/" + last);
    }
  }

  lemma {:induction false} LastSlashIn(path: Str, segment: Str)
    ensures FindLast(path + "/" + segment, '/')
            == |path| + if FindLast(segment, '/') == -1 then 0 else 1 + FindLast(segment, '/')
  {
    var x := path + "/" + segment;
    if segment != [] {
      var init := segment[..|segment| - 1];
      LastSlashIn(path, init);
      assert x[..|x| - 1] == path + "/" + init && x[|x| - 1] == segment[|segment| - 1];
    } else {
      assert x[|x| - 1] == '/';
    }
  }

  lemma LastSlashAfter(path: Str, segment: Str)
    requires '/' !in segment
    ensures FindLast(path + "/" + segment, '/') == |path|
    ensures (path + "/" + segment)[..|path|] == path
  {
    LastSlashIn(path, segment);
  }

  // ----- cutting at the last slash -----

  predicate HasSlash(s: Str) { FindLast(s, '/') >= 0 }

  function BeforeSlash(s: Str): (front: Str)
    requires HasSlash(s)
    ensures |front| < |s|
  {
    s[..FindLast(s, '/')]
  }

  function BehindSlash(s: Str): Str { s[FindLast(s, '/') + 1..] }

  function Below(path: Str, s: Str): Str { path + "/" + s }

  lemma CutSecond(a: Str, b: Str, i: nat)
    requires i <= |b|
    ensures (a + b)[|a| + i..] == b[i..] && (a + b)[..|a| + i] == a + b[..i]
  {
  }

  lemma BelowCut(path: Str, s: Str, k: nat, slash: nat)
    requires k < |s| && slash == |path| + 1 + k
    ensures var x := Below(path, s);
            slash < |x| && x[slash] == s[k] && x[slash + 1..] == s[k + 1..] && x[..slash] == Below(path, s[..k])
  {
    var pre := path + "/";
    assert |pre| == |path| + 1;
    CutSecond(pre, s, k);
    CutSecond(pre, s, k + 1);
  }

  lemma BelowJoin(path: Str, s: Str, slash: nat)
    requires slash == |path|
    ensures var x := Below(path, s);
            slash < |x| && x[slash] == '/' && x[slash + 1..] == s[0..] && x[..slash] == path
  {
  }

  lemma LastSlashBelow(path: Str, s: Str)
    ensures FindLast(Below(path, s), '/')
            == |path| + if FindLast(s, '/') == -1 then 0 else 1 + FindLast(s, '/')
  {
    LastSlashIn(path, s);
  }

  lemma CutOf(path: Str, s: Str)
    ensures var x := Below(path, s);
            && HasSlash(x) && BehindSlash(x) == BehindSlash(s)
            && BeforeSlash(x) == if HasSlash(s) then Below(path, BeforeSlash(s)) else path
  {
    hide FindLast, Below;
    var k, slash := FindLast(s, '/'), FindLast(Below(path, s), '/');
    LastSlashBelow(path, s);
    if k >= 0 {
      BelowCut(path, s, k, slash);
    } else {
      BelowJoin(path, s, slash);
    }
  }

  lemma NothingToCut(s: Str)
    requires '/' !in s
    ensures !HasSlash(s)
  {
  }

  lemma SameLastSlash(a: Str, b: Str)
    requires '/' !in b
    ensures FindLast(a + b, '/') == FindLast(a, '/')
  {
    var s, slash := a + b, FindLast(a, '/');
    forall j | slash < j < |s| ensures s[j] != '/' {
      assert j < |a| || (s[j] == b[j - |a|] && b[j - |a|] in b);
    }
    assert slash >= 0 ==> s[slash] == a[slash] == '/';
  }

  /** What holds no slash stays behind the last one. */
  lemma CutOfLonger(a: Str, b: Str)
    requires '/' !in b
    ensures (HasSlash(a + b) <==> HasSlash(a)) && BehindSlash(a + b) == BehindSlash(a) + b
    ensures HasSlash(a) ==> BeforeSlash(a + b) == BeforeSlash(a)
  {
    hide FindLast;
    SameLastSlash(a, b);
    var slash := FindLast(a, '/');
    DropFirst(a, b, slash + 1);
    if slash >= 0 {
      assert (a + b)[..slash] == a[..slash];
    }
  }

  lemma DropFirst(a: Str, b: Str, i: nat)
    requires i <= |a|
    ensures (a + b)[i..] == a[i..] + b
  {
  }
}
