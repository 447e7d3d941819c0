/** What the path strings of src/core/ir_layout.cpp mean: distinct elements have distinct paths, and scope is ancestry. */
module LayoutPaths {
  import opened Bytes
  import opened Dom
  import opened Layout
  import opened Slashes

  // ----- strings -----

  /** Scope, one slash at a time: either the same string, or what remains before the last slash is in scope. */
  lemma WithinByLastSlash(x: Str, s: Str)
    ensures IsWithinScope(x, s) <==> x == s || (HasSlash(x) && IsWithinScope(BeforeSlash(x), s))
  {
    var k := FindLast(x, '/');
    if k >= 0 {
      if x != s && IsWithinScope(x, s) {
        assert |s| <= k;
        assert x[..k][..|s|] == x[..|s|];
      }
      if IsWithinScope(x[..k], s) {
        assert x[..k][..|s|] == x[..|s|];
        assert x[|s|] == '/';
      }
    }
  }

  /** A name that itself holds a whole segment and a slash. */
  predicate Holds(name: Str, x: Str, k: nat, y: Str) { k >= 1 && name == SegmentText(x, k) + "/" + y }

  ghost predicate Deceptive(name: Str) { exists x: Str, k: nat, y: Str :: Holds(name, x, k, y) }

  lemma PlainIsHonest(name: Str)
    requires '/' !in name
    ensures !Deceptive(name)
  {
    forall x: Str, k: nat, y: Str ensures !Holds(name, x, k, y) {
      var s := SegmentText(x, k);
      assert (s + "/" + y)[|s|] == '/';
    }
  }

  predicate IsSegment(s: Str, name: Str, k: nat) { k >= 1 && s == SegmentText(name, k) }

  ghost predicate HonestSegment(s: Str) { exists name: Str, k: nat :: IsSegment(s, name, k) && !Deceptive(name) }

  ghost predicate Honest(segments: seq<Str>) { forall s :: s in segments ==> HonestSegment(s) }

  /** Inside a segment, a slash belongs to the name. */
  lemma SlashInName(name: Str, k: nat, i: nat)
    requires i < |SegmentText(name, k)| && SegmentText(name, k)[i] == '/'
    ensures i < |name|
  {
    DecimalDigits(k);
    var s, digits := SegmentText(name, k), Decimal(k);
    forall j | |name| <= j < |s| ensures s[j] != '/' {
      assert j == |name| || j == |s| - 1 || (s[j] == digits[j - |name| - 1] && digits[j - |name| - 1] in digits);
    }
  }

  /** No segment with a slash behind it is the front of an honest segment. */
  lemma NotInFront(s: Str, t: Str)
    requires HonestSegment(s) && HonestSegment(t)
    ensures !(s + "/" <= t)
  {
    hide Deceptive, SegmentText;
    var x, k :| IsSegment(s, x, k);
    var name, j :| IsSegment(t, name, j) && !Deceptive(name);
    if s + "/" <= t {
      assert t[|s|] == (s + "/")[|s|] == '/';
      SlashInName(name, j, |s|);
      SplitName(s, name, j);
      HeldIsDeceptive(name, x, k, name[|s| + 1..]);
    }
  }

  lemma SplitName(s: Str, name: Str, j: nat)
    requires s + "/" <= SegmentText(name, j) && |s| < |name|
    ensures name == s + "/" + name[|s| + 1..]
  {
    var t := SegmentText(name, j);
    assert name == t[..|name|] && t[..|s| + 1] == s + "/";
    assert name[..|s| + 1] == s + "/";
  }

  lemma HeldIsDeceptive(name: Str, x: Str, k: nat, y: Str)
    requires Holds(name, x, k, y)
    ensures Deceptive(name)
  {
  }

  /** Two texts that start with an honest segment, up to a slash or the end, start with the same one. */
  lemma SameFront(s: Str, u: Str, t: Str, v: Str)
    requires HonestSegment(s) && HonestSegment(t) && Rooted(u) && Rooted(v) && s + u == t + v
    ensures s == t && u == v
  {
    hide HonestSegment;
    if |s| < |t| {
      FrontOf(s, u, t, v);
      NotInFront(s, t);
    } else if |t| < |s| {
      FrontOf(t, v, s, u);
      NotInFront(t, s);
    }
    assert (s + u)[..|s|] == s && (t + v)[..|t|] == t;
    assert (s + u)[|s|..] == u && (t + v)[|t|..] == v;
  }

  lemma FrontOf(s: Str, u: Str, t: Str, v: Str)
    requires |s| < |t| && Rooted(u) && s + u == t + v
    ensures s + "/" <= t
  {
    var all := s + u;
    assert all[..|t|] == t && all[..|s|] == s && all[|s|] == u[0];
  }

  lemma WithinIsFront(x: Str, scope: Str)
    ensures IsWithinScope(x, scope) <==> scope <= x && Rooted(x[|scope|..])
  {
  }

  /** Scope between rendered paths is the prefix order on their segments. */
  lemma {:induction false} ScopeIsPrefix(a: seq<Str>, b: seq<Str>)
    requires Honest(a) && Honest(b)
    ensures IsWithinScope(Slashed(a), Slashed(b)) <==> b <= a
  {
    hide HonestSegment, Slashed, IsWithinScope, Rooted;
    WithinIsFront(Slashed(a), Slashed(b));
    if b == [] || a == [] {
      EmptySlashed(a, b);
    } else {
      ScopeIsPrefix(a[1..], b[1..]);
      WithinIsFront(Slashed(a[1..]), Slashed(b[1..]));
      FrontsAgree(a, b);
    }
  }

  lemma EmptySlashed(a: seq<Str>, b: seq<Str>)
    requires b == [] || a == []
    ensures Slashed(b) <= Slashed(a) && Rooted(Slashed(a)[|Slashed(b)|..]) <==> b <= a
  {
  }

  lemma FrontsAgree(a: seq<Str>, b: seq<Str>)
    requires a != [] && b != [] && HonestSegment(a[0]) && HonestSegment(b[0])
    ensures Slashed(b) <= Slashed(a) && Rooted(Slashed(a)[|Slashed(b)|..])
            <==> a[0] == b[0] && Slashed(b[1..]) <= Slashed(a[1..])
                 && Rooted(Slashed(a[1..])[|Slashed(b[1..])|..])
  {
    assert a == [a[0]] + a[1..] && b == [b[0]] + b[1..];
    SlashedCons(a[0], a[1..]);
    SlashedCons(b[0], b[1..]);
    var x, y, x', y' := Slashed(a), Slashed(b), Slashed(a[1..]), Slashed(b[1..]);
    hide *;
    if y <= x && Rooted(x[|y|..]) {
      TakeAndDropPrefix(y, x);
      BehindFront(a[0], x', b[0], y', x[|y|..]);
    } else if a[0] == b[0] && y' <= x' && Rooted(x'[|y'|..]) {
      TakeAndDropPrefix(y', x');
      InFrontOf(a[0], y', x'[|y'|..]);
    }
  }

  lemma TakeAndDropPrefix(y: Str, x: Str)
    requires y <= x
    ensures x == y + x[|y|..]
  {
  }

  lemma BehindFront(s: Str, x: Str, t: Str, y: Str, v: Str)
    requires HonestSegment(s) && HonestSegment(t) && Rooted(x) && Rooted(y) && Rooted(v)
    requires "/" + s + x == ("/" + t + y) + v
    ensures s == t && y <= x && x[|y|..] == v
  {
    hide HonestSegment;
    assert ("/" + s + x)[1..] == s + x && (("/" + t + y) + v)[1..] == t + (y + v);
    SameFront(s, x, t, y + v);
  }

  lemma InFrontOf(s: Str, y: Str, v: Str)
    ensures var x := "/" + s + (y + v); "/" + s + y <= x && x[|"/" + s + y|..] == v
  {
    assert "/" + s + (y + v) == ("/" + s + y) + v;
  }

  lemma SlashedInjective(a: seq<Str>, b: seq<Str>)
    requires Honest(a) && Honest(b) && Slashed(a) == Slashed(b)
    ensures a == b
  {
    ScopeIsPrefix(a, b);
    ScopeIsPrefix(b, a);
  }

  // ----- trees -----

  /** A document node only at the root, as the tree builder makes it. */
  ghost predicate ProperTree(root: Node) {
    forall p :: InTree(root, p) && p != [] ==> !At(root, p).kind.DocumentNode?
  }

  /** No element's name holds a whole segment and a slash. */
  ghost predicate HonestNames(root: Node) {
    forall p :: InTree(root, p) && At(root, p).kind.ElementNode? ==> !Deceptive(At(root, p).name)
  }

  /** `p` is an element, and so is every node above it but a document root: what the model walk visits. */
  predicate IsWalked(root: Node, p: Pos) {
    && InTree(root, p)
    && At(root, p).kind.ElementNode?
    && (p == []
        || (Parent(p) == [] && At(root, Parent(p)).kind.DocumentNode?)
        || IsWalked(root, Parent(p)))
  }

  lemma {:induction false} WalkedSegments(root: Node, p: Pos)
    requires IsWalked(root, p)
    ensures |Segments(root, p)| == |p| + if root.kind.DocumentNode? then 0 else 1
    ensures Segments(root, p) != []
    decreases |p|
  {
    if p != [] && IsWalked(root, Parent(p)) {
      WalkedSegments(root, Parent(p));
    } else if p != [] {
      assert |p| == 1;
    }
  }

  lemma {:induction false} WalkedHonest(root: Node, p: Pos)
    requires IsWalked(root, p) && HonestNames(root)
    ensures Honest(Segments(root, p))
    decreases |p|
  {
    hide Deceptive, SegmentText, HonestSegment;
    OwnSegmentHonest(root, p);
    if p != [] && IsWalked(root, Parent(p)) {
      WalkedHonest(root, Parent(p));
    }
  }

  lemma OwnSegmentHonest(root: Node, p: Pos)
    requires InTree(root, p) && At(root, p).kind.ElementNode? && HonestNames(root)
    ensures Honest(OwnSegments(root, p))
  {
    var name := At(root, p).name;
    var index := if p == [] then 1 else 1 + ElderCount(At(root, Parent(p)).children, Last(p), name);
    assert OwnSegments(root, p) == [SegmentText(name, index)];
    assert IsSegment(SegmentText(name, index), name, index);
  }

  lemma {:induction false} ElderCountMonotone(children: seq<Node>, i: nat, j: nat, name: Str)
    requires i <= j <= |children|
    ensures ElderCount(children, i, name) <= ElderCount(children, j, name)
    decreases j - i
  {
    if i < j {
      ElderCountMonotone(children, i, j - 1, name);
    }
  }

  /** Same-named element siblings get different indices. */
  lemma SiblingsDiffer(children: seq<Node>, i: nat, j: nat)
    requires i < |children| && j < |children|
    requires children[i].kind.ElementNode? && children[j].kind.ElementNode?
    requires ChildSegment(children, i) == ChildSegment(children, j)
    ensures i == j
  {
    var a, b := children[i].name, children[j].name;
    SegmentInjective(a, 1 + ElderCount(children, i, a), b, 1 + ElderCount(children, j, b));
    if i < j {
      ElderCountMonotone(children, i + 1, j, a);
    } else if j < i {
      ElderCountMonotone(children, j + 1, i, a);
    }
  }

  lemma LastOfTwo<T>(a: seq<T>, x: T, b: seq<T>, y: T)
    requires a + [x] == b + [y]
    ensures a == b && x == y
  {
    assert (a + [x])[|a|] == x && (b + [y])[|b|] == y;
    assert (a + [x])[..|a|] == a && (b + [y])[..|b|] == b;
  }

  lemma ChildOf(root: Node, q: Pos)
    requires InTree(root, q) && q != []
    ensures Last(q) < |At(root, Parent(q)).children| && At(root, Parent(q)).children[Last(q)] == At(root, q)
  {
  }

  /** The segments of a walked element's parent, if that has any. */
  function ParentSegments(root: Node, p: Pos): seq<Str>
    requires InTree(root, p) && p != []
  {
    if At(root, Parent(p)).kind.DocumentNode? then [] else Segments(root, Parent(p))
  }

  lemma WalkedStep(root: Node, p: Pos)
    requires IsWalked(root, p) && p != []
    ensures Last(p) < |At(root, Parent(p)).children| && At(root, Parent(p)).children[Last(p)].kind.ElementNode?
    ensures Segments(root, p) == ParentSegments(root, p) + [ChildSegment(At(root, Parent(p)).children, Last(p))]
    ensures At(root, Parent(p)).kind.DocumentNode? || IsWalked(root, Parent(p))
  {
    ChildOf(root, p);
  }

  lemma SamePosition(p: Pos, q: Pos)
    requires p != [] && q != [] && Parent(p) == Parent(q) && Last(p) == Last(q)
    ensures p == q
  {
    assert p == Parent(p) + [Last(p)] && q == Parent(q) + [Last(q)];
  }

  lemma {:induction false} SegmentsInjective(root: Node, p: Pos, q: Pos)
    requires IsWalked(root, p) && IsWalked(root, q)
    requires Segments(root, p) == Segments(root, q)
    ensures p == q
    decreases |p|, 1
  {
    hide Segments, OwnSegments;
    WalkedSegments(root, p);
    WalkedSegments(root, q);
    if p != [] {
      WalkedStep(root, p);
      WalkedStep(root, q);
      hide Lookup, ChildSegment;
      LastOfTwo(ParentSegments(root, p), ChildSegment(At(root, Parent(p)).children, Last(p)),
                ParentSegments(root, q), ChildSegment(At(root, Parent(q)).children, Last(q)));
      SameParent(root, p, q);
      SiblingsDiffer(At(root, Parent(p)).children, Last(p), Last(q));
      SamePosition(p, q);
    }
  }

  /** Walked elements of the same depth whose parents have the same segments have the same parent. */
  lemma {:induction false} SameParent(root: Node, p: Pos, q: Pos)
    requires IsWalked(root, p) && IsWalked(root, q)
    requires p != [] && |p| == |q| && ParentSegments(root, p) == ParentSegments(root, q)
    ensures Parent(p) == Parent(q)
    decreases |p|, 0
  {
    hide Segments;
    if |p| > 1 {
      SegmentsInjective(root, Parent(p), Parent(q));
    }
  }

  lemma {:induction false} AncestorSegments(root: Node, p: Pos, k: nat)
    requires IsWalked(root, p) && k <= |p| && (k == 0 ==> !root.kind.DocumentNode?)
    ensures IsWalked(root, p[..k])
    ensures Segments(root, p[..k]) <= Segments(root, p)
    decreases |p|
  {
    WalkedSegments(root, p);
    if k == |p| {
      assert p[..k] == p;
    } else {
      var p0 := Parent(p);
      assert IsWalked(root, p0);
      AncestorSegments(root, p0, k);
      WalkedSegments(root, p0);
      assert p0[..k] == p[..k];
      assert Segments(root, p0) <= Segments(root, p);
    }
  }

  /** Where no name is deceptive, two different elements never get the same path. */
  lemma PathsAreUnique(root: Node, p: Pos, q: Pos)
    requires IsWalked(root, p) && IsWalked(root, q) && HonestNames(root)
    ensures PathOf(root, p) == PathOf(root, q) <==> p == q
  {
    hide Segments, Honest, Slashed, HonestNames;
    if PathOf(root, p) == PathOf(root, q) {
      WalkedHonest(root, p);
      WalkedHonest(root, q);
      SlashedInjective(Segments(root, p), Segments(root, q));
      SegmentsInjective(root, p, q);
    }
  }

  /** And scope is ancestry: `p`'s path is within `q`'s exactly when `q` is `p` or above it. */
  lemma ScopeIsAncestry(root: Node, p: Pos, q: Pos)
    requires IsWalked(root, p) && IsWalked(root, q) && HonestNames(root)
    ensures IsWithinScope(PathOf(root, p), PathOf(root, q)) <==> q <= p
  {
    hide Segments, Slashed, OwnSegments, Honest, HonestNames, IsWithinScope;
    WalkedHonest(root, p);
    WalkedHonest(root, q);
    WalkedSegments(root, p);
    WalkedSegments(root, q);
    ScopeIsPrefix(Segments(root, p), Segments(root, q));
    if |q| <= |p| {
      AncestorSegments(root, p, |q|);
      WalkedSegments(root, p[..|q|]);
      if Segments(root, q) <= Segments(root, p) {
        SamePrefix(Segments(root, q), Segments(root, p[..|q|]), Segments(root, p));
        SegmentsInjective(root, p[..|q|], q);
      }
      if q <= p {
        assert p[..|q|] == q;
      }
    }
  }

  lemma SamePrefix(a: seq<Str>, b: seq<Str>, c: seq<Str>)
    requires a <= c && b <= c && |a| == |b|
    ensures a == b
  {
  }

  // ----- every deceptive name deceives -----

  /** An element `b` in an element `a`, and beside that an element whose name holds a slash. */
  function SlashedName(): Node {
    Node(DocumentNode, [], [], [],
         [Node(ElementNode, "a", [], [], [Node(ElementNode, "b", [], [], [])]), Node(ElementNode, "a[1]/b", [], [], [])])
  }

  lemma SlashedNamePositions()
    ensures var root := SlashedName();
            IsWalked(root, [0]) && IsWalked(root, [0, 0]) && IsWalked(root, [1])
            && Segments(root, [0, 0]) == [SegmentText("a", 1), SegmentText("b", 1)]
            && Segments(root, [1]) == [SegmentText("a[1]/b", 1)]
  {
    hide SegmentText;
    var root := SlashedName();
    var p: Pos, q: Pos, r: Pos := [0], [0, 0], [1];
    assert Parent(p) == [] && Parent(q) == p && Parent(r) == [];
    assert At(root, []) == root && At(root, p) == root.children[0] && At(root, r) == root.children[1];
    assert At(root, q) == root.children[0].children[0];
    assert ElderCount(root.children, 0, "a") == 0 && ElderCount(root.children[0].children, 0, "b") == 0;
    assert ElderCount(root.children, 1, "a[1]/b") == 0;
    assert Segments(root, p) == [SegmentText("a", 1)];
  }

  /** Two elements with the same path. */
  lemma SlashedNamesClash()
    ensures var root := SlashedName();
            IsWalked(root, [0, 0]) && IsWalked(root, [1]) && PathOf(root, [0, 0]) == PathOf(root, [1])
  {
    hide Segments, IsWalked;
    SlashedNamePositions();
    OneIsPlain();
    hide Decimal;
    var a, b, c := SegmentText("a", 1), SegmentText("b", 1), SegmentText("a[1]/b", 1);
    assert a == "a[1]" && b == "b[1]" && c == "a[1]/b[1]";
    TwoSlashed(a, b);
    TwoSlashed(c, []);
    hide Slashed;
    assert "/" + a + "/" + b == "/" + c;
  }

  lemma OneIsPlain()
    ensures Decimal(1) == "1"
  {
  }

  lemma TwoSlashed(a: Str, b: Str)
    ensures Slashed([a, b]) == "/" + a + "/" + b && Slashed([a]) == "/" + a
  {
    SlashedSnoc([a], b);
    SlashedSnoc([], a);
    assert [a] + [b] == [a, b] && [] + [a] == [a] && Slashed([]) == [];
  }

  function Leaf(name: Str): Node { Node(ElementNode, name, [], [], []) }

  function Copies(name: Str, n: nat): (nodes: seq<Node>)
    ensures |nodes| == n && forall c :: c in nodes ==> c == Leaf(name)
  {
    if n == 0 then [] else Copies(name, n - 1) + [Leaf(name)]
  }

  /** A deceptive name starts with a segment whose own name is honest. */
  lemma {:induction false} HonestFront(name: Str, x: Str, k: nat, y: Str)
    requires Holds(name, x, k, y)
    ensures exists x': Str, k': nat, y': Str :: Holds(name, x', k', y') && !Deceptive(x')
    decreases |x|
  {
    hide SegmentText;
    if Deceptive(x) {
      var x', k', y' :| Holds(x, x', k', y');
      HoldsFurther(name, x, k, y, x', k', y');
      HonestFront(name, x', k', SegmentText(y', k) + "/" + y);
    }
  }

  lemma HoldsFurther(name: Str, x: Str, k: nat, y: Str, x': Str, k': nat, y': Str)
    requires Holds(name, x, k, y) && Holds(x, x', k', y')
    ensures Holds(name, x', k', SegmentText(y', k) + "/" + y) && |x'| < |x|
  {
    var s, index: Str := SegmentText(x', k'), "[" + Decimal(k) + "]";
    assert (s + "/" + y') + index == s + "/" + (y' + index);
    assert (s + "/" + (y' + index)) + "/" + y == s + "/" + ((y' + index) + "/" + y);
    SegmentIs(x, k);
    SegmentIs(y', k);
  }

  lemma SegmentIs(name: Str, k: nat)
    ensures SegmentText(name, k) == name + ("[" + Decimal(k) + "]")
  {
  }

  /**
   * Elements with honest names, the last of which leads to an element whose path spells `text`: copies of the first name
   * that `text` holds, as many as its index says, and inside the last copy the rest.
   */
  ghost function Spelled(text: Str): seq<Node>
    decreases |text|
  {
    if !Deceptive(text) then [Leaf(text)]
    else
      var (x, k, y) := SplitOf(text);
      Copies(x, k - 1) + [Node(ElementNode, x, [], [], Spelled(y))]
  }

  /** How a deceptive text is split into an honest name, an index and the rest. */
  ghost function SplitOf(text: Str): (split: (Str, nat, Str))
    requires Deceptive(text)
    ensures Holds(text, split.0, split.1, split.2) && !Deceptive(split.0)
    ensures |split.0| < |text| && |split.2| < |text|
  {
    var x: Str, k: nat, y: Str :| Holds(text, x, k, y);
    HonestFront(text, x, k, y);
    var x': Str, k': nat, y': Str :| Holds(text, x', k', y') && !Deceptive(x');
    (x', k', y')
  }

  /** Here and below every element but those called `name` has an honest name. */
  ghost predicate OthersHonestBelow(n: Node, name: Str) {
    (n.kind.ElementNode? && n.name != name ==> !Deceptive(n.name))
    && forall c :: c in n.children ==> OthersHonestBelow(c, name)
  }

  lemma {:induction false} SpelledHonest(text: Str, name: Str)
    ensures forall c :: c in Spelled(text) ==> OthersHonestBelow(c, name)
    ensures Deceptive(text) ==> forall c :: c in Spelled(text) ==> |c.name| < |text|
    decreases |text|
  {
    hide Holds;
    if Deceptive(text) {
      SpelledHonest(SplitOf(text).2, name);
    }
  }

  lemma {:induction false} CopiesCount(children: seq<Node>, name: Str, n: nat, i: nat)
    requires i <= n <= |children| && Copies(name, n) <= children
    ensures ElderCount(children, i, name) == i
  {
    if i > 0 {
      CopiesCount(children, name, n, i - 1);
      assert children[i - 1] == Copies(name, n)[i - 1] && Copies(name, n)[i - 1] in Copies(name, n);
    }
  }

  /** The path in front of a child of the node at `p`. */
  function BasePath(root: Node, p: Pos): Str
    requires InTree(root, p)
  {
    if At(root, p).kind.DocumentNode? then [] else PathOf(root, p)
  }

  ghost predicate IsBase(root: Node, p: Pos) {
    InTree(root, p) && (IsWalked(root, p) || (p == [] && root.kind.DocumentNode?))
  }

  lemma WalkedChild(root: Node, p: Pos, i: nat)
    requires IsBase(root, p) && i < |At(root, p).children| && At(root, p).children[i].kind.ElementNode?
    ensures IsWalked(root, p + [i]) && At(root, p + [i]) == At(root, p).children[i]
    ensures PathOf(root, p + [i]) == BasePath(root, p) + "/" + ChildSegment(At(root, p).children, i)
  {
    hide Slashed, ChildSegment;
    ChildAt(root, p, i);
    var own := ChildSegment(At(root, p).children, i);
    assert OwnSegments(root, p + [i]) == [own];
    SlashedSnoc(Segments(root, p), own);
    SlashedSnoc([], own);
    assert [] + [own] == [own] && Slashed([]) == [];
  }

  lemma {:induction false} SpelledPath(root: Node, p: Pos, text: Str) returns (q: Pos)
    requires IsBase(root, p) && Spelled(text) <= At(root, p).children
    ensures IsWalked(root, q) && PathOf(root, q) == BasePath(root, p) + "/" + SegmentText(text, 1)
    ensures p < q && q[|p|] < |Spelled(text)|
    decreases |text|
  {
    hide Deceptive, SegmentText, PathOf, IsWalked;
    var children := At(root, p).children;
    if !Deceptive(text) {
      assert children[0] == Leaf(text) && ElderCount(children, 0, text) == 0;
      WalkedChild(root, p, 0);
      q := p + [0];
    } else {
      var (x, k, y) := SplitOf(text);
      var i := k - 1;
      assert children[i] == Spelled(text)[i] == Node(ElementNode, x, [], [], Spelled(y));
      CopiesCount(children, x, i, i);
      WalkedChild(root, p, i);
      q := SpelledPath(root, p + [i], y);
      SpellJoin(BasePath(root, p), text, x, k, y);
    }
  }

  lemma SpellJoin(base: Str, text: Str, x: Str, k: nat, y: Str)
    requires Holds(text, x, k, y)
    ensures (base + "/" + SegmentText(x, k)) + "/" + SegmentText(y, 1) == base + "/" + SegmentText(text, 1)
  {
    hide SegmentText, Decimal;
    var s := SegmentText(x, k);
    SegmentIs(y, 1);
    SegmentIs(text, 1);
    JoinTwo(base, s, y, "[" + Decimal(1) + "]");
  }

  lemma JoinTwo(base: Str, s: Str, y: Str, index: Str)
    ensures (base + "/" + s) + "/" + (y + index) == base + "/" + ((s + "/" + y) + index)
  {
  }

  /** The document that spells out `name`, with an element called `name` at the end. */
  ghost function Spelling(name: Str): Node { Node(DocumentNode, [], [], [], Spelled(name) + [Leaf(name)]) }

  /** Every element but those called `name` has an honest name. */
  ghost predicate OthersHonest(root: Node, name: Str) {
    forall p :: InTree(root, p) && At(root, p).kind.ElementNode? && At(root, p).name != name ==> !Deceptive(At(root, p).name)
  }

  /** An element called `name` shares its path with another one, though no other name is deceptive. */
  ghost predicate SharesPath(root: Node, name: Str, p: Pos, q: Pos) {
    && OthersHonest(root, name) && IsWalked(root, p) && IsWalked(root, q) && p != q
    && At(root, q).name == name && PathOf(root, p) == PathOf(root, q)
  }

  lemma {:induction false} OthersHonestAt(root: Node, p: Pos, name: Str)
    requires OthersHonestBelow(root, name) && InTree(root, p)
    ensures OthersHonestBelow(At(root, p), name)
    decreases |p|
  {
    if p != [] {
      OthersHonestAt(root, Parent(p), name);
      ChildOf(root, p);
      assert At(root, p) in At(root, Parent(p)).children;
    }
  }

  lemma OthersAreHonest(root: Node, name: Str)
    requires OthersHonestBelow(root, name)
    ensures OthersHonest(root, name)
  {
    forall p | InTree(root, p) && At(root, p).kind.ElementNode? && At(root, p).name != name
      ensures !Deceptive(At(root, p).name)
    {
      OthersHonestAt(root, p, name);
    }
  }

  lemma {:induction false} NoElders(children: seq<Node>, k: nat, name: Str)
    requires k <= |children| && forall i :: 0 <= i < k ==> children[i].name != name
    ensures ElderCount(children, k, name) == 0
  {
    if k > 0 {
      NoElders(children, k - 1, name);
    }
  }

  /** In the document that spells it out, a deceptive name shares its path. */
  lemma SpellingShares(name: Str) returns (p: Pos, q: Pos)
    requires Deceptive(name)
    ensures SharesPath(Spelling(name), name, p, q)
  {
    hide Deceptive, PathOf, IsWalked, SegmentText;
    var root, spelled := Spelling(name), Spelled(name);
    SpelledHonest(name, name);
    OthersAreHonest(root, name);
    hide OthersHonest, OthersHonestBelow, Spelled;
    p := SpelledPath(root, [], name);
    q := [] + [|spelled|];
    NoElders(root.children, |spelled|, name);
    WalkedChild(root, [], |spelled|);
  }

  /**
   * The names that deceive are exactly those that can: a name holds a whole segment and a slash if and only if in some
   * tree without another such name an element so called shares its path.
   */
  lemma DeceptiveIff(name: Str)
    ensures Deceptive(name) <==> exists root: Node, p: Pos, q: Pos :: SharesPath(root, name, p, q)
  {
    hide Deceptive, PathOf, IsWalked;
    if Deceptive(name) {
      var p, q := SpellingShares(name);
    } else if root: Node, p: Pos, q: Pos :| SharesPath(root, name, p, q) {
      PathsAreUnique(root, p, q);
    }
  }
}
