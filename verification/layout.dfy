/** Positions as XPath-like strings (src/core/ir_layout.cpp). */
module Layout {
  import opened Bytes
  import opened Dom
  import opened Slashes

  // ----- decimal numbers and segments -----

  /** `std::to_string`. */
  function Decimal(n: nat): Str {
    if n < 10 then [ToByte('0' as int + n)] else Decimal(n / 10) + [ToByte('0' as int + n % 10)]
  }

  lemma {:induction false} DecimalDigits(n: nat)
    ensures |Decimal(n)| > 0 && forall c :: c in Decimal(n) ==> IsDigit(c)
  {
    if n >= 10 {
      DecimalDigits(n / 10);
    }
  }

  lemma {:induction false} DecimalInjective(m: nat, n: nat)
    requires Decimal(m) == Decimal(n)
    ensures m == n
  {
    var a, b := Decimal(m), Decimal(n);
    DecimalDigits(m / 10);
    DecimalDigits(n / 10);
    assert a[|a| - 1] == ToByte('0' as int + m % 10) && b[|b| - 1] == ToByte('0' as int + n % 10);
    if m >= 10 && n >= 10 {
      assert a[..|a| - 1] == Decimal(m / 10) && b[..|b| - 1] == Decimal(n / 10);
      DecimalInjective(m / 10, n / 10);
    }
  }

  function SegmentText(name: Str, index: nat): Str {
    name + "[" + Decimal(index) + "]"
  }

  lemma SegmentInjective(name: Str, index: nat, name': Str, index': nat)
    requires SegmentText(name, index) == SegmentText(name', index')
    ensures name == name' && index == index'
  {
    var s := SegmentText(name, index);
    DecimalDigits(index);
    DecimalDigits(index');
    LastBracket(name, Decimal(index));
    LastBracket(name', Decimal(index'));
    assert name == s[..FindLast(s, '[')] == name';
    assert Decimal(index) == s[|name| + 1..|s| - 1] == Decimal(index');
    DecimalInjective(index, index');
  }

  lemma LastBracket(name: Str, digits: Str)
    requires forall c :: c in digits ==> IsDigit(c)
    ensures FindLast(name + "[" + digits + "]", '[') == |name|
  {
    var s := name + "[" + digits + "]";
    assert s[|name|] == '[';
    forall j | |name| < j < |s| ensures s[j] != '[' {
      assert j == |s| - 1 || (s[j] == digits[j - |name| - 1] && s[j] in digits);
    }
  }

  // ----- paths, top down -----

  /** Elder siblings of the `k`-th child that are elements called `name`. */
  function ElderCount(children: seq<Node>, k: nat, name: Str): nat
    requires k <= |children|
  {
    if k == 0 then 0
    else ElderCount(children, k - 1, name)
         + if children[k - 1].kind.ElementNode? && children[k - 1].name == name then 1 else 0
  }

  function ChildSegment(children: seq<Node>, i: nat): Str
    requires i < |children|
  {
    SegmentText(children[i].name, 1 + ElderCount(children, i, children[i].name))
  }

  function OwnSegments(root: Node, p: Pos): seq<Str>
    requires InTree(root, p)
  {
    if !At(root, p).kind.ElementNode? then []
    else if p == [] then [SegmentText(root.name, 1)]
    else [ChildSegment(At(root, Parent(p)).children, Last(p))]
  }

  /** The segments of a node: its parent's, unless the parent is a document, then its own `name[index]`. */
  function Segments(root: Node, p: Pos): seq<Str>
    requires InTree(root, p)
  {
    if p == [] || At(root, Parent(p)).kind.DocumentNode? then OwnSegments(root, p)
    else Segments(root, Parent(p)) + OwnSegments(root, p)
  }

  function PathOf(root: Node, p: Pos): Str
    requires InTree(root, p)
  {
    Slashed(Segments(root, p))
  }

  // ----- the code -----

  function Reversed(s: seq<Str>): (r: seq<Str>) {
    if s == [] then [] else [s[|s| - 1]] + Reversed(s[..|s| - 1])
  }

  /** The sibling loop of `element_path`. */
  method SiblingIndex(siblings: seq<Node>, at: nat, name: Str) returns (index: nat)
    requires at < |siblings|
    ensures index == 1 + ElderCount(siblings, at, name)
  {
    index := 1;
    for j := 0 to at
      invariant index == 1 + ElderCount(siblings, j, name)
    {
      if siblings[j].kind.ElementNode? && siblings[j].name == name { index := index + 1; }
    }
  }

  /** The joining loop of `element_path`. */
  method JoinSegments(segments: seq<Str>) returns (path: Str)
    ensures path == Slashed(segments)
  {
    path := [];
    for i := 0 to |segments|
      invariant path == Slashed(segments[..i])
    {
      hide Slashed;
      SlashedSnoc(segments[..i], segments[i]);
      TakeMore(segments, i);
      path := path + "/";
      path := path + segments[i];
    }
    TakeAll(segments);
  }

  /** The `name[index]` of one node, as the climb computes it. */
  method OwnSegment(root: Node, p: Pos) returns (segment: Str)
    requires InTree(root, p) && At(root, p).kind.ElementNode?
    ensures OwnSegments(root, p) == [segment]
  {
    var node := At(root, p);
    var index := 1;
    if p != [] {
      index := SiblingIndex(At(root, Parent(p)).children, Last(p), node.name);
    }
    segment := SegmentText(node.name, index);
  }

  /** `element_path` for the node at `p`: climbs to the root, then reverses. */
  method ElementPath(root: Node, p: Pos) returns (path: Str)
    requires InTree(root, p)
    ensures path == if At(root, p).kind.ElementNode? then PathOf(root, p) else []
  {
    if !At(root, p).kind.ElementNode? { return []; }
    hide Slashed, SegmentText, OwnSegments, Segments, Reversed;
    var segments: seq<Str> := [];
    var current, climbing := p, true;
    ReversedNil();
    while climbing
      invariant InTree(root, current)
      invariant Segments(root, p)
             == if climbing then Segments(root, current) + Reversed(segments) else Reversed(segments)
      decreases |current|, climbing
    {
      ClimbOne(root, current, Reversed(segments));
      if At(root, current).kind.ElementNode? {
        var segment := OwnSegment(root, current);
        ReversedSnoc(segments, segment);
        segments := segments + [segment];
      } else {
        NoOwnSegment(root, current);
      }
      if current == [] {
        climbing := false;
      } else {
        current := Parent(current);
        if At(root, current).kind.DocumentNode? { climbing := false; }
      }
    }
    path := JoinSegments(Reversed(segments));
  }

  lemma ReversedNil()
    ensures forall s: seq<Str> :: s + Reversed([]) == s
  {
  }

  /** One turn of the climb: the node's own segment moves to the front of what has been collected. */
  lemma ClimbOne(root: Node, p: Pos, collected: seq<Str>)
    requires InTree(root, p)
    ensures var own := OwnSegments(root, p);
            && (own == [] ==> own + collected == collected)
            && Segments(root, p) + collected
               == if p == [] || At(root, Parent(p)).kind.DocumentNode? then own + collected
                  else Segments(root, Parent(p)) + (own + collected)
  {
  }

  lemma NoOwnSegment(root: Node, p: Pos)
    requires InTree(root, p) && !At(root, p).kind.ElementNode?
    ensures OwnSegments(root, p) == []
  {
  }

  lemma ReversedSnoc(s: seq<Str>, x: Str)
    ensures Reversed(s + [x]) == [x] + Reversed(s)
  {
    assert (s + [x])[..|s|] == s;
  }

  predicate IsBlank(c: Byte) { c == ' ' || c == '\t' || c == '\n' || c == '\r' }

  /** Some byte is none of the four blanks. */
  predicate Renderable(text: Str) { exists c :: c in text && c !in " \t\n\r" }

  lemma FourBlanks(c: Byte)
    ensures IsBlank(c) <==> c in " \t\n\r"
  {
    var blanks: Str := " \t\n\r";
    assert blanks[0] == ' ' && blanks[1] == '\t' && blanks[2] == '\n' && blanks[3] == '\r';
  }

  method IsRenderableText(text: Str) returns (r: bool)
    ensures r <==> Renderable(text)
  {
    for i := 0 to |text|
      invariant forall j :: 0 <= j < i ==> text[j] in " \t\n\r"
    {
      FourBlanks(text[i]);
      if !IsBlank(text[i]) { return true; }
    }
    return false;
  }

  function TagFromPath(path: Str): Str {
    var slash := FindLast(path, '/');
    if slash == -1 || slash + 1 >= |path| then []
    else
      var segment := path[slash + 1..];
      if StartsWith(segment, "text()") || StartsWith(segment, "@") then []
      else segment[..Find(segment, '[', 0)]
  }

  predicate IsWithinScope(candidate: Str, scope: Str) {
    candidate == scope
    || (|candidate| > |scope| && candidate[..|scope|] == scope && candidate[|scope|] == '/')
  }
}
