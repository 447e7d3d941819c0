/** What a layout path says of its element (src/core/ir_layout.cpp). */
module PathRules {
  import opened Bytes
  import opened Decimals
  import opened Dom
  import opened Layout
  import opened Slashes

  /** The elder siblings of the same name. */
  function Namesakes(children: seq<Node>, k: nat, name: Str): set<nat>
    requires k <= |children|
  {
    set j | 0 <= j < k && children[j].kind.ElementNode? && children[j].name == name
  }

  lemma {:induction false} EldersCounted(children: seq<Node>, k: nat, name: Str)
    requires k <= |children|
    ensures ElderCount(children, k, name) == |Namesakes(children, k, name)|
  {
    if k > 0 {
      EldersCounted(children, k - 1, name);
      var before, all := Namesakes(children, k - 1, name), Namesakes(children, k, name);
      if children[k - 1].kind.ElementNode? && children[k - 1].name == name {
        assert all == before + {k - 1};
      } else {
        assert all == before;
      }
    }
  }

  /** An index is written in decimal, without zeros in front. */
  lemma {:induction false} DecimalSpells(n: nat)
    ensures Spells(Decimal(n), n) && Decimal(n) != [] && (n > 0 ==> Decimal(n)[0] != '0')
  {
    var digits := Decimal(n);
    DigitIs(digits[|digits| - 1], n % 10);
    hide DIGITS;
    if n < 10 {
      assert digits[..|digits| - 1] == [];
    } else {
      DecimalSpells(n / 10);
      assert digits[..|digits| - 1] == Decimal(n / 10);
    }
  }

  function Index(root: Node, p: Pos): nat
    requires InTree(root, p)
  {
    if p == [] then 1
    else
      InParent(root, p);
      1 + |Namesakes(At(root, Parent(p)).children, Last(p), At(root, p).name)|
  }

  lemma InParent(root: Node, p: Pos)
    requires InTree(root, p) && p != []
    ensures InTree(root, Parent(p)) && Last(p) < |At(root, Parent(p)).children|
    ensures At(root, p) == At(root, Parent(p)).children[Last(p)]
  {
  }

  predicate IsPath(path: Str, above: Str, name: Str, digits: Str) { path == above + "/" + name + "[" + digits + "]" }

  /**
   * The path of an element is that of what holds it, nothing for a document, then a slash, its name, and in brackets its
   * place among the siblings of that name, counted from 1.
   */
  lemma PathSays(root: Node, p: Pos) returns (digits: Str)
    requires InTree(root, p) && At(root, p).kind.ElementNode?
    ensures p != [] ==> InTree(root, Parent(p))
    ensures var above := if p == [] || At(root, Parent(p)).kind.DocumentNode? then [] else PathOf(root, Parent(p));
            IsPath(PathOf(root, p), above, At(root, p).name, digits)
    ensures Spells(digits, Index(root, p)) && digits != [] && digits[0] != '0'
  {
    hide Decimal, Namesakes, ElderCount, Spells, ChildSegment, Segments;
    digits := Decimal(Index(root, p));
    DecimalSpells(Index(root, p));
    var segment := SegmentText(At(root, p).name, Index(root, p));
    if p != [] {
      InParent(root, p);
    }
    OwnSegmentIs(root, p);
    LastSegment(root, p, segment);
  }

  lemma OwnSegmentIs(root: Node, p: Pos)
    requires InTree(root, p) && At(root, p).kind.ElementNode?
    ensures OwnSegments(root, p) == [SegmentText(At(root, p).name, Index(root, p))]
  {
    hide Decimal, Namesakes, ElderCount;
    if p != [] {
      InParent(root, p);
      EldersCounted(At(root, Parent(p)).children, Last(p), At(root, p).name);
    }
  }

  lemma LastSegment(root: Node, p: Pos, segment: Str)
    requires InTree(root, p) && OwnSegments(root, p) == [segment] && (p != [] ==> InTree(root, Parent(p)))
    ensures var above := if p == [] || At(root, Parent(p)).kind.DocumentNode? then [] else PathOf(root, Parent(p));
            PathOf(root, p) == above + "/" + segment
  {
    hide OwnSegments, Lookup;
    SlashedSnoc([], segment);
    EmptyIsUnit([segment]);
    if p != [] && !At(root, Parent(p)).kind.DocumentNode? {
      SlashedSnoc(Segments(root, Parent(p)), segment);
    }
  }
}
