/** The DOM tree (src/flatworm/dom_internal.hpp). A node is named by its position: the child indices from the root. */
module Dom {
  import opened Bytes

  datatype Attribute = Attribute(name: Str, value: Str)

  datatype NodeType = DocumentNode | ElementNode | TextNode | CommentNode | DoctypeNode

  datatype Node = Node(kind: NodeType, name: Str, attributes: seq<Attribute>, text: Str, children: seq<Node>)

  type Pos = seq<nat>

  /** Following the child indices in `p` from the root. */
  function Lookup(root: Node, p: Pos): Option<Node> {
    if p == [] then Some(root)
    else
      var parent :- Lookup(root, p[..|p| - 1]);
      if p[|p| - 1] < |parent.children| then Some(parent.children[p[|p| - 1]]) else None
  }

  predicate InTree(root: Node, p: Pos) { Lookup(root, p).Some? }

  function At(root: Node, p: Pos): Node
    requires InTree(root, p)
  {
    Lookup(root, p).value
  }

  function Parent(p: Pos): Pos
    requires p != []
  {
    p[..|p| - 1]
  }

  function Last(p: Pos): nat
    requires p != []
  {
    p[|p| - 1]
  }

  lemma ChildAt(root: Node, p: Pos, i: nat)
    requires InTree(root, p) && i < |At(root, p).children|
    ensures Parent(p + [i]) == p && Last(p + [i]) == i
    ensures InTree(root, p + [i]) && At(root, p + [i]) == At(root, p).children[i]
  {
    assert (p + [i])[..|p|] == p;
  }

  lemma {:induction false} PrefixInTree(root: Node, p: Pos, k: nat)
    requires InTree(root, p) && k <= |p|
    ensures InTree(root, p[..k])
    decreases |p| - k
  {
    if k == |p| {
      assert p[..k] == p;
    } else {
      PrefixInTree(root, p, k + 1);
      assert p[..k + 1][..k] == p[..k];
    }
  }

  /** `text_content`: the text nodes below `n`, concatenated in document order. */
  function TextContent(n: Node): Str
    decreases n, 1, 0
  {
    if n.kind.TextNode? then n.text else TextOfChildren(n, |n.children|)
  }

  function TextOfChildren(n: Node, k: nat): Str
    requires k <= |n.children|
    decreases n, 0, k
  {
    if k == 0 then [] else TextOfChildren(n, k - 1) + TextContent(n.children[k - 1])
  }
}
