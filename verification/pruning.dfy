/** Pass 8, RemoveEmptyNodes with IsNodeEmpty: a post-order sweep that first
    cleans a child's subtree and then removes the child if it has become empty.
    A text node is empty when its payload is whitespace only; an element is
    empty when it has no children left (its inner text is then empty too), so
    every childless element goes, `meta`, `br` and `img` included. */
module Pruning {
  import opened Dom
  import opened TextContent
  import opened Removal

  /** `HtmlNode.InnerText`: the text payloads of the subtree, in order.
      Comments contribute nothing; the sweep only runs on comment-free trees. */
  function InnerText(n: Node): string
    decreases n, 1
  {
    match n
    case Text(s) => s
    case Comment(_) => ""
    case Element(_, _, children) => InnerTextOf(children)
  }

  function InnerTextOf(ns: seq<Node>): string
    decreases ns, 0
  {
    if |ns| == 0 then "" else InnerText(ns[0]) + InnerTextOf(ns[1..])
  }

  /** `IsNodeEmpty`, for text nodes and elements. */
  predicate IsNodeEmpty(n: Node)
    requires !n.Comment?
  {
    if n.Text? then IsNullOrWhiteSpace(InnerText(n))
    else |n.children| == 0 && IsNullOrWhiteSpace(InnerText(n))
  }

  /** What the sweep guarantees of every node it keeps. */
  predicate HasContent(n: Node)
  {
    && (n.Text? ==> !IsNullOrWhiteSpace(n.text))
    && (n.Element? ==> |n.children| > 0)
  }

  /** The sweep over a child list: each child is cleaned first, then tested. */
  function RemoveEmptyNodes(ns: seq<Node>): (r: seq<Node>)
    requires Everywhere(ns, NotComment)
    ensures Everywhere(r, NotComment)
    ensures Everywhere(r, HasContent)
    ensures |r| <= |ns|
    decreases ns
  {
    if |ns| == 0 then []
    else
      assert InnerTextOf([]) == "";
      var cleaned := match ns[0]
        case Element(name, attrs, children) => Element(name, attrs, RemoveEmptyNodes(children))
        case Text(s) => Text(s)
        case Comment(s) => Comment(s);
      (if IsNodeEmpty(cleaned) then [] else [cleaned]) + RemoveEmptyNodes(ns[1..])
  }

  /** The subtree holds a text node with a non-whitespace character. */
  predicate HasVisibleText(n: Node)
    decreases n
  {
    match n
    case Text(s) => !IsNullOrWhiteSpace(s)
    case Comment(_) => false
    case Element(_, _, children) => exists i :: 0 <= i < |children| && HasVisibleText(children[i])
  }

  predicate NoVisibleText(n: Node)
  {
    !HasVisibleText(n)
  }

  /** A childless element is empty, whatever its tag and attributes. */
  lemma ChildlessElementIsEmpty(name: string, attrs: seq<Attr>)
    ensures IsNodeEmpty(Element(name, attrs, []))
  {
  }

  /** The post-order sweep is the same as deleting, with its subtree, every
      node whose subtree holds no visible text. In particular a parent whose
      children all go is removed too, which a parent-first sweep would miss. */
  lemma {:induction false} RemoveEmptyNodesRemovesTextless(ns: seq<Node>)
    requires Everywhere(ns, NotComment)
    ensures RemoveEmptyNodes(ns) == RemoveWhere(ns, NoVisibleText)
    decreases ns
  {
    if |ns| > 0 {
      var n := ns[0];
      assert ns == [n] + ns[1..];
      RemoveWhereCons(n, ns[1..], NoVisibleText);
      RemoveEmptyNodesRemovesTextless(ns[1..]);
      if n.Element? {
        var kids := n.children;
        RemoveEmptyNodesRemovesTextless(kids);
        RemoveWhereEmpty(kids, NoVisibleText);
        assert InnerTextOf([]) == "";
      }
    }
  }

  /** A tree in which every node already has content is left as it is. */
  lemma {:induction false} RemoveEmptyNodesKeepsContent(ns: seq<Node>)
    requires Everywhere(ns, NotComment)
    requires Everywhere(ns, HasContent)
    ensures RemoveEmptyNodes(ns) == ns
    decreases ns
  {
    if |ns| > 0 {
      RemoveEmptyNodesKeepsContent(ns[1..]);
      if ns[0].Element? {
        RemoveEmptyNodesKeepsContent(ns[0].children);
      }
      assert ns == [ns[0]] + ns[1..];
    }
  }

  /** Sweeping twice is sweeping once. */
  lemma RemoveEmptyNodesIdempotent(ns: seq<Node>)
    requires Everywhere(ns, NotComment)
    ensures RemoveEmptyNodes(RemoveEmptyNodes(ns)) == RemoveEmptyNodes(ns)
  {
    RemoveEmptyNodesKeepsContent(RemoveEmptyNodes(ns));
  }
}
