/** The parsed HTML tree the clean-up passes work on, and the vocabulary used
    to talk about positions in it.

    A node is an element (tag name, ordered attributes, ordered children), a
    text node or a comment. Names are taken as already lower-cased by the
    parser. A position is a path: the child index taken at each level, starting
    from the document's own child list. */
module Dom {
  import opened Seqs

  /** How an attribute value was quoted in the markup (HtmlAgilityPack's
      `AttributeValueQuote`). `Unquoted` is the enum member `None`. */
  datatype Quote = SingleQuote | DoubleQuote | Unquoted | WithoutValue | Initial

  datatype Attr = Attr(name: string, value: string, quote: Quote)

  datatype Node =
    | Element(name: string, attrs: seq<Attr>, children: seq<Node>)
    | Text(text: string)
    | Comment(text: string)

  /** The document node (`#document`): it carries no attributes, is never
      selected by a pass and is never removed; only its children change. */
  datatype Document = Document(children: seq<Node>)

  /** `HtmlNode.Name`: text and comment nodes report fixed pseudo-names. */
  function NameOf(n: Node): string
  {
    match n
    case Element(name, _, _) => name
    case Text(_) => "#text"
    case Comment(_) => "#comment"
  }

  /** The attributes of a node; text and comment nodes have none. */
  function AttrsOf(n: Node): seq<Attr>
  {
    if n.Element? then n.attrs else []
  }

  /** `n` has at least one attribute called `name`. */
  predicate HasAttr(n: Node, name: string)
  {
    exists a :: a in AttrsOf(n) && a.name == name
  }

  /** `attrs` without the attributes called `name` (`HtmlAttributeCollection.Remove`);
      the rest keep their order, and a missing name changes nothing. */
  function RemoveAttr(attrs: seq<Attr>, name: string): (r: seq<Attr>)
    ensures forall a :: a in r <==> a in attrs && a.name != name
    ensures IsSubseq(r, attrs)
    ensures (forall a :: a in attrs ==> a.name != name) ==> r == attrs
  {
    if |attrs| == 0 then []
    else if attrs[0].name == name then RemoveAttr(attrs[1..], name)
    else [attrs[0]] + RemoveAttr(attrs[1..], name)
  }

  /** Cutting off the subtree keeps the node's attributes. */
  lemma HeadAttrs(n: Node)
    ensures AttrsOf(Head(n)) == AttrsOf(n) && NameOf(Head(n)) == NameOf(n)
  {
  }

  /** `n` is an element with tag `name` (what an XPath name test selects). */
  predicate IsNamed(n: Node, name: string)
  {
    n.Element? && n.name == name
  }

  /** The node itself without its subtree: kind, name, attributes and text. */
  function Head(n: Node): Node
  {
    match n
    case Element(name, attrs, _) => Element(name, attrs, [])
    case _ => n
  }

  /** A property of nodes that looks only at the node itself, never at its children. */
  ghost predicate HeadLocal(P: Node -> bool)
  {
    forall n {:trigger P(Head(n))} :: P(Head(n)) == P(n)
  }

  /** Every node of the forest, at any depth, satisfies `P`. */
  predicate Everywhere(ns: seq<Node>, P: Node -> bool)
  {
    forall i :: 0 <= i < |ns| ==> P(ns[i]) && (ns[i].Element? ==> Everywhere(ns[i].children, P))
  }

  /** Two properties that hold everywhere combine into any property they imply. */
  lemma {:induction false} EverywhereAnd(ns: seq<Node>, P: Node -> bool, Q: Node -> bool, R: Node -> bool)
    requires Everywhere(ns, P) && Everywhere(ns, Q)
    requires forall n :: P(n) && Q(n) ==> R(n)
    ensures Everywhere(ns, R)
    decreases ns
  {
    forall i | 0 <= i < |ns| ensures R(ns[i]) && (ns[i].Element? ==> Everywhere(ns[i].children, R)) {
      if ns[i].Element? {
        EverywhereAnd(ns[i].children, P, Q, R);
      }
    }
  }

  /** A forest drawn from the members of one where `P` holds everywhere. */
  lemma EverywhereSub(ns: seq<Node>, sub: seq<Node>, P: Node -> bool)
    requires Everywhere(ns, P)
    requires forall i :: 0 <= i < |sub| ==> sub[i] in ns
    ensures Everywhere(sub, P)
  {
    forall i | 0 <= i < |sub| ensures P(sub[i]) && (sub[i].Element? ==> Everywhere(sub[i].children, P)) {
      var j :| 0 <= j < |ns| && ns[j] == sub[i];
    }
  }

  type Path = seq<nat>

  /** `p` leads from the forest `ns` to one of its nodes. */
  predicate ValidPath(ns: seq<Node>, p: Path)
  {
    |p| > 0 && p[0] < |ns| && (|p| == 1 || (ns[p[0]].Element? && ValidPath(ns[p[0]].children, p[1..])))
  }

  /** The node that `p` leads to. */
  function At(ns: seq<Node>, p: Path): Node
    requires ValidPath(ns, p)
  {
    if |p| == 1 then ns[p[0]] else At(ns[p[0]].children, p[1..])
  }

  /** `p` is an ancestor-or-self position of `q`. */
  predicate IsPrefix(p: Path, q: Path)
  {
    |p| <= |q| && q[..|p|] == p
  }

  /** `p` comes strictly before `q` in document order (pre-order): either `p`
      is a proper ancestor of `q`, or at the first level where they differ,
      `p` takes the earlier child. */
  predicate PathLt(p: Path, q: Path)
  {
    |q| > 0 && (|p| == 0 || p[0] < q[0] || (p[0] == q[0] && PathLt(p[1..], q[1..])))
  }

  /** Document order is a strict order: irreflexive and transitive. */
  lemma {:induction false} PathLtStrict(p: Path, q: Path, s: Path)
    ensures !PathLt(p, p)
    ensures PathLt(p, q) && PathLt(q, s) ==> PathLt(p, s)
    decreases |p|
  {
    if |p| > 0 {
      PathLtStrict(p[1..], p[1..], p[1..]);
      if PathLt(p, q) && PathLt(q, s) && p[0] == q[0] == s[0] {
        PathLtStrict(p[1..], q[1..], s[1..]);
      }
    }
  }

  /** Document order is total on distinct positions. */
  lemma {:induction false} PathLtTotal(p: Path, q: Path)
    requires p != q
    ensures PathLt(p, q) || PathLt(q, p)
    decreases |p|
  {
    if |p| > 0 && |q| > 0 && p[0] == q[0] {
      assert p == [p[0]] + p[1..] && q == [q[0]] + q[1..];
      PathLtTotal(p[1..], q[1..]);
    }
  }

  /** Descending into a child: a path inside child `i` extended by `i`. */
  lemma ChildPath(ns: seq<Node>, i: nat, q: Path)
    requires i < |ns| && ns[i].Element?
    ensures ValidPath(ns, [i] + q) <==> (|q| == 0 || ValidPath(ns[i].children, q))
    ensures |q| > 0 && ValidPath(ns[i].children, q) ==> At(ns, [i] + q) == At(ns[i].children, q)
  {
    assert ([i] + q)[0] == i;
    assert ([i] + q)[1..] == q;
  }

  /** Dropping the first sibling shifts every path by one at the top level. */
  lemma TailPath(ns: seq<Node>, q: Path)
    requires |ns| > 0
    ensures ValidPath(ns[1..], q) <==> |q| > 0 && ValidPath(ns, [q[0] + 1] + q[1..])
    ensures ValidPath(ns[1..], q) ==> At(ns[1..], q) == At(ns, [q[0] + 1] + q[1..])
  {
    if |q| > 0 {
      var q' := [q[0] + 1] + q[1..];
      assert q'[0] == q[0] + 1;
      assert q'[1..] == q[1..];
      if q[0] < |ns| - 1 {
        assert ns[1..][q[0]] == ns[q'[0]];
      }
    }
  }
}
