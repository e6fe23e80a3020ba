/** The shape of every pass that edits nodes where they stand: each element's
    attribute list and each text node's payload is rewritten, while the tree
    itself (which nodes exist, their kinds, names, order and nesting) stays as
    it was. Passes 1, 2 and 9 to 12 of the clean-up are instances. */
module InPlace {
  import opened Dom

  /** Edits the node's own data and keeps its children: an element's attributes
      are rewritten by `ae` (which sees the tag name), a text payload by `te`;
      comments are left alone. */
  function EditHead(n: Node, ae: (string, seq<Attr>) -> seq<Attr>, te: string -> string): Node
  {
    match n
    case Element(name, attrs, children) => Element(name, ae(name, attrs), children)
    case Text(s) => Text(te(s))
    case Comment(_) => n
  }

  /** The identity on payloads, for passes that touch attributes only. */
  function Same(s: string): string
  {
    s
  }

  /** The identity on attribute lists, for passes that touch text only. */
  function SameAttrs(name: string, attrs: seq<Attr>): seq<Attr>
  {
    attrs
  }

  /** Applies the edits to every node of the forest, at every depth. */
  function Relabel(ns: seq<Node>, ae: (string, seq<Attr>) -> seq<Attr>, te: string -> string): (r: seq<Node>)
    ensures |r| == |ns|
    decreases ns
  {
    seq(|ns|, i requires 0 <= i < |ns| =>
      match ns[i]
      case Element(name, attrs, children) => Element(name, ae(name, attrs), Relabel(children, ae, te))
      case Text(s) => Text(te(s))
      case Comment(_) => ns[i])
  }

  /** The forest with every attribute list emptied: its shape, tag names and payloads. */
  function EraseAttrs(ns: seq<Node>): (r: seq<Node>)
    ensures |r| == |ns|
    decreases ns
  {
    seq(|ns|, i requires 0 <= i < |ns| =>
      match ns[i]
      case Element(name, _, children) => Element(name, [], EraseAttrs(children))
      case _ => ns[i])
  }

  /** Positionally: the edited forest has exactly the same positions, and the
      node at each one is the original node with its own data edited. */
  lemma {:induction false} RelabelAt(ns: seq<Node>, ae: (string, seq<Attr>) -> seq<Attr>, te: string -> string, q: Path)
    ensures ValidPath(Relabel(ns, ae, te), q) <==> ValidPath(ns, q)
    ensures ValidPath(ns, q) ==> Head(At(Relabel(ns, ae, te), q)) == Head(EditHead(At(ns, q), ae, te))
    decreases q
  {
    var r := Relabel(ns, ae, te);
    if |q| > 1 && q[0] < |ns| && ns[q[0]].Element? {
      RelabelAt(ns[q[0]].children, ae, te, q[1..]);
    }
  }

  /** `RelabelAt` for every position at once. */
  lemma RelabelAtAll(ns: seq<Node>, ae: (string, seq<Attr>) -> seq<Attr>, te: string -> string)
    ensures forall q :: ValidPath(Relabel(ns, ae, te), q) <==> ValidPath(ns, q)
    ensures forall q :: ValidPath(ns, q) ==> Head(At(Relabel(ns, ae, te), q)) == Head(EditHead(At(ns, q), ae, te))
  {
    forall q ensures ValidPath(Relabel(ns, ae, te), q) <==> ValidPath(ns, q)
      ensures ValidPath(ns, q) ==> Head(At(Relabel(ns, ae, te), q)) == Head(EditHead(At(ns, q), ae, te))
    {
      RelabelAt(ns, ae, te, q);
    }
  }

  /** Attribute edits leave the shape, the tag names and the payloads untouched. */
  lemma {:induction false} RelabelKeepsShape(ns: seq<Node>, ae: (string, seq<Attr>) -> seq<Attr>)
    ensures EraseAttrs(Relabel(ns, ae, Same)) == EraseAttrs(ns)
    decreases ns
  {
    var r := Relabel(ns, ae, Same);
    forall i | 0 <= i < |ns| ensures EraseAttrs(r)[i] == EraseAttrs(ns)[i] {
      if ns[i].Element? {
        RelabelKeepsShape(ns[i].children, ae);
      }
    }
  }

  /** A node property that every edited node has holds everywhere afterwards. */
  lemma {:induction false} RelabelEstablishes(ns: seq<Node>, ae: (string, seq<Attr>) -> seq<Attr>, te: string -> string, P: Node -> bool)
    requires HeadLocal(P)
    requires forall n :: P(EditHead(n, ae, te))
    ensures Everywhere(Relabel(ns, ae, te), P)
    decreases ns
  {
    var r := Relabel(ns, ae, te);
    forall i | 0 <= i < |r| ensures P(r[i]) && (r[i].Element? ==> Everywhere(r[i].children, P)) {
      assert Head(r[i]) == Head(EditHead(ns[i], ae, te));
      assert P(r[i]) == P(Head(r[i])) && P(EditHead(ns[i], ae, te)) == P(Head(EditHead(ns[i], ae, te)));
      if ns[i].Element? {
        RelabelEstablishes(ns[i].children, ae, te, P);
      }
    }
  }

  /** A node property that the edits cannot break survives them. */
  lemma {:induction false} RelabelPreserves(ns: seq<Node>, ae: (string, seq<Attr>) -> seq<Attr>, te: string -> string, P: Node -> bool)
    requires HeadLocal(P)
    requires forall n :: P(n) ==> P(EditHead(n, ae, te))
    requires Everywhere(ns, P)
    ensures Everywhere(Relabel(ns, ae, te), P)
    decreases ns
  {
    var r := Relabel(ns, ae, te);
    forall i | 0 <= i < |r| ensures P(r[i]) && (r[i].Element? ==> Everywhere(r[i].children, P)) {
      assert Head(r[i]) == Head(EditHead(ns[i], ae, te));
      assert P(r[i]) == P(Head(r[i])) && P(EditHead(ns[i], ae, te)) == P(Head(EditHead(ns[i], ae, te)));
      if ns[i].Element? {
        RelabelPreserves(ns[i].children, ae, te, P);
      }
    }
  }

  /** Edits that fix every node leave the forest as it is. */
  lemma {:induction false} RelabelIdentity(ns: seq<Node>, ae: (string, seq<Attr>) -> seq<Attr>, te: string -> string)
    requires forall n :: EditHead(n, ae, te) == n
    ensures Relabel(ns, ae, te) == ns
    decreases ns
  {
    var r := Relabel(ns, ae, te);
    forall i | 0 <= i < |ns| ensures r[i] == ns[i] {
      assert EditHead(ns[i], ae, te) == ns[i];
      if ns[i].Element? {
        RelabelIdentity(ns[i].children, ae, te);
      }
    }
  }

  /** Where the edits change nothing (every node satisfies a property under
      which its edit is the identity), the pass returns the forest unchanged. */
  lemma {:induction false} RelabelNoOp(ns: seq<Node>, ae: (string, seq<Attr>) -> seq<Attr>, te: string -> string, P: Node -> bool)
    requires forall n :: P(n) ==> EditHead(n, ae, te) == n
    requires Everywhere(ns, P)
    ensures Relabel(ns, ae, te) == ns
    decreases ns
  {
    var r := Relabel(ns, ae, te);
    forall i | 0 <= i < |ns| ensures r[i] == ns[i] {
      assert EditHead(ns[i], ae, te) == ns[i];
      if ns[i].Element? {
        RelabelNoOp(ns[i].children, ae, te, P);
      }
    }
  }
}
