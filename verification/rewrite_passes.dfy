/** The passes that edit nodes where they stand and never add or remove a node:
    RemoveInlineStyles, RemoveMsoClasses, NormalizeNbsp, RemoveLinkAttributes,
    RemoveTableAttributes and EnsureQuotedAttributes. Each is a `Relabel` with
    its own attribute or payload edit, stated over the document's child list
    (the document node itself has no attributes and is not a text node). */
module RewritePasses {
  import opened Seqs
  import opened Dom
  import opened TextContent
  import opened InPlace

  // ---------------------------------------------------------------------------
  // Pass 1: RemoveInlineStyles

  function StripStyle(name: string, attrs: seq<Attr>): seq<Attr>
  {
    RemoveAttr(attrs, "style")
  }

  predicate NoStyleAttr(n: Node)
  {
    !HasAttr(n, "style")
  }

  /** Every element that carries a `style` attribute loses its `style` attribute. */
  function RemoveInlineStyles(ns: seq<Node>): (r: seq<Node>)
    ensures Everywhere(r, NoStyleAttr)
    ensures EraseAttrs(r) == EraseAttrs(ns)
    ensures forall q :: ValidPath(r, q) <==> ValidPath(ns, q)
    ensures forall q :: ValidPath(ns, q) ==> AttrsOf(At(r, q)) == RemoveAttr(AttrsOf(At(ns, q)), "style")
  {
    HeadLocalAttrs();
    RelabelEstablishes(ns, StripStyle, Same, NoStyleAttr);
    RelabelKeepsShape(ns, StripStyle);
    RelabelAtAll(ns, StripStyle, Same);
    AttrsThroughHead(ns, StripStyle, Same);
    Relabel(ns, StripStyle, Same)
  }

  /** A tree without inline styles is returned unchanged; so the pass is idempotent. */
  lemma RemoveInlineStylesNoOp(ns: seq<Node>)
    requires Everywhere(ns, NoStyleAttr)
    ensures RemoveInlineStyles(ns) == ns
  {
    RelabelNoOp(ns, StripStyle, Same, NoStyleAttr);
  }

  // ---------------------------------------------------------------------------
  // Pass 2: RemoveMsoClasses

  /** The attribute survives the pass: it is not a `class` whose value contains
      the case-sensitive substring "Mso". */
  predicate NotMsoClass(a: Attr)
  {
    !(a.name == "class" && Contains(a.value, "Mso"))
  }

  function StripMsoClass(name: string, attrs: seq<Attr>): seq<Attr>
  {
    Filter(attrs, NotMsoClass)
  }

  predicate NoMsoClass(n: Node)
  {
    forall a :: a in AttrsOf(n) ==> NotMsoClass(a)
  }

  /** Every element's `class` goes exactly when its value contains "Mso"; the
      other attributes, and the tree, are untouched. */
  function RemoveMsoClasses(ns: seq<Node>): (r: seq<Node>)
    ensures Everywhere(r, NoMsoClass)
    ensures EraseAttrs(r) == EraseAttrs(ns)
    ensures forall q :: ValidPath(r, q) <==> ValidPath(ns, q)
    ensures forall q :: ValidPath(ns, q) ==> IsSubseq(AttrsOf(At(r, q)), AttrsOf(At(ns, q)))
    ensures forall q, a :: ValidPath(ns, q) && a in AttrsOf(At(r, q)) ==> a in AttrsOf(At(ns, q)) && NotMsoClass(a)
    ensures forall q, a :: ValidPath(ns, q) && a in AttrsOf(At(ns, q)) && NotMsoClass(a) ==> a in AttrsOf(At(r, q))
  {
    HeadLocalAttrs();
    RelabelEstablishes(ns, StripMsoClass, Same, NoMsoClass);
    RelabelKeepsShape(ns, StripMsoClass);
    RelabelAtAll(ns, StripMsoClass, Same);
    AttrsThroughHead(ns, StripMsoClass, Same);
    Relabel(ns, StripMsoClass, Same)
  }

  /** A tree without Mso classes is returned unchanged; so the pass is idempotent. */
  lemma RemoveMsoClassesNoOp(ns: seq<Node>)
    requires Everywhere(ns, NoMsoClass)
    ensures RemoveMsoClasses(ns) == ns
  {
    RelabelNoOp(ns, StripMsoClass, Same, NoMsoClass);
  }

  // ---------------------------------------------------------------------------
  // Pass 9: NormalizeNbsp

  predicate NoDoubleNbsp(n: Node)
  {
    n.Text? ==> !HasDoubleNbsp(n.text)
  }

  /** Every text node's raw payload has its runs of `&nbsp;` collapsed; the
      tree, the attributes and the comments are untouched. */
  function NormalizeNbsp(ns: seq<Node>): (r: seq<Node>)
    ensures Everywhere(r, NoDoubleNbsp)
    ensures forall q :: ValidPath(r, q) <==> ValidPath(ns, q)
    ensures forall q :: ValidPath(ns, q) && At(ns, q).Text? ==> At(r, q) == Text(CollapseNbsp(At(ns, q).text))
    ensures forall q :: ValidPath(ns, q) && !At(ns, q).Text? ==> Head(At(r, q)) == Head(At(ns, q))
  {
    NormalizeEverywhere(ns);
    NormalizeAt(ns);
    Relabel(ns, SameAttrs, CollapseNbsp)
  }

  lemma NormalizeAt(ns: seq<Node>)
    ensures forall q :: ValidPath(Relabel(ns, SameAttrs, CollapseNbsp), q) <==> ValidPath(ns, q)
    ensures forall q :: ValidPath(ns, q) && At(ns, q).Text? ==>
      At(Relabel(ns, SameAttrs, CollapseNbsp), q) == Text(CollapseNbsp(At(ns, q).text))
    ensures forall q :: ValidPath(ns, q) && !At(ns, q).Text? ==>
      Head(At(Relabel(ns, SameAttrs, CollapseNbsp), q)) == Head(At(ns, q))
  {
    var r := Relabel(ns, SameAttrs, CollapseNbsp);
    forall q | ValidPath(ns, q)
      ensures ValidPath(r, q)
      ensures At(ns, q).Text? ==> At(r, q) == Text(CollapseNbsp(At(ns, q).text))
      ensures !At(ns, q).Text? ==> Head(At(r, q)) == Head(At(ns, q))
    {
      RelabelAt(ns, SameAttrs, CollapseNbsp, q);
    }
    forall q | ValidPath(r, q) ensures ValidPath(ns, q) {
      RelabelAt(ns, SameAttrs, CollapseNbsp, q);
    }
  }

  lemma {:induction false} NormalizeEverywhere(ns: seq<Node>)
    ensures Everywhere(Relabel(ns, SameAttrs, CollapseNbsp), NoDoubleNbsp)
    decreases ns
  {
    var r := Relabel(ns, SameAttrs, CollapseNbsp);
    forall i | 0 <= i < |r| ensures NoDoubleNbsp(r[i]) && (r[i].Element? ==> Everywhere(r[i].children, NoDoubleNbsp)) {
      match ns[i]
      case Element(_, _, children) => NormalizeEverywhere(children);
      case Text(s) => CollapseLeavesNoDouble(s);
      case Comment(_) =>
    }
  }

  /** A tree with no double entity is returned unchanged. */
  lemma NormalizeNbspNoOp(ns: seq<Node>)
    requires Everywhere(ns, NoDoubleNbsp)
    ensures NormalizeNbsp(ns) == ns
  {
    forall n | NoDoubleNbsp(n) ensures EditHead(n, SameAttrs, CollapseNbsp) == n {
      if n.Text? {
        CollapseKeepsCleanText(n.text);
      }
    }
    RelabelNoOp(ns, SameAttrs, CollapseNbsp, NoDoubleNbsp);
  }

  /** Normalising twice is normalising once. */
  lemma NormalizeNbspIdempotent(ns: seq<Node>)
    ensures NormalizeNbsp(NormalizeNbsp(ns)) == NormalizeNbsp(ns)
  {
    NormalizeNbspNoOp(NormalizeNbsp(ns));
  }

  // ---------------------------------------------------------------------------
  // Pass 10: RemoveLinkAttributes

  function StripLinks(name: string, attrs: seq<Attr>): seq<Attr>
  {
    RemoveAttr(RemoveAttr(attrs, "link"), "vlink")
  }

  predicate NoLinkAttrs(n: Node)
  {
    !HasAttr(n, "link") && !HasAttr(n, "vlink")
  }

  /** Every node loses `link` and `vlink`; every other attribute keeps its
      place, and the tree is untouched. */
  function RemoveLinkAttributes(ns: seq<Node>): (r: seq<Node>)
    ensures Everywhere(r, NoLinkAttrs)
    ensures EraseAttrs(r) == EraseAttrs(ns)
    ensures forall q :: ValidPath(r, q) <==> ValidPath(ns, q)
    ensures forall q, a :: ValidPath(ns, q) ==>
      (a in AttrsOf(At(r, q)) <==> a in AttrsOf(At(ns, q)) && a.name != "link" && a.name != "vlink")
    ensures forall q :: ValidPath(ns, q) ==> IsSubseq(AttrsOf(At(r, q)), AttrsOf(At(ns, q)))
  {
    HeadLocalAttrs();
    RelabelEstablishes(ns, StripLinks, Same, NoLinkAttrs);
    RelabelKeepsShape(ns, StripLinks);
    RelabelAtAll(ns, StripLinks, Same);
    AttrsThroughHead(ns, StripLinks, Same);
    LinksKeepOrder();
    Relabel(ns, StripLinks, Same)
  }

  lemma LinksKeepOrder()
    ensures forall name, attrs :: IsSubseq(StripLinks(name, attrs), attrs)
  {
    forall name, attrs ensures IsSubseq(StripLinks(name, attrs), attrs) {
      SubseqTrans(StripLinks(name, attrs), RemoveAttr(attrs, "link"), attrs);
    }
  }

  /** A tree without link attributes is returned unchanged. */
  lemma RemoveLinkAttributesNoOp(ns: seq<Node>)
    requires Everywhere(ns, NoLinkAttrs)
    ensures RemoveLinkAttributes(ns) == ns
  {
    RelabelNoOp(ns, StripLinks, Same, NoLinkAttrs);
  }

  // ---------------------------------------------------------------------------
  // Pass 11: RemoveTableAttributes

  /** The tag tests use `OrdinalIgnoreCase`; names arrive lower-cased, so they
      are plain comparisons here. A node cannot be both, so the two `if`s of
      the source never both fire. */
  function StripTableLayout(name: string, attrs: seq<Attr>): seq<Attr>
  {
    if name == "table" then
      RemoveAttr(RemoveAttr(RemoveAttr(RemoveAttr(attrs, "width"), "border"), "cellspacing"), "cellpadding")
    else if name == "td" then
      RemoveAttr(attrs, "width")
    else
      attrs
  }

  /** The names of layout attributes a node with tag `name` must not keep. */
  predicate IsLayoutAttr(name: string, attr: string)
  {
    || (name == "table" && (attr == "width" || attr == "border" || attr == "cellspacing" || attr == "cellpadding"))
    || (name == "td" && attr == "width")
  }

  predicate NoLayoutAttrs(n: Node)
  {
    forall a :: a in AttrsOf(n) ==> !IsLayoutAttr(NameOf(n), a.name)
  }

  lemma StripTableLayoutSpec(name: string, attrs: seq<Attr>)
    ensures forall a :: a in StripTableLayout(name, attrs) <==> a in attrs && !IsLayoutAttr(name, a.name)
    ensures IsSubseq(StripTableLayout(name, attrs), attrs)
  {
    SubseqRefl(attrs);
    if name == "table" {
      var a1 := RemoveAttr(attrs, "width");
      var a2 := RemoveAttr(a1, "border");
      var a3 := RemoveAttr(a2, "cellspacing");
      SubseqTrans(a2, a1, attrs);
      SubseqTrans(a3, a2, attrs);
      SubseqTrans(RemoveAttr(a3, "cellpadding"), a3, attrs);
      assert StripTableLayout(name, attrs) == RemoveAttr(a3, "cellpadding");
    }
  }

  lemma TableLayoutEstablishes()
    ensures forall n :: NoLayoutAttrs(EditHead(n, StripTableLayout, Same))
  {
    forall n ensures NoLayoutAttrs(EditHead(n, StripTableLayout, Same)) {
      if n.Element? {
        StripTableLayoutSpec(n.name, n.attrs);
      }
    }
  }

  lemma TableLayoutAt(ns: seq<Node>)
    ensures forall q, a :: ValidPath(ns, q) ==>
      (a in StripTableLayout(NameOf(At(ns, q)), AttrsOf(At(ns, q))) <==> a in AttrsOf(At(ns, q)) && !IsLayoutAttr(NameOf(At(ns, q)), a.name))
    ensures forall q :: ValidPath(ns, q) ==> IsSubseq(StripTableLayout(NameOf(At(ns, q)), AttrsOf(At(ns, q))), AttrsOf(At(ns, q)))
  {
    forall q | ValidPath(ns, q)
      ensures forall a :: a in StripTableLayout(NameOf(At(ns, q)), AttrsOf(At(ns, q))) <==> a in AttrsOf(At(ns, q)) && !IsLayoutAttr(NameOf(At(ns, q)), a.name)
      ensures IsSubseq(StripTableLayout(NameOf(At(ns, q)), AttrsOf(At(ns, q))), AttrsOf(At(ns, q)))
    {
      StripTableLayoutSpec(NameOf(At(ns, q)), AttrsOf(At(ns, q)));
    }
  }

  /** `table` loses width, border, cellspacing and cellpadding, `td` loses
      width; every other attribute and every other node is untouched. */
  function RemoveTableAttributes(ns: seq<Node>): (r: seq<Node>)
    ensures Everywhere(r, NoLayoutAttrs)
    ensures EraseAttrs(r) == EraseAttrs(ns)
    ensures forall q :: ValidPath(r, q) <==> ValidPath(ns, q)
    ensures forall q, a :: ValidPath(ns, q) ==>
      (a in AttrsOf(At(r, q)) <==> a in AttrsOf(At(ns, q)) && !IsLayoutAttr(NameOf(At(ns, q)), a.name))
    ensures forall q :: ValidPath(ns, q) ==> IsSubseq(AttrsOf(At(r, q)), AttrsOf(At(ns, q)))
    ensures forall q :: ValidPath(ns, q) && !IsNamed(At(ns, q), "table") && !IsNamed(At(ns, q), "td") ==>
      Head(At(r, q)) == Head(At(ns, q))
  {
    HeadLocalAttrs();
    TableLayoutEstablishes();
    RelabelEstablishes(ns, StripTableLayout, Same, NoLayoutAttrs);
    RelabelKeepsShape(ns, StripTableLayout);
    RelabelAtAll(ns, StripTableLayout, Same);
    AttrsThroughHead(ns, StripTableLayout, Same);
    TableLayoutAt(ns);
    Relabel(ns, StripTableLayout, Same)
  }

  /** A tree without layout attributes is returned unchanged. */
  lemma RemoveTableAttributesNoOp(ns: seq<Node>)
    requires Everywhere(ns, NoLayoutAttrs)
    ensures RemoveTableAttributes(ns) == ns
  {
    forall n | NoLayoutAttrs(n) ensures EditHead(n, StripTableLayout, Same) == n {
      if n.Element? {
        StripTableLayoutSpec(n.name, n.attrs);
      }
    }
    RelabelNoOp(ns, StripTableLayout, Same, NoLayoutAttrs);
  }

  // ---------------------------------------------------------------------------
  // Pass 12: EnsureQuotedAttributes

  /** `AttributeValueQuote.ToString()`: the enum member's name. */
  function QuoteName(q: Quote): (r: string)
    ensures |r| > 0
  {
    match q
    case SingleQuote => "SingleQuote"
    case DoubleQuote => "DoubleQuote"
    case Unquoted => "None"
    case WithoutValue => "WithoutValue"
    case Initial => "Initial"
  }

  /** An attribute whose quote kind prints as the empty string is switched to
      double quotes. */
  function EnsureQuoted(a: Attr): Attr
  {
    if QuoteName(a.quote) == "" then a.(quote := DoubleQuote) else a
  }

  function EnsureQuotedList(name: string, attrs: seq<Attr>): seq<Attr>
  {
    seq(|attrs|, i requires 0 <= i < |attrs| => EnsureQuoted(attrs[i]))
  }

  /** Since no quote kind prints as the empty string, the guarded branch never
      fires and the pass returns the tree exactly as it was. */
  function EnsureQuotedAttributes(ns: seq<Node>): (r: seq<Node>)
    ensures r == ns
  {
    QuotingChangesNothing();
    RelabelIdentity(ns, EnsureQuotedList, Same);
    Relabel(ns, EnsureQuotedList, Same)
  }

  lemma QuotingChangesNothing()
    ensures forall n :: EditHead(n, EnsureQuotedList, Same) == n
  {
    forall n ensures EditHead(n, EnsureQuotedList, Same) == n {
      if n.Element? {
        assert EnsureQuotedList(n.name, n.attrs) == n.attrs;
      }
    }
  }

  // ---------------------------------------------------------------------------
  // Shared helpers

  /** The attribute-based node properties above look only at the node itself. */
  lemma HeadLocalAttrs()
    ensures HeadLocal(NoStyleAttr) && HeadLocal(NoMsoClass) && HeadLocal(NoLinkAttrs) && HeadLocal(NoLayoutAttrs)
  {
    forall n ensures AttrsOf(Head(n)) == AttrsOf(n) && NameOf(Head(n)) == NameOf(n) {
      HeadAttrs(n);
    }
  }

  /** An attribute edit seen through positions: the attributes at each
      position are the edited attributes of the original node there. */
  lemma AttrsThroughHead(ns: seq<Node>, ae: (string, seq<Attr>) -> seq<Attr>, te: string -> string)
    requires forall name :: ae(name, []) == []
    ensures forall q :: ValidPath(ns, q) ==>
      ValidPath(Relabel(ns, ae, te), q) && AttrsOf(At(Relabel(ns, ae, te), q)) == ae(NameOf(At(ns, q)), AttrsOf(At(ns, q)))
  {
    RelabelAtAll(ns, ae, te);
    forall q | ValidPath(ns, q)
      ensures AttrsOf(At(Relabel(ns, ae, te), q)) == ae(NameOf(At(ns, q)), AttrsOf(At(ns, q)))
    {
      HeadAttrs(At(Relabel(ns, ae, te), q));
      HeadAttrs(EditHead(At(ns, q), ae, te));
    }
  }
}
