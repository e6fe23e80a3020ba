/** `CleanWordHtml`: the twelve passes run in a fixed order over the parsed
    document, and what the order guarantees of the result. */
module Pipeline {
  import opened Seqs
  import opened Dom
  import opened TextContent
  import opened InPlace
  import opened RewritePasses
  import opened Removal
  import opened FirstMatch
  import opened Pruning

  /** The passes in the order `CleanWordHtml` calls them. */
  function Passes(ns: seq<Node>): seq<Node>
  {
    var s1 := RemoveInlineStyles(ns);
    var s2 := RemoveMsoClasses(s1);
    var s3 := RemoveStyleTags(s2);
    var s4 := RemoveWordTags(s3);
    var s5 := CleanHtmlTagAttributes(s4);
    var s6 := RemoveFromHeadSection(s5);
    var s7 := RemoveComments(s6);
    PassesBeforePruning(ns);
    var s8 := RemoveEmptyNodes(s7);
    var s9 := NormalizeNbsp(s8);
    var s10 := RemoveLinkAttributes(s9);
    var s11 := RemoveTableAttributes(s10);
    EnsureQuotedAttributes(s11)
  }

  /** The document node is never removed: the passes only change its children. */
  function Sanitize(d: Document): (r: Document)
    ensures Everywhere(r.children, Clean)
    ensures Everywhere(r.children, HasContent)
  {
    PassesClean(d.children);
    Document(Passes(d.children))
  }

  // ---------------------------------------------------------------------------
  // What holds of every node after each stage

  /** After pass 4: no inline style, no Mso class, no `style` element, no Office node. */
  predicate Scrubbed(n: Node)
  {
    NoStyleAttr(n) && NoMsoClass(n) && NotStyleTag(n) && NotWordTag(n)
  }

  /** After pass 7: and no comment. */
  predicate Plain(n: Node)
  {
    Scrubbed(n) && NotComment(n)
  }

  /** After pass 9: and no double `&nbsp;` in a text payload. */
  predicate Collapsed(n: Node)
  {
    Plain(n) && NoDoubleNbsp(n)
  }

  /** After pass 10: and no `link` or `vlink`. */
  predicate Unlinked(n: Node)
  {
    Collapsed(n) && NoLinkAttrs(n)
  }

  /** After pass 11: and no table layout attribute. What the output promises of
      every node. */
  predicate Clean(n: Node)
  {
    Unlinked(n) && NoLayoutAttrs(n)
  }

  /** The stage predicates look only at the node itself. */
  lemma StagesHeadLocal()
    ensures HeadLocal(Scrubbed) && HeadLocal(Plain) && HeadLocal(Collapsed) && HeadLocal(Unlinked)
    ensures HeadLocal(NoStyleAttr) && HeadLocal(NoMsoClass) && HeadLocal(NotStyleTag) && HeadLocal(NotWordTag)
  {
    HeadLocalAttrs();
    SelectionsHeadLocal();
  }

  /** The first seven passes leave a tree without comments, as pass 8 needs. */
  lemma PassesBeforePruning(ns: seq<Node>)
    ensures Everywhere(RemoveComments(RemoveFromHeadSection(CleanHtmlTagAttributes(RemoveWordTags(RemoveStyleTags(RemoveMsoClasses(RemoveInlineStyles(ns))))))), NotComment)
  {
  }

  /** Everything the stages establish survives the later passes. */
  lemma PassesClean(ns: seq<Node>)
    ensures Everywhere(Passes(ns), Clean)
    ensures Everywhere(Passes(ns), HasContent)
  {
    var s4 := RemoveWordTags(RemoveStyleTags(RemoveMsoClasses(RemoveInlineStyles(ns))));
    FirstFourClean(ns);
    var s7 := RemoveComments(RemoveFromHeadSection(CleanHtmlTagAttributes(s4)));
    MiddleThreeClean(s4);
    SweepClean(s7);
    LastFourClean(RemoveEmptyNodes(s7));
  }

  /** Passes 1 to 4 establish `Scrubbed`. */
  lemma FirstFourClean(ns: seq<Node>)
    ensures Everywhere(RemoveWordTags(RemoveStyleTags(RemoveMsoClasses(RemoveInlineStyles(ns)))), Scrubbed)
  {
    StagesHeadLocal();
    var s1 := RemoveInlineStyles(ns);
    var s2 := RemoveMsoClasses(s1);
    MsoKeepsStyleFree();
    RelabelPreserves(s1, StripMsoClass, Same, NoStyleAttr);
    var s3 := RemoveStyleTags(s2);
    RemoveWherePreserves(s2, IsStyleTag, NoStyleAttr);
    RemoveWherePreserves(s2, IsStyleTag, NoMsoClass);
    var s4 := RemoveWordTags(s3);
    RemoveWherePreserves(s3, IsWordTag, NoStyleAttr);
    RemoveWherePreserves(s3, IsWordTag, NoMsoClass);
    RemoveWherePreserves(s3, IsWordTag, NotStyleTag);
    ScrubbedAfterWordTags(s4);
  }

  /** Passes 5 to 7 keep `Scrubbed` and add `NotComment`. */
  lemma MiddleThreeClean(s4: seq<Node>)
    requires Everywhere(s4, Scrubbed)
    ensures Everywhere(RemoveComments(RemoveFromHeadSection(CleanHtmlTagAttributes(s4))), Plain)
  {
    StagesHeadLocal();
    var s5 := CleanHtmlTagAttributes(s4);
    HtmlKeepsScrubbed(s4);
    var s6 := RemoveFromHeadSection(s5);
    HeadKeepsScrubbed(s5);
    var s7 := RemoveComments(s6);
    RemoveWherePreserves(s6, IsComment, Scrubbed);
    EverywhereAnd(s7, Scrubbed, NotComment, Plain);
  }

  /** Pass 8 keeps `Plain` (and establishes `HasContent` itself). */
  lemma SweepClean(s7: seq<Node>)
    requires Everywhere(s7, Plain)
    ensures Everywhere(s7, NotComment)
    ensures Everywhere(RemoveEmptyNodes(s7), Plain)
  {
    StagesHeadLocal();
    EverywhereAnd(s7, Plain, Plain, NotComment);
    RemoveEmptyNodesRemovesTextless(s7);
    RemoveWherePreserves(s7, NoVisibleText, Plain);
  }

  /** Passes 9 to 12 keep `Plain` and `HasContent`, and add the rest of `Clean`. */
  lemma LastFourClean(s8: seq<Node>)
    requires Everywhere(s8, Plain) && Everywhere(s8, HasContent)
    ensures Everywhere(EnsureQuotedAttributes(RemoveTableAttributes(RemoveLinkAttributes(NormalizeNbsp(s8)))), Clean)
    ensures Everywhere(EnsureQuotedAttributes(RemoveTableAttributes(RemoveLinkAttributes(NormalizeNbsp(s8)))), HasContent)
  {
    StagesHeadLocal();
    var s9 := NormalizeNbsp(s8);
    NbspKeepsPlain();
    RelabelPreserves(s8, SameAttrs, CollapseNbsp, Plain);
    NbspKeepsContent();
    RelabelKeepsContent(s8, SameAttrs, CollapseNbsp);
    EverywhereAnd(s9, Plain, NoDoubleNbsp, Collapsed);
    var s10 := RemoveLinkAttributes(s9);
    LinksKeepCollapsed();
    RelabelPreserves(s9, StripLinks, Same, Collapsed);
    RelabelKeepsContent(s9, StripLinks, Same);
    EverywhereAnd(s10, Collapsed, NoLinkAttrs, Unlinked);
    var s11 := RemoveTableAttributes(s10);
    TableKeepsUnlinked();
    RelabelPreserves(s10, StripTableLayout, Same, Unlinked);
    RelabelKeepsContent(s10, StripTableLayout, Same);
    EverywhereAnd(s11, Unlinked, NoLayoutAttrs, Clean);
  }

  /** A document that is already clean passes through unchanged: every node
      has content and none of the passes finds anything to remove, provided
      the first `html` holds only `lang` and the first `head` only `meta`. */
  lemma SanitizeKeepsClean(ns: seq<Node>)
    requires Everywhere(ns, Clean) && Everywhere(ns, HasContent)
    requires HtmlTrimmed(ns) && HeadTrimmed(ns)
    ensures Sanitize(Document(ns)) == Document(ns)
  {
    StagesHeadLocal();
    EverywhereAnd(ns, Clean, Clean, NoStyleAttr);
    EverywhereAnd(ns, Clean, Clean, NoMsoClass);
    EverywhereAnd(ns, Clean, Clean, NotStyleTag);
    EverywhereAnd(ns, Clean, Clean, NotWordTag);
    EverywhereAnd(ns, Clean, Clean, NotComment);
    EverywhereAnd(ns, Clean, Clean, NoDoubleNbsp);
    EverywhereAnd(ns, Clean, Clean, NoLinkAttrs);
    EverywhereAnd(ns, Clean, Clean, NoLayoutAttrs);
    RemoveInlineStylesNoOp(ns);
    RemoveMsoClassesNoOp(ns);
    RemoveWhereNoOp(ns, IsStyleTag, NotStyleTag);
    RemoveWhereNoOp(ns, IsWordTag, NotWordTag);
    CleanHtmlTagAttributesNoOp(ns);
    RemoveFromHeadSectionNoOp(ns);
    RemoveWhereNoOp(ns, IsComment, NotComment);
    RemoveEmptyNodesKeepsContent(ns);
    NormalizeNbspNoOp(ns);
    RemoveLinkAttributesNoOp(ns);
    RemoveTableAttributesNoOp(ns);
  }

  // ---------------------------------------------------------------------------
  // Per-stage preservation facts

  lemma MsoKeepsStyleFree()
    ensures forall n :: NoStyleAttr(n) ==> NoStyleAttr(EditHead(n, StripMsoClass, Same))
  {
  }

  lemma ScrubbedAfterWordTags(s4: seq<Node>)
    requires Everywhere(s4, NoStyleAttr) && Everywhere(s4, NoMsoClass)
    requires Everywhere(s4, NotStyleTag) && Everywhere(s4, NotWordTag)
    ensures Everywhere(s4, Scrubbed)
  {
    EverywhereAnd(s4, NoStyleAttr, NoMsoClass, StyleAndMso);
    EverywhereAnd(s4, NotStyleTag, NotWordTag, TagsGone);
    EverywhereAnd(s4, StyleAndMso, TagsGone, Scrubbed);
  }

  predicate StyleAndMso(n: Node)
  {
    NoStyleAttr(n) && NoMsoClass(n)
  }

  predicate TagsGone(n: Node)
  {
    NotStyleTag(n) && NotWordTag(n)
  }

  /** Pass 5 only drops attributes of an element that keeps its name. */
  lemma HtmlKeepsScrubbed(s4: seq<Node>)
    requires Everywhere(s4, Scrubbed)
    ensures Everywhere(CleanHtmlTagAttributes(s4), Scrubbed)
  {
    StagesHeadLocal();
    match FindFirst(s4, "html")
    case None =>
    case Some(p) =>
      var html := At(s4, p);
      var x := html.(attrs := Filter(html.attrs, IsLang));
      EverywhereBelow(s4, p, Scrubbed);
      ReplaceAtPreserves(s4, p, x, Scrubbed);
  }

  /** Pass 6 keeps a subset of one element's children. */
  lemma HeadKeepsScrubbed(s5: seq<Node>)
    requires Everywhere(s5, Scrubbed)
    ensures Everywhere(RemoveFromHeadSection(s5), Scrubbed)
  {
    StagesHeadLocal();
    match FindFirst(s5, "head")
    case None =>
    case Some(p) =>
      var head := At(s5, p);
      var x := head.(children := Filter(head.children, IsMeta));
      EverywhereBelow(s5, p, Scrubbed);
      EverywhereSub(head.children, x.children, Scrubbed);
      assert Head(x) == Head(head);
      ReplaceAtPreserves(s5, p, x, Scrubbed);
  }

  lemma NbspKeepsPlain()
    ensures forall n :: Plain(n) ==> Plain(EditHead(n, SameAttrs, CollapseNbsp))
  {
  }

  lemma NbspKeepsContent()
    ensures forall s :: !IsNullOrWhiteSpace(s) ==> !IsNullOrWhiteSpace(CollapseNbsp(s))
  {
    forall s | !IsNullOrWhiteSpace(s) ensures !IsNullOrWhiteSpace(CollapseNbsp(s)) {
      CollapseKeepsContent(s);
    }
  }

  lemma LinksKeepCollapsed()
    ensures forall n :: Collapsed(n) ==> Collapsed(EditHead(n, StripLinks, Same))
  {
  }

  lemma TableKeepsUnlinked()
    ensures forall n :: Unlinked(n) ==> Unlinked(EditHead(n, StripTableLayout, Same))
  {
    forall n | Unlinked(n) ensures Unlinked(EditHead(n, StripTableLayout, Same)) {
      if n.Element? {
        StripTableLayoutSpec(n.name, n.attrs);
      }
    }
  }

  /** In-place edits that never blank a visible payload keep every node's content. */
  lemma {:induction false} RelabelKeepsContent(ns: seq<Node>, ae: (string, seq<Attr>) -> seq<Attr>, te: string -> string)
    requires forall s :: !IsNullOrWhiteSpace(s) ==> !IsNullOrWhiteSpace(te(s))
    requires Everywhere(ns, HasContent)
    ensures Everywhere(Relabel(ns, ae, te), HasContent)
    decreases ns
  {
    var r := Relabel(ns, ae, te);
    forall i | 0 <= i < |r| ensures HasContent(r[i]) && (r[i].Element? ==> Everywhere(r[i].children, HasContent)) {
      if ns[i].Element? {
        RelabelKeepsContent(ns[i].children, ae, te);
      }
    }
  }
}
