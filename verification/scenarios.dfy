/** Worked documents: what `CleanWordHtml` does to small inputs, as the code
    has it. */
module Scenarios {
  import opened Seqs
  import opened Dom
  import opened TextContent
  import opened RewritePasses
  import opened Removal
  import opened FirstMatch
  import opened Pruning
  import opened Pipeline

  const Meta: Node := Element("meta", [Attr("charset", "utf-8", DoubleQuote)], [])
  const Title: Node := Element("title", [], [Text("T")])
  const Para: Node := Element("p", [], [Text("Hi")])
  const Body: Node := Element("body", [], [Para])
  const Page: seq<Node> := [Element("html", [], [Element("head", [], [Meta, Title]), Body])]

  /** The nodes the sample pages are made of: plain tags, `charset` and
      `dir` attributes at most, short words of text, no comment. */
  predicate Tame(n: Node)
  {
    match n
    case Element(name, attrs, _) =>
      && name in {"html", "head", "meta", "title", "body", "p"}
      && forall a :: a in attrs ==> a.name in {"charset", "dir"}
    case Text(s) => s in {"T", "Hi"}
    case Comment(_) => false
  }

  /** A tame node meets the guarantees of passes 1-4, 7 and 9-12, so only
      passes 5, 6 and 8 can change a tame page: pass 5 strips `dir` and
      `charset` from the first `html`, pass 6 trims the first `head`, and
      pass 8 prunes what is left empty. */
  lemma TameIsUntouched(n: Node)
    requires Tame(n)
    ensures NoStyleAttr(n) && NoMsoClass(n) && NotStyleTag(n) && NotWordTag(n) && NotComment(n)
    ensures NoDoubleNbsp(n) && NoLinkAttrs(n) && NoLayoutAttrs(n)
  {
    var nm := NameOf(n);
    assert |nm| > 0 && nm[0] != 'o' && nm[0] != 'v';
    assert !StartsWith(nm, "o:") && !StartsWith(nm, "v:");
    if n.Text? {
      assert !HasDoubleNbsp(n.text) by {
        if n.text == "T" {
          assert !HasDoubleNbsp(n.text[1..]);
        } else {
          assert !HasDoubleNbsp(n.text[1..][1..]);
          assert !HasDoubleNbsp(n.text[1..]);
        }
      }
    }
  }

  lemma TameEverywhere(ns: seq<Node>)
    requires Everywhere(ns, Tame)
    ensures Everywhere(ns, NoStyleAttr) && Everywhere(ns, NoMsoClass) && Everywhere(ns, NotStyleTag)
    ensures Everywhere(ns, NotWordTag) && Everywhere(ns, NotComment) && Everywhere(ns, NoDoubleNbsp)
    ensures Everywhere(ns, NoLinkAttrs) && Everywhere(ns, NoLayoutAttrs)
  {
    forall n | Tame(n)
      ensures NoStyleAttr(n) && NoMsoClass(n) && NotStyleTag(n) && NotWordTag(n) && NotComment(n)
      ensures NoDoubleNbsp(n) && NoLinkAttrs(n) && NoLayoutAttrs(n)
    {
      TameIsUntouched(n);
    }
    EverywhereAnd(ns, Tame, Tame, NoStyleAttr);
    EverywhereAnd(ns, Tame, Tame, NoMsoClass);
    EverywhereAnd(ns, Tame, Tame, NotStyleTag);
    EverywhereAnd(ns, Tame, Tame, NotWordTag);
    EverywhereAnd(ns, Tame, Tame, NotComment);
    EverywhereAnd(ns, Tame, Tame, NoDoubleNbsp);
    EverywhereAnd(ns, Tame, Tame, NoLinkAttrs);
    EverywhereAnd(ns, Tame, Tame, NoLayoutAttrs);
  }

  /** Passes 1 to 4 leave a tame tree as it is. */
  lemma TameSurvivesFirstPasses(ns: seq<Node>)
    requires Everywhere(ns, Tame)
    ensures RemoveWordTags(RemoveStyleTags(RemoveMsoClasses(RemoveInlineStyles(ns)))) == ns
  {
    TameEverywhere(ns);
    RemoveInlineStylesNoOp(ns);
    RemoveMsoClassesNoOp(ns);
    RemoveWhereNoOp(ns, IsStyleTag, NotStyleTag);
    RemoveWhereNoOp(ns, IsWordTag, NotWordTag);
  }

  /** Passes 9 to 12 leave a tame tree as it is. */
  lemma TameSurvivesLastPasses(ns: seq<Node>)
    requires Everywhere(ns, Tame)
    ensures EnsureQuotedAttributes(RemoveTableAttributes(RemoveLinkAttributes(NormalizeNbsp(ns)))) == ns
  {
    TameEverywhere(ns);
    NormalizeNbspNoOp(ns);
    RemoveLinkAttributesNoOp(ns);
    RemoveTableAttributesNoOp(ns);
  }

  const PageCut: seq<Node> := [Element("html", [], [Element("head", [], [Meta]), Body])]
  const PageOut: seq<Node> := [Element("html", [], [Body])]

  lemma PageIsTame()
    ensures Everywhere(Page, Tame) && Everywhere(PageCut, Tame) && Everywhere(PageOut, Tame)
  {
    assert Everywhere(Para.children, Tame);
    assert Everywhere(Body.children, Tame);
    assert Everywhere(Title.children, Tame);
    assert Everywhere([Meta, Title], Tame);
    assert Everywhere([Meta], Tame);
    assert Everywhere(Page[0].children, Tame);
    assert Everywhere(PageCut[0].children, Tame);
    assert Everywhere(PageOut[0].children, Tame);
  }

  /** Pass 5 on the sample page: its `html` element has no attribute to drop. */
  lemma PageHtmlPass()
    ensures CleanHtmlTagAttributes(Page) == Page
  {
    assert FindFirst(Page, "html") == Some([0]);
  }

  /** Pass 6 on the sample page: the `head` loses its `title`. */
  lemma PageHeadPass()
    ensures RemoveFromHeadSection(Page) == PageCut
  {
    assert FindFirst(Page[0].children, "head") == Some([0]);
    assert [0] + [0] == [0, 0];
    assert FindFirst(Page, "head") == Some([0, 0]);
    var head := At(Page, [0, 0]);
    assert Filter(head.children, IsMeta) == [Meta] by {
      assert head.children == [Meta, Title];
      assert Filter([Title], IsMeta) == [];
    }
    var x := head.(children := [Meta]);
    assert x == Element("head", [], [Meta]);
    assert [0, 0][1..] == [0];
    assert ReplaceAt(Page[0].children, [0], x) == [x, Body];
    assert ReplaceAt(Page, [0, 0], x) == PageCut;
  }

  /** Pass 8 on the cut page: the `meta` is childless, so it goes, and then
      so does the `head` it leaves empty. */
  lemma PageSweep()
    ensures Everywhere(PageCut, NotComment)
    ensures RemoveEmptyNodes(PageCut) == PageOut
  {
    PageIsTame();
    TameEverywhere(PageCut);
    assert RemoveEmptyNodes([Meta]) == [];
    assert Everywhere([Body], HasContent) by {
      assert !IsNullOrWhiteSpace("Hi");
      assert Everywhere(Para.children, HasContent);
      assert Everywhere(Body.children, HasContent);
    }
    RemoveEmptyNodesKeepsContent([Body]);
    var kids := PageCut[0].children;
    assert kids[1..] == [Body];
    assert RemoveEmptyNodes(kids) == RemoveEmptyNodes([Body]);
  }

  /** Passes 5 to 8 on the sample page. */
  lemma PageMiddlePasses()
    ensures RemoveEmptyNodes(RemoveComments(RemoveFromHeadSection(CleanHtmlTagAttributes(Page)))) == PageOut
  {
    PageHtmlPass();
    PageHeadPass();
    PageSweep();
    RemoveWhereNoOp(PageCut, IsComment, NotComment);
  }

  /** A `<head>` cut down to its `<meta>` children is then swept away as empty,
      since a `<meta>` has no children: the output has no `<head>` at all. */
  lemma HeadDisappears()
    ensures Sanitize(Document(Page)) == Document(PageOut)
  {
    PageIsTame();
    TameSurvivesFirstPasses(Page);
    PageMiddlePasses();
    TameSurvivesLastPasses(PageOut);
  }

  const Dir: Attr := Attr("dir", "ltr", DoubleQuote)
  const Twin: seq<Node> := [Element("html", [Dir], []), Element("html", [Dir], [Para])]
  const TwinOnce: seq<Node> := [Element("html", [Dir], [Para])]
  const TwinTwice: seq<Node> := [Element("html", [], [Para])]

  lemma TwinIsTame()
    ensures Everywhere(Twin, Tame) && Everywhere(TwinOnce, Tame) && Everywhere(TwinTwice, Tame)
    ensures Everywhere(TwinOnce, HasContent) && Everywhere(TwinTwice, HasContent)
  {
    assert Everywhere(Para.children, Tame);
    assert Everywhere([Para], Tame);
    assert !IsNullOrWhiteSpace("Hi");
    assert Everywhere(Para.children, HasContent);
    assert Everywhere([Para], HasContent);
  }

  /** Neither sample has a `head`. */
  lemma TwinHasNoHead()
    ensures FindFirst(Twin, "head").None?
    ensures FindFirst(TwinOnce, "head").None?
    ensures FindFirst(TwinTwice, "head").None?
    ensures FindFirst([Element("html", [], []), Element("html", [Dir], [Para])], "head").None?
  {
    assert FindFirst([Text("Hi")], "head").None?;
    assert FindFirst([Para], "head").None?;
    assert FindFirst(TwinOnce[1..], "head").None?;
  }

  /** Passes 5 to 8 on the first run: only the first `html` loses its `dir`,
      and being childless it is then swept away. */
  lemma TwinFirstRun()
    ensures RemoveEmptyNodes(RemoveComments(RemoveFromHeadSection(CleanHtmlTagAttributes(Twin)))) == TwinOnce
  {
    TwinIsTame();
    TwinHasNoHead();
    assert FindFirst(Twin, "html") == Some([0]);
    var stripped := [Element("html", [], []), Element("html", [Dir], [Para])];
    assert Filter([Dir], IsLang) == [];
    assert CleanHtmlTagAttributes(Twin) == stripped;
    assert Everywhere(stripped, Tame) by {
      assert Everywhere([Para], Tame);
    }
    TameEverywhere(stripped);
    RemoveWhereNoOp(stripped, IsComment, NotComment);
    assert stripped[1..] == TwinOnce;
    RemoveEmptyNodesKeepsContent(TwinOnce);
  }

  /** Passes 5 to 8 on the second run: now the remaining `html` is the first
      one, and it loses its `dir`. */
  lemma TwinSecondRun()
    ensures RemoveEmptyNodes(RemoveComments(RemoveFromHeadSection(CleanHtmlTagAttributes(TwinOnce)))) == TwinTwice
  {
    TwinIsTame();
    TwinHasNoHead();
    assert FindFirst(TwinOnce, "html") == Some([0]);
    assert Filter([Dir], IsLang) == [];
    assert CleanHtmlTagAttributes(TwinOnce) == TwinTwice;
    TameEverywhere(TwinTwice);
    RemoveWhereNoOp(TwinTwice, IsComment, NotComment);
    RemoveEmptyNodesKeepsContent(TwinTwice);
  }

  /** Cleaning is not idempotent: a document with two `html` elements, the
      first of them empty, comes out of a second run different from the first. */
  lemma SanitizeNotIdempotent()
    ensures Sanitize(Document(Twin)) == Document(TwinOnce)
    ensures Sanitize(Sanitize(Document(Twin))) == Document(TwinTwice)
    ensures Sanitize(Sanitize(Document(Twin))) != Sanitize(Document(Twin))
  {
    TwinIsTame();
    TameSurvivesFirstPasses(Twin);
    TwinFirstRun();
    TameSurvivesLastPasses(TwinOnce);
    TameSurvivesFirstPasses(TwinOnce);
    TwinSecondRun();
    TameSurvivesLastPasses(TwinTwice);
    assert TwinOnce[0].attrs != TwinTwice[0].attrs;
  }
}
