/** The two passes that act on a single element found by `SelectSingleNode`:
    CleanHtmlTagAttributes (first `html`) and RemoveFromHeadSection (first
    `head`). `SelectSingleNode("//x")` returns the first element named `x`
    among the document's descendants in document order, or nothing. */
module FirstMatch {
  import opened Seqs
  import opened Dom

  /** The first element named `name` in document order, if any. */
  function FindFirst(ns: seq<Node>, name: string): (r: Option<Path>)
    ensures r.Some? ==> ValidPath(ns, r.value) && IsNamed(At(ns, r.value), name)
    decreases ns
  {
    if |ns| == 0 then None
    else if IsNamed(ns[0], name) then Some([0])
    else
      var inFirst := if ns[0].Element? then FindFirst(ns[0].children, name) else None;
      if inFirst.Some? then
        ChildPath(ns, 0, inFirst.value);
        Some([0] + inFirst.value)
      else
        var inRest := FindFirst(ns[1..], name);
        if inRest.Some? then
          TailPath(ns, inRest.value);
          Some([inRest.value[0] + 1] + inRest.value[1..])
        else None
  }

  /** `FindFirst` finds the first match, and finds nothing only when there is
      no match at all. */
  lemma {:induction false} FindFirstIsFirst(ns: seq<Node>, name: string, q: Path)
    requires ValidPath(ns, q)
    ensures FindFirst(ns, name).None? ==> !IsNamed(At(ns, q), name)
    ensures FindFirst(ns, name).Some? && PathLt(q, FindFirst(ns, name).value) ==> !IsNamed(At(ns, q), name)
    decreases ns
  {
    var r := FindFirst(ns, name);
    if IsNamed(ns[0], name) {
      assert r == Some([0]) && [0][1..] == [];
      assert !PathLt(q[1..], []);
    } else {
      var inFirst := if ns[0].Element? then FindFirst(ns[0].children, name) else None;
      if q[0] == 0 {
        if |q| > 1 {
          ChildPath(ns, 0, q[1..]);
          assert q == [0] + q[1..];
          FindFirstIsFirst(ns[0].children, name, q[1..]);
          if inFirst.Some? {
            var p := inFirst.value;
            assert r.value == [0] + p && r.value[1..] == p;
          }
        }
      } else if inFirst.None? {
        var inRest := FindFirst(ns[1..], name);
        var q' := [q[0] - 1] + q[1..];
        TailPath(ns, q');
        assert [q'[0] + 1] + q'[1..] == q;
        FindFirstIsFirst(ns[1..], name, q');
        if inRest.Some? {
          var p := inRest.value;
          assert r.value == [p[0] + 1] + p[1..];
          assert r.value[1..] == p[1..] && q'[1..] == q[1..];
        }
      }
    }
  }

  /** Replaces the node at `p` by `x`. */
  function ReplaceAt(ns: seq<Node>, p: Path, x: Node): (r: seq<Node>)
    requires ValidPath(ns, p)
    ensures |r| == |ns|
    decreases |p|
  {
    if |p| == 1 then ns[p[0] := x]
    else ns[p[0] := ns[p[0]].(children := ReplaceAt(ns[p[0]].children, p[1..], x))]
  }

  /** After the replacement `x` stands at `p`; every position outside the
      subtree at `p` is still there with the same node data, and below `p`
      lies the subtree of `x`. */
  lemma {:induction false} ReplaceAtFrame(ns: seq<Node>, p: Path, x: Node, q: Path)
    requires ValidPath(ns, p)
    ensures ValidPath(ReplaceAt(ns, p, x), p) && At(ReplaceAt(ns, p, x), p) == x
    ensures !IsPrefix(p, q) ==> (ValidPath(ReplaceAt(ns, p, x), q) <==> ValidPath(ns, q))
    ensures !IsPrefix(p, q) && ValidPath(ns, q) ==> Head(At(ReplaceAt(ns, p, x), q)) == Head(At(ns, q))
    decreases |p|
  {
    var r := ReplaceAt(ns, p, x);
    if |p| > 1 {
      ReplaceAtFrame(ns[p[0]].children, p[1..], x, if |q| > 0 then q[1..] else q);
      if |q| > 1 && q[0] == p[0] && !IsPrefix(p, q) {
        assert !IsPrefix(p[1..], q[1..]);
      }
    } else if |q| > 0 && q[0] == p[0] {
      assert IsPrefix(p, q) by {
        assert q[..1] == [q[0]];
      }
    }
  }

  /** Putting back the node that is already there changes nothing. */
  lemma {:induction false} ReplaceAtSame(ns: seq<Node>, p: Path)
    requires ValidPath(ns, p)
    ensures ReplaceAt(ns, p, At(ns, p)) == ns
    decreases |p|
  {
    if |p| > 1 {
      ReplaceAtSame(ns[p[0]].children, p[1..]);
      assert ns[p[0]].(children := ns[p[0]].children) == ns[p[0]];
    }
  }

  /** Replacing a node by one with the same children keeps every position,
      and changes the node data only at `p`. */
  lemma {:induction false} ReplaceHeadAt(ns: seq<Node>, p: Path, x: Node, q: Path)
    requires ValidPath(ns, p) && At(ns, p).Element? && x.Element? && x.children == At(ns, p).children
    ensures ValidPath(ReplaceAt(ns, p, x), q) <==> ValidPath(ns, q)
    ensures ValidPath(ns, q) && q != p ==> At(ReplaceAt(ns, p, x), q).Element? == At(ns, q).Element?
    ensures ValidPath(ns, q) && q != p ==> Head(At(ReplaceAt(ns, p, x), q)) == Head(At(ns, q))
    decreases |p|
  {
    if |q| > 1 && q[0] == p[0] {
      if |p| > 1 {
        ReplaceHeadAt(ns[p[0]].children, p[1..], x, q[1..]);
        assert q[1..] != p[1..] || q == p by {
          if q[1..] == p[1..] {
            assert q == [q[0]] + q[1..] && p == [p[0]] + p[1..];
          }
        }
      }
    } else if |q| == 1 && q[0] == p[0] && |p| == 1 {
      assert q == p;
    }
  }

  /** A property of nodes themselves that held everywhere, and holds of `x`
      and throughout its subtree, holds everywhere after the replacement. */
  lemma {:induction false} ReplaceAtPreserves(ns: seq<Node>, p: Path, x: Node, P: Node -> bool)
    requires HeadLocal(P)
    requires ValidPath(ns, p) && Everywhere(ns, P)
    requires P(x) && (x.Element? ==> Everywhere(x.children, P))
    ensures Everywhere(ReplaceAt(ns, p, x), P)
    decreases |p|
  {
    var r := ReplaceAt(ns, p, x);
    if |p| > 1 {
      var old_ := ns[p[0]];
      ReplaceAtPreserves(old_.children, p[1..], x, P);
      var new_ := r[p[0]];
      assert P(Head(new_)) == P(new_) && P(Head(old_)) == P(old_);
      assert Head(new_) == Head(old_);
    }
    forall i | 0 <= i < |r| ensures P(r[i]) && (r[i].Element? ==> Everywhere(r[i].children, P)) {
      if i != p[0] {
        assert r[i] == ns[i];
      }
    }
  }

  /** What `P` says of every node it says of the nodes below any one of them. */
  lemma {:induction false} EverywhereBelow(ns: seq<Node>, p: Path, P: Node -> bool)
    requires ValidPath(ns, p) && Everywhere(ns, P) && At(ns, p).Element?
    ensures P(At(ns, p)) && Everywhere(At(ns, p).children, P)
    decreases |p|
  {
    if |p| > 1 {
      EverywhereBelow(ns[p[0]].children, p[1..], P);
    }
  }

  // ---------------------------------------------------------------------------
  // Pass 5: CleanHtmlTagAttributes

  predicate IsLang(a: Attr)
  {
    a.name == "lang"
  }

  /** The first `html` element keeps only its `lang` attributes, in their
      order; nothing else changes, and without an `html` element nothing does. */
  function CleanHtmlTagAttributes(ns: seq<Node>): (r: seq<Node>)
    ensures FindFirst(ns, "html").None? ==> r == ns
    ensures forall q :: ValidPath(r, q) <==> ValidPath(ns, q)
    ensures FindFirst(ns, "html").Some? ==>
      var p := FindFirst(ns, "html").value;
      && ValidPath(r, p)
      && IsNamed(At(r, p), "html")
      && AttrsOf(At(r, p)) == Filter(AttrsOf(At(ns, p)), IsLang)
      && (forall a :: a in AttrsOf(At(r, p)) <==> a in AttrsOf(At(ns, p)) && a.name == "lang")
      && At(r, p).children == At(ns, p).children
      && (forall q :: ValidPath(ns, q) && q != p ==> Head(At(r, q)) == Head(At(ns, q)))
  {
    match FindFirst(ns, "html")
    case None => ns
    case Some(p) =>
      var html := At(ns, p);
      var x := html.(attrs := Filter(html.attrs, IsLang));
      HtmlFrame(ns, p, x);
      ReplaceAtFrame(ns, p, x, p);
      ReplaceAt(ns, p, x)
  }

  /** The first `html` element holds only `lang` attributes (or there is none). */
  predicate HtmlTrimmed(ns: seq<Node>)
  {
    match FindFirst(ns, "html")
    case None => true
    case Some(p) => forall i :: 0 <= i < |AttrsOf(At(ns, p))| ==> IsLang(AttrsOf(At(ns, p))[i])
  }

  /** When the first `html` element keeps all its attributes, the pass changes nothing. */
  lemma CleanHtmlTagAttributesNoOp(ns: seq<Node>)
    requires HtmlTrimmed(ns)
    ensures CleanHtmlTagAttributes(ns) == ns
  {
    match FindFirst(ns, "html")
    case None =>
    case Some(p) =>
      var html := At(ns, p);
      assert html.Element? && AttrsOf(html) == html.attrs;
      assert Filter(html.attrs, IsLang) == html.attrs;
      ReplaceAtSame(ns, p);
  }

  lemma HtmlFrame(ns: seq<Node>, p: Path, x: Node)
    requires ValidPath(ns, p) && At(ns, p).Element? && x.Element? && x.children == At(ns, p).children
    ensures forall q :: ValidPath(ReplaceAt(ns, p, x), q) <==> ValidPath(ns, q)
    ensures forall q :: ValidPath(ns, q) && q != p ==> Head(At(ReplaceAt(ns, p, x), q)) == Head(At(ns, q))
  {
    forall q ensures ValidPath(ReplaceAt(ns, p, x), q) <==> ValidPath(ns, q)
      ensures ValidPath(ns, q) && q != p ==> Head(At(ReplaceAt(ns, p, x), q)) == Head(At(ns, q))
    {
      ReplaceHeadAt(ns, p, x, q);
    }
  }

  // ---------------------------------------------------------------------------
  // Pass 6: RemoveFromHeadSection

  /** The child filter of the pass: `n.Name != "meta"` selects what goes, so
      text (`#text`) and comment (`#comment`) children go too. */
  predicate IsMeta(n: Node)
  {
    NameOf(n) == "meta"
  }

  /** The first `head` element keeps exactly its `meta` children, in their
      order and with their subtrees; every position outside that element's
      subtree is kept with the same node data. Without a `head` nothing changes. */
  function RemoveFromHeadSection(ns: seq<Node>): (r: seq<Node>)
    ensures FindFirst(ns, "head").None? ==> r == ns
    ensures FindFirst(ns, "head").Some? ==>
      var p := FindFirst(ns, "head").value;
      && ValidPath(r, p)
      && Head(At(r, p)) == Head(At(ns, p))
      && At(r, p).children == Filter(At(ns, p).children, IsMeta)
      && (forall i :: 0 <= i < |At(r, p).children| ==> IsMeta(At(r, p).children[i]))
      && (forall q :: !IsPrefix(p, q) ==> (ValidPath(r, q) <==> ValidPath(ns, q)))
      && (forall q :: !IsPrefix(p, q) && ValidPath(ns, q) ==> Head(At(r, q)) == Head(At(ns, q)))
  {
    match FindFirst(ns, "head")
    case None => ns
    case Some(p) =>
      var head := At(ns, p);
      var x := head.(children := Filter(head.children, IsMeta));
      HeadFrame(ns, p, x);
      ReplaceAt(ns, p, x)
  }

  /** The first `head` element holds only `meta` children (or there is none). */
  predicate HeadTrimmed(ns: seq<Node>)
  {
    match FindFirst(ns, "head")
    case None => true
    case Some(p) => forall i :: 0 <= i < |At(ns, p).children| ==> IsMeta(At(ns, p).children[i])
  }

  /** When the first `head` element holds only `meta` children, the pass changes nothing. */
  lemma RemoveFromHeadSectionNoOp(ns: seq<Node>)
    requires HeadTrimmed(ns)
    ensures RemoveFromHeadSection(ns) == ns
  {
    match FindFirst(ns, "head")
    case None =>
    case Some(p) =>
      var head := At(ns, p);
      assert head.(children := Filter(head.children, IsMeta)) == head;
      ReplaceAtSame(ns, p);
  }

  lemma HeadFrame(ns: seq<Node>, p: Path, x: Node)
    requires ValidPath(ns, p)
    ensures ValidPath(ReplaceAt(ns, p, x), p) && At(ReplaceAt(ns, p, x), p) == x
    ensures forall q :: !IsPrefix(p, q) ==> (ValidPath(ReplaceAt(ns, p, x), q) <==> ValidPath(ns, q))
    ensures forall q :: !IsPrefix(p, q) && ValidPath(ns, q) ==> Head(At(ReplaceAt(ns, p, x), q)) == Head(At(ns, q))
  {
    forall q ensures !IsPrefix(p, q) ==> (ValidPath(ReplaceAt(ns, p, x), q) <==> ValidPath(ns, q))
      ensures !IsPrefix(p, q) && ValidPath(ns, q) ==> Head(At(ReplaceAt(ns, p, x), q)) == Head(At(ns, q))
    {
      ReplaceAtFrame(ns, p, x, q);
    }
    ReplaceAtFrame(ns, p, x, p);
  }
}
