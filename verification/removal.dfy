/** The passes that delete whole subtrees: RemoveStyleTags, RemoveWordTags and
    RemoveComments. Each selects nodes by a test on the node itself and calls
    `Remove()` on every selected node, which takes the node's subtree with it
    and leaves its siblings in place. A selected node inside an already removed
    subtree changes nothing further, so the effect is that of `RemoveWhere`:
    keep exactly the nodes with no selected ancestor-or-self, in their order. */
module Removal {
  import opened Seqs
  import opened Dom

  /** Deletes every node that `sel` selects, together with its subtree.
      Written from the right so that the survivors of a prefix of the sibling
      list are a prefix of the survivors of the whole list. */
  function RemoveWhere(ns: seq<Node>, sel: Node -> bool): (r: seq<Node>)
    ensures |r| <= |ns|
    decreases ns
  {
    if |ns| == 0 then []
    else
      var last := ns[|ns| - 1];
      RemoveWhere(ns[..|ns| - 1], sel) +
        (if sel(last) then []
         else match last
              case Element(name, attrs, children) => [Element(name, attrs, RemoveWhere(children, sel))]
              case _ => [last])
  }

  /** What becomes of an unselected node: the same node with its subtree cleaned. */
  function Pruned(n: Node, sel: Node -> bool): Node
  {
    match n
    case Element(name, attrs, children) => Element(name, attrs, RemoveWhere(children, sel))
    case _ => n
  }

  /** Where the `i`-th sibling lands in the result when it survives: the
      number of survivors before it. */
  function Rank(ns: seq<Node>, sel: Node -> bool, i: nat): nat
    requires i <= |ns|
  {
    |RemoveWhere(ns[..i], sel)|
  }

  /** No ancestor-or-self of the node at `p` is selected. */
  predicate Spared(ns: seq<Node>, sel: Node -> bool, p: Path)
    requires ValidPath(ns, p)
    decreases |p|
  {
    !sel(ns[p[0]]) && (|p| == 1 || Spared(ns[p[0]].children, sel, p[1..]))
  }

  /** The position in the result of the spared node at `p`. */
  function Translate(ns: seq<Node>, sel: Node -> bool, p: Path): Path
    requires ValidPath(ns, p)
    decreases |p|
  {
    [Rank(ns, sel, p[0])] + (if |p| == 1 then [] else Translate(ns[p[0]].children, sel, p[1..]))
  }

  /** The result for a prefix of the siblings is a prefix of the whole result. */
  lemma {:induction false} RemoveWherePrefix(ns: seq<Node>, sel: Node -> bool, j: nat)
    requires j <= |ns|
    ensures Rank(ns, sel, j) <= |RemoveWhere(ns, sel)|
    ensures RemoveWhere(ns, sel)[..Rank(ns, sel, j)] == RemoveWhere(ns[..j], sel)
    decreases |ns|
  {
    if j == |ns| {
      assert ns[..j] == ns;
    } else {
      var init := ns[..|ns| - 1];
      assert init[..j] == ns[..j];
      RemoveWherePrefix(init, sel, j);
    }
  }

  /** An unselected sibling survives, pruned, at its rank. */
  lemma SiblingSurvives(ns: seq<Node>, sel: Node -> bool, i: nat)
    requires i < |ns| && !sel(ns[i])
    ensures Rank(ns, sel, i) < |RemoveWhere(ns, sel)|
    ensures RemoveWhere(ns, sel)[Rank(ns, sel, i)] == Pruned(ns[i], sel)
    ensures Rank(ns, sel, i + 1) == Rank(ns, sel, i) + 1
  {
    var pre := ns[..i + 1];
    assert pre[..|pre| - 1] == ns[..i];
    assert RemoveWhere(pre, sel) == RemoveWhere(ns[..i], sel) + [Pruned(ns[i], sel)];
    RemoveWherePrefix(ns, sel, i + 1);
    assert RemoveWhere(ns, sel)[..Rank(ns, sel, i + 1)] == RemoveWhere(pre, sel);
  }

  /** Ranks never decrease along the siblings. */
  lemma RankMonotone(ns: seq<Node>, sel: Node -> bool, i: nat, j: nat)
    requires i <= j <= |ns|
    ensures Rank(ns, sel, i) <= Rank(ns, sel, j)
  {
    var pre := ns[..j];
    assert pre[..i] == ns[..i];
    RemoveWherePrefix(pre, sel, i);
  }

  /** Every element of the result comes from an unselected sibling: `i` is
      the sibling the `k`-th survivor comes from. */
  lemma {:induction false} SiblingOrigin(ns: seq<Node>, sel: Node -> bool, k: nat) returns (i: nat)
    requires k < |RemoveWhere(ns, sel)|
    ensures i < |ns| && !sel(ns[i]) && Rank(ns, sel, i) == k
    decreases |ns|
  {
    var init := ns[..|ns| - 1];
    assert ns[..|ns| - 1] == init;
    if k < |RemoveWhere(init, sel)| {
      i := SiblingOrigin(init, sel, k);
      assert init[..i] == ns[..i];
    } else {
      i := |ns| - 1;
    }
  }

  /** The same result read from the left: the first sibling goes or stays,
      then the rest is processed. */
  lemma {:induction false} RemoveWhereCons(x: Node, rest: seq<Node>, sel: Node -> bool)
    ensures RemoveWhere([x] + rest, sel) == (if sel(x) then [] else [Pruned(x, sel)]) + RemoveWhere(rest, sel)
    decreases |rest|
  {
    var ns := [x] + rest;
    if |rest| == 0 {
      assert ns[..|ns| - 1] == [];
    } else {
      var init := rest[..|rest| - 1];
      assert ns[..|ns| - 1] == [x] + init;
      assert ns[|ns| - 1] == rest[|rest| - 1];
      RemoveWhereCons(x, init, sel);
    }
  }

  /** Everything goes exactly when every sibling is selected. */
  lemma {:induction false} RemoveWhereEmpty(ns: seq<Node>, sel: Node -> bool)
    ensures RemoveWhere(ns, sel) == [] <==> forall i :: 0 <= i < |ns| ==> sel(ns[i])
    decreases |ns|
  {
    if |ns| > 0 {
      var init := ns[..|ns| - 1];
      RemoveWhereEmpty(init, sel);
      assert forall i :: 0 <= i < |init| ==> init[i] == ns[i];
    }
  }

  /** Survivors: every spared node is in the result, at its translated
      position, with the same name, attributes and payload. */
  lemma {:induction false} RemoveWhereKeepsSpared(ns: seq<Node>, sel: Node -> bool, p: Path)
    requires ValidPath(ns, p) && Spared(ns, sel, p)
    ensures ValidPath(RemoveWhere(ns, sel), Translate(ns, sel, p))
    ensures Head(At(RemoveWhere(ns, sel), Translate(ns, sel, p))) == Head(At(ns, p))
    decreases |p|
  {
    var r := RemoveWhere(ns, sel);
    var t := Translate(ns, sel, p);
    SiblingSurvives(ns, sel, p[0]);
    assert t[0] == Rank(ns, sel, p[0]);
    if |p| > 1 {
      var kids := ns[p[0]].children;
      RemoveWhereKeepsSpared(kids, sel, p[1..]);
      assert t[1..] == Translate(kids, sel, p[1..]);
      assert r[t[0]].children == RemoveWhere(kids, sel);
    }
  }

  /** Nothing is added: every node of the result is a spared node of the input,
      namely the one at `p`, moved to its translated position. */
  lemma {:induction false} RemoveWhereAddsNothing(ns: seq<Node>, sel: Node -> bool, q: Path) returns (p: Path)
    requires ValidPath(RemoveWhere(ns, sel), q)
    ensures ValidPath(ns, p) && Spared(ns, sel, p) && Translate(ns, sel, p) == q
    decreases |q|
  {
    var i := SiblingOrigin(ns, sel, q[0]);
    SiblingSurvives(ns, sel, i);
    if |q| == 1 {
      p := [i];
      assert ValidPath(ns, p) && Spared(ns, sel, p) && Translate(ns, sel, p) == q;
    } else {
      PrunedPathBelow(ns[i], sel, q[1..]);
      var p' := RemoveWhereAddsNothing(ns[i].children, sel, q[1..]);
      SparedBelow(ns, sel, i, p');
      p := [i] + p';
      assert q == [q[0]] + q[1..];
    }
  }

  /** A path inside a pruned element is a path inside the pruned children. */
  lemma PrunedPathBelow(n: Node, sel: Node -> bool, q': Path)
    requires Pruned(n, sel).Element? && ValidPath(Pruned(n, sel).children, q')
    ensures n.Element? && ValidPath(RemoveWhere(n.children, sel), q')
  {
  }

  /** A spared path below an unselected element extends to a spared path from the top. */
  lemma SparedBelow(ns: seq<Node>, sel: Node -> bool, i: nat, p': Path)
    requires i < |ns| && !sel(ns[i]) && ns[i].Element?
    requires ValidPath(ns[i].children, p') && Spared(ns[i].children, sel, p')
    ensures ValidPath(ns, [i] + p') && Spared(ns, sel, [i] + p')
    ensures Translate(ns, sel, [i] + p') == [Rank(ns, sel, i)] + Translate(ns[i].children, sel, p')
  {
    var p := [i] + p';
    assert p[0] == i && p[1..] == p';
  }

  /** Survivors keep their document order. */
  lemma {:induction false} RemoveWhereKeepsOrder(ns: seq<Node>, sel: Node -> bool, p1: Path, p2: Path)
    requires ValidPath(ns, p1) && Spared(ns, sel, p1)
    requires ValidPath(ns, p2) && Spared(ns, sel, p2)
    requires PathLt(p1, p2)
    ensures PathLt(Translate(ns, sel, p1), Translate(ns, sel, p2))
    decreases |p1|
  {
    var t1 := Translate(ns, sel, p1);
    var t2 := Translate(ns, sel, p2);
    if p1[0] < p2[0] {
      SiblingSurvives(ns, sel, p1[0]);
      RankMonotone(ns, sel, p1[0] + 1, p2[0]);
    } else if |p1| == 1 {
      assert |p2| > 1 && t1[1..] == [] && t2[1..] != [];
    } else {
      RemoveWhereKeepsOrder(ns[p1[0]].children, sel, p1[1..], p2[1..]);
      assert t1[1..] == Translate(ns[p1[0]].children, sel, p1[1..]);
      assert t2[1..] == Translate(ns[p1[0]].children, sel, p2[1..]);
    }
  }

  /** A node property that every unselected node has holds everywhere in the
      result (for properties that look only at the node itself). */
  lemma {:induction false} RemoveWhereEstablishes(ns: seq<Node>, sel: Node -> bool, P: Node -> bool)
    requires HeadLocal(P)
    requires forall n :: !sel(n) ==> P(n)
    ensures Everywhere(RemoveWhere(ns, sel), P)
    decreases ns
  {
    if |ns| > 0 {
      var last := ns[|ns| - 1];
      RemoveWhereEstablishes(ns[..|ns| - 1], sel, P);
      if !sel(last) && last.Element? {
        RemoveWhereEstablishes(last.children, sel, P);
        assert P(Head(Pruned(last, sel))) == P(Pruned(last, sel));
        assert P(Head(last)) == P(last);
      }
    }
  }

  /** A node property that held everywhere still holds everywhere: removal
      only ever takes nodes away. */
  lemma {:induction false} RemoveWherePreserves(ns: seq<Node>, sel: Node -> bool, P: Node -> bool)
    requires HeadLocal(P)
    requires Everywhere(ns, P)
    ensures Everywhere(RemoveWhere(ns, sel), P)
    decreases ns
  {
    if |ns| > 0 {
      var last := ns[|ns| - 1];
      assert Everywhere(ns[..|ns| - 1], P);
      RemoveWherePreserves(ns[..|ns| - 1], sel, P);
      if !sel(last) && last.Element? {
        RemoveWherePreserves(last.children, sel, P);
        assert P(Head(Pruned(last, sel))) == P(Pruned(last, sel));
        assert P(Head(last)) == P(last);
      }
    }
  }

  /** Where nothing is selected, nothing changes. */
  lemma {:induction false} RemoveWhereNoOp(ns: seq<Node>, sel: Node -> bool, P: Node -> bool)
    requires forall n :: P(n) ==> !sel(n)
    requires Everywhere(ns, P)
    ensures RemoveWhere(ns, sel) == ns
    decreases ns
  {
    if |ns| > 0 {
      var last := ns[|ns| - 1];
      assert Everywhere(ns[..|ns| - 1], P);
      RemoveWhereNoOp(ns[..|ns| - 1], sel, P);
      if last.Element? {
        RemoveWhereNoOp(last.children, sel, P);
      }
      assert ns == ns[..|ns| - 1] + [last];
    }
  }

  // ---------------------------------------------------------------------------
  // Pass 3: RemoveStyleTags

  /** Selected by the XPath `//style`. */
  predicate IsStyleTag(n: Node)
  {
    IsNamed(n, "style")
  }

  predicate NotStyleTag(n: Node)
  {
    !IsStyleTag(n)
  }

  /** No `style` element is left. */
  function RemoveStyleTags(ns: seq<Node>): (r: seq<Node>)
    ensures Everywhere(r, NotStyleTag)
  {
    RemoveWhereEstablishes(ns, IsStyleTag, NotStyleTag);
    RemoveWhere(ns, IsStyleTag)
  }

  // ---------------------------------------------------------------------------
  // Pass 4: RemoveWordTags

  /** Selected from `Descendants()`: an `o:` or `v:` namespaced node, an `xml`
      island, or the `w:worddocument` settings block. Text and comment nodes
      report `#text` and `#comment` and are never selected. */
  predicate IsWordTag(n: Node)
  {
    StartsWith(NameOf(n), "o:") || StartsWith(NameOf(n), "v:") || NameOf(n) == "xml" || NameOf(n) == "w:worddocument"
  }

  predicate NotWordTag(n: Node)
  {
    !IsWordTag(n)
  }

  /** No Office-specific node is left. */
  function RemoveWordTags(ns: seq<Node>): (r: seq<Node>)
    ensures Everywhere(r, NotWordTag)
  {
    RemoveWhereEstablishes(ns, IsWordTag, NotWordTag);
    RemoveWhere(ns, IsWordTag)
  }

  // ---------------------------------------------------------------------------
  // Pass 7: RemoveComments

  predicate IsComment(n: Node)
  {
    n.Comment?
  }

  predicate NotComment(n: Node)
  {
    !n.Comment?
  }

  /** No comment node is left. */
  function RemoveComments(ns: seq<Node>): (r: seq<Node>)
    ensures Everywhere(r, NotComment)
  {
    RemoveWhereEstablishes(ns, IsComment, NotComment);
    RemoveWhere(ns, IsComment)
  }

  /** The selections of the three passes look only at the node itself. */
  lemma SelectionsHeadLocal()
    ensures HeadLocal(NotStyleTag) && HeadLocal(NotWordTag) && HeadLocal(NotComment)
  {
  }
}
