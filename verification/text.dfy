/** Character-level rules used on text payloads: the whitespace test behind
    `string.IsNullOrWhiteSpace`, and the rewrite of runs of the `&nbsp;`
    entity done by `Regex.Replace(text, "(&nbsp;){2,}", "&nbsp;")`. */
module TextContent {
  import opened Seqs

  /** `Char.IsWhiteSpace`: the Unicode space, line and paragraph separators,
      plus the control characters U+0009 to U+000D and U+0085. */
  predicate IsWhiteSpace(c: char)
  {
    || c == ' ' || ('\t' <= c <= '\r') || c == '\U{0085}' || c == '\U{00A0}' || c == '\U{1680}'
    || ('\U{2000}' <= c <= '\U{200A}') || c == '\U{2028}' || c == '\U{2029}' || c == '\U{202F}'
    || c == '\U{205F}' || c == '\U{3000}'
  }

  /** `string.IsNullOrWhiteSpace` (a Dafny string is never null). */
  predicate IsNullOrWhiteSpace(s: string)
    decreases |s|
  {
    |s| == 0 || (IsWhiteSpace(s[0]) && IsNullOrWhiteSpace(s[1..]))
  }

  /** The entity as it appears literally in a text node's raw payload. */
  const Nbsp: string := "&nbsp;"

  /** The entity starts at position `i` of `s`. */
  predicate NbspAt(s: string, i: nat)
  {
    && i + 6 <= |s|
    && s[i] == '&' && s[i + 1] == 'n' && s[i + 2] == 'b' && s[i + 3] == 's' && s[i + 4] == 'p' && s[i + 5] == ';'
  }

  /** Two entities back to back start at position `i`: what the pattern
      `(&nbsp;){2,}` needs in order to match there. */
  predicate DoubleNbspAt(s: string, i: nat)
  {
    NbspAt(s, i) && NbspAt(s, i + 6)
  }

  /** Somewhere in `s` two entities stand back to back. */
  predicate HasDoubleNbsp(s: string)
    decreases |s|
  {
    DoubleNbspAt(s, 0) || (|s| > 0 && HasDoubleNbsp(s[1..]))
  }

  /** `k` copies of the entity. */
  function Repeat(k: nat): (r: string)
    ensures |r| == 6 * k
  {
    if k == 0 then "" else Nbsp + Repeat(k - 1)
  }

  /** `s` without its leading run of whole entities. */
  function DropRun(s: string): (r: string)
    ensures !NbspAt(r, 0)
    ensures |r| <= |s|
    decreases |s|
  {
    if NbspAt(s, 0) then DropRun(s[6..]) else s
  }

  /** The regex rewrite: scanning left to right, each maximal run of two or more
      entities (the greedy `{2,}`) is replaced by a single entity, and the scan
      resumes after the run; every other character is copied. */
  function CollapseNbsp(s: string): string
    decreases |s|
  {
    if DoubleNbspAt(s, 0) then Nbsp + CollapseNbsp(DropRun(s[12..]))
    else if |s| == 0 then ""
    else [s[0]] + CollapseNbsp(s[1..])
  }

  /** The rewrite never changes the first character, and never empties a string. */
  lemma CollapseFirst(s: string)
    requires |s| > 0
    ensures |CollapseNbsp(s)| > 0 && CollapseNbsp(s)[0] == s[0]
  {
  }

  /** A character other than `&` cannot start a match, so it is copied. */
  lemma CollapseCopiesOne(s: string)
    requires |s| > 0 && s[0] != '&'
    ensures CollapseNbsp(s) == [s[0]] + CollapseNbsp(s[1..])
  {
  }

  /** Where no match starts, the first character is copied. */
  lemma CollapseNoMatch(s: string)
    requires |s| > 0 && !DoubleNbspAt(s, 0)
    ensures CollapseNbsp(s) == [s[0]] + CollapseNbsp(s[1..])
  {
  }

  /** A stretch without `&` is copied as is. */
  lemma {:induction false} CollapseCopies(w: string, v: string)
    requires forall i :: 0 <= i < |w| ==> w[i] != '&'
    ensures CollapseNbsp(w + v) == w + CollapseNbsp(v)
    decreases |w|
  {
    if |w| > 0 {
      assert (w + v)[0] == w[0];
      CollapseCopiesOne(w + v);
      assert (w + v)[1..] == w[1..] + v;
      CollapseCopies(w[1..], v);
    } else {
      assert w + v == v;
    }
  }

  /** Two entities cannot straddle the end of an `&`-free stretch. */
  lemma {:induction false} DoubleSkipsPrefix(w: string, v: string)
    requires forall i :: 0 <= i < |w| ==> w[i] != '&'
    requires HasDoubleNbsp(w + v)
    ensures HasDoubleNbsp(v)
    decreases |w|
  {
    if |w| > 0 {
      assert (w + v)[0] == w[0];
      assert (w + v)[1..] == w[1..] + v;
      DoubleSkipsPrefix(w[1..], v);
    } else {
      assert w + v == v;
    }
  }

  /** The output starts with an entity only if the input did. */
  lemma CollapseEntityBack(u: string)
    requires NbspAt(CollapseNbsp(u), 0)
    ensures NbspAt(u, 0)
  {
    var r := CollapseNbsp(u);
    assert |u| > 0;
    CollapseFirst(u);
    if !DoubleNbspAt(u, 0) {
      var t := u[1..];
      assert r == [u[0]] + CollapseNbsp(t);
      CollapseFirst(t);
      CollapseCopiesOne(t);
      CollapseFirst(t[1..]);
      CollapseCopiesOne(t[1..]);
      CollapseFirst(t[2..]);
      CollapseCopiesOne(t[2..]);
      CollapseFirst(t[3..]);
      CollapseCopiesOne(t[3..]);
      CollapseFirst(t[4..]);
      assert r[1..6] == t[..5];
    }
  }

  /** An entity followed by text that neither starts with an entity nor holds a
      double entity holds no double entity. */
  lemma EntityThenClean(c: string)
    requires !NbspAt(c, 0) && !HasDoubleNbsp(c)
    ensures !HasDoubleNbsp(Nbsp + c)
  {
    var r := Nbsp + c;
    assert r[6..] == c;
    assert !DoubleNbspAt(r, 0);
    assert r[1..] == "nbsp;" + c;
    if HasDoubleNbsp(r[1..]) {
      DoubleSkipsPrefix("nbsp;", c);
    }
  }

  /** An `&`-free stretch of `n` characters at the front of the output was
      copied from the front of the input. */
  lemma {:induction false} CollapseCopiedBack(t: string, n: nat)
    requires n <= |CollapseNbsp(t)|
    requires forall i :: 0 <= i < n ==> CollapseNbsp(t)[i] != '&'
    ensures n <= |t| && CollapseNbsp(t) == t[..n] + CollapseNbsp(t[n..])
    decreases n
  {
    if n > 0 {
      var u := t[1..];
      CopiedStep(t, n);
      CollapseCopiedBack(u, n - 1);
      assert u[n - 1..] == t[n..];
      assert t[..n] == [t[0]] + u[..n - 1];
    } else {
      assert t[..0] == [] && t[0..] == t;
    }
  }

  /** One step of `CollapseCopiedBack`: the first character was copied. */
  lemma CopiedStep(t: string, n: nat)
    requires 0 < n <= |CollapseNbsp(t)|
    requires forall i :: 0 <= i < n ==> CollapseNbsp(t)[i] != '&'
    ensures |t| > 0 && CollapseNbsp(t) == [t[0]] + CollapseNbsp(t[1..])
    ensures forall i :: 0 <= i < n - 1 ==> CollapseNbsp(t[1..])[i] != '&'
  {
    assert |t| > 0;
    CollapseFirst(t);
    CollapseCopiesOne(t);
  }

  /** Where no match starts, copying the first character cannot create one:
      the copied character and the rewrite of the rest never form two entities. */
  lemma CopiedCharStartsNoDouble(s: string)
    requires |s| > 0 && !DoubleNbspAt(s, 0)
    ensures !DoubleNbspAt([s[0]] + CollapseNbsp(s[1..]), 0)
  {
    var t := s[1..];
    var c := CollapseNbsp(t);
    var r := [s[0]] + c;
    if DoubleNbspAt(r, 0) {
      var w := "nbsp;";
      assert c[..5] == r[1..6] == w;
      CollapseCopiedBack(t, 5);
      assert CollapseNbsp(t[5..]) == r[6..];
      CollapseEntityBack(t[5..]);
    }
  }

  /** After the rewrite no two entities stand back to back anywhere in the payload. */
  lemma {:induction false} CollapseLeavesNoDouble(s: string)
    ensures !HasDoubleNbsp(CollapseNbsp(s))
    decreases |s|
  {
    if DoubleNbspAt(s, 0) {
      var t := DropRun(s[12..]);
      CollapseLeavesNoDouble(t);
      if NbspAt(CollapseNbsp(t), 0) {
        CollapseEntityBack(t);
      }
      EntityThenClean(CollapseNbsp(t));
    } else if |s| > 0 {
      CollapseLeavesNoDouble(s[1..]);
      var r := [s[0]] + CollapseNbsp(s[1..]);
      CopiedCharStartsNoDouble(s);
      assert r[1..] == CollapseNbsp(s[1..]);
    }
  }

  /** A payload without a double entity is left as it is. */
  lemma {:induction false} CollapseKeepsCleanText(s: string)
    requires !HasDoubleNbsp(s)
    ensures CollapseNbsp(s) == s
    decreases |s|
  {
    if |s| > 0 {
      assert !DoubleNbspAt(s, 0) && !HasDoubleNbsp(s[1..]);
      CollapseKeepsCleanText(s[1..]);
      assert CollapseNbsp(s) == [s[0]] + CollapseNbsp(s[1..]);
      assert s == [s[0]] + s[1..];
    }
  }

  /** Rewriting twice is the same as rewriting once. */
  lemma CollapseIdempotent(s: string)
    ensures CollapseNbsp(CollapseNbsp(s)) == CollapseNbsp(s)
  {
    CollapseLeavesNoDouble(s);
    CollapseKeepsCleanText(CollapseNbsp(s));
  }

  /** An entity put in front of `x` is recognised there and skipped by six. */
  lemma NbspPrefix(x: string)
    ensures NbspAt(Nbsp + x, 0) && (Nbsp + x)[6..] == x
  {
  }

  /** `k` entities are one entity followed by `k - 1`. */
  lemma RepeatCons(k: nat, t: string)
    requires k > 0
    ensures Repeat(k) + t == Nbsp + (Repeat(k - 1) + t)
  {
  }

  /** Dropping a run of whole entities that is followed by something else. */
  lemma {:induction false} DropRunOfRepeat(k: nat, t: string)
    requires !NbspAt(t, 0)
    ensures DropRun(Repeat(k) + t) == t
    decreases k
  {
    if k > 0 {
      RepeatCons(k, t);
      DropRunCons(Repeat(k - 1) + t);
      DropRunOfRepeat(k - 1, t);
    } else {
      assert Repeat(k) + t == t;
    }
  }

  /** A leading entity is dropped and the scan goes on. */
  lemma DropRunCons(u: string)
    ensures DropRun(Nbsp + u) == DropRun(u)
  {
    NbspPrefix(u);
    DropRunStep(Nbsp + u);
  }

  /** A leading entity is dropped and the scan goes on. */
  lemma DropRunStep(s: string)
    requires NbspAt(s, 0)
    ensures DropRun(s) == DropRun(s[6..])
  {
  }

  /** Two entities followed by anything start a match that skips both. */
  lemma DoubleStart(rest: string)
    ensures DoubleNbspAt(Nbsp + (Nbsp + rest), 0)
    ensures (Nbsp + (Nbsp + rest))[12..] == rest
  {
    NbspPrefix(rest);
    NbspPrefix(Nbsp + rest);
    assert (Nbsp + (Nbsp + rest))[12..] == (Nbsp + rest)[6..];
  }

  /** A run of `k >= 2` entities followed by anything but another entity
      matches as a whole and becomes exactly one entity. */
  lemma CollapseRun(k: nat, t: string)
    requires k >= 2
    requires !NbspAt(t, 0)
    ensures CollapseNbsp(Repeat(k) + t) == Nbsp + CollapseNbsp(t)
  {
    var rest := Repeat(k - 2) + t;
    RepeatCons(k, t);
    RepeatCons(k - 1, t);
    DropRunOfRepeat(k - 2, t);
    CollapseAtRun(Repeat(k) + t, rest, t);
  }

  /** Two entities, then a remainder whose leading run ends before `t`. */
  lemma CollapseAtRun(s: string, rest: string, t: string)
    requires s == Nbsp + (Nbsp + rest)
    requires DropRun(rest) == t
    ensures CollapseNbsp(s) == Nbsp + CollapseNbsp(t)
  {
    DoubleStart(rest);
    CollapseAtDouble(s);
  }

  /** Where a match starts, one entity is written and the run is skipped. */
  lemma CollapseAtDouble(s: string)
    requires DoubleNbspAt(s, 0)
    ensures CollapseNbsp(s) == Nbsp + CollapseNbsp(DropRun(s[12..]))
  {
  }

  /** A lone entity (not followed by another) is not matched and is kept. */
  lemma CollapseLoneEntity(t: string)
    requires !NbspAt(t, 0)
    ensures CollapseNbsp(Nbsp + t) == Nbsp + CollapseNbsp(t)
  {
    var s := Nbsp + t;
    NbspPrefix(t);
    assert !DoubleNbspAt(s, 0);
    CollapseNoMatch(s);
    assert s[1..] == "nbsp;" + t;
    CollapseCopies("nbsp;", t);
  }

  /** A payload with visible content keeps visible content. */
  lemma {:induction false} CollapseKeepsContent(s: string)
    requires !IsNullOrWhiteSpace(s)
    ensures !IsNullOrWhiteSpace(CollapseNbsp(s))
    decreases |s|
  {
    CollapseFirst(s);
    if IsWhiteSpace(s[0]) {
      assert s[0] != '&';
      CollapseCopiesOne(s);
      CollapseKeepsContent(s[1..]);
      assert CollapseNbsp(s)[1..] == CollapseNbsp(s[1..]);
    }
  }

  /** The worked example: three entities before a word collapse to one. */
  lemma CollapseExampleRun(word: string)
    requires forall i :: 0 <= i < |word| ==> word[i] != '&'
    ensures CollapseNbsp(Repeat(3) + word) == Nbsp + word
  {
    CollapseCopies(word, "");
    assert word + "" == word;
    CollapseRun(3, word);
  }

  /** A single entity between words is untouched. */
  lemma CollapseExampleSingle()
    ensures CollapseNbsp("a&nbsp;b") == "a&nbsp;b"
  {
    var b := "b";
    assert CollapseNbsp(b) == b;
    CollapseLoneEntity(b);
    assert "a&nbsp;b" == "a" + (Nbsp + b);
    CollapseCopies("a", Nbsp + b);
  }
}
