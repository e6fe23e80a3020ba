# Word HTML clean-up pipeline, modelled in Dafny

The `clean-word-html` endpoint of the WordToHtml service takes HTML exported
from Microsoft Word and parses it with HtmlAgilityPack. It then runs twelve
clean-up passes over the tree in a fixed order and serialises the result. The
passes are `CleanWordHtml` and the private static methods after it. This
project models those passes and their order as pure functions over an
immutable tree, and proves what each pass guarantees.

- **Tree** (`Dom`):
  - A node is an `Element(name, attrs, children)`, a `Text(text)` or a `Comment(text)`.
  - Text and comment nodes report the names `#text` and `#comment`.
  - The `#document` root is `Document(children)`. It has no attributes and is never removed, so every pass is a function on the root's child list.
  - A position in the tree is a path of child indices.
  - Document order, which the `//html` and `//head` look-ups use, is pre-order on paths (`PathLt`).
- **In-place passes** (`InPlace`, `RewritePasses`). These are passes 1, 2 and 9 to 12.
  - They are instances of one generic edit, `Relabel`, which rewrites each node's attributes or text and keeps the tree's shape.
- **Removal passes** (`Removal`). These are passes 3, 4 and 7.
  - They are instances of `RemoveWhere`, which removes every selected node together with its whole subtree.
  - Lemmas about `RemoveWhere` describe the result: what survives (`Spared`), where it lands (`Translate`), and that order is kept.
- **First-match passes** (`FirstMatch`). These are passes 5 and 6.
  - They find the first `html` or `head` element in document order (`FindFirst`) and rewrite that one node (`ReplaceAt`).
- **Pruning** (`Pruning`). This is pass 8, `RemoveEmptyNodes` with `IsNodeEmpty`.
  - It is a post-order sweep: each child is cleaned first, then removed if it has become empty.
  - It is proved equal to an independent definition: remove every subtree that holds no visible text.
- **Text rules** (`TextContent`):
  - `string.IsNullOrWhiteSpace` over `Char.IsWhiteSpace`.
  - The rewrite `Regex.Replace(text, "(&nbsp;){2,}", "&nbsp;")`, written as a left-to-right scan.
- **Pipeline** (`Pipeline`):
  - `Sanitize` composes the passes in source order.
  - Its contract states the guarantees that hold for every node of the output. `Pipeline.SanitizeKeepsClean` is its partner: a document that meets them, and whose first `html` holds only `lang` and first `head` only `meta` children, passes through unchanged.
- **Scenarios** (`Scenarios`): lemmas that evaluate the pipeline on concrete documents, proved rather than executed.

## Model

| member | source | states |
|---|---|---|
| RewritePasses.RemoveInlineStyles | WordToHtml/Controllers/WordToHtml.cs:114-120 | No node keeps a `style` attribute. Each node's attributes are exactly its old ones minus `style`. The tree shape (names, texts, children) and the set of valid positions are unchanged. |
| RewritePasses.RemoveInlineStylesNoOp | WordToHtml/Controllers/WordToHtml.cs:114-120 | On a tree with no `style` attribute the pass changes nothing. |
| RewritePasses.RemoveMsoClasses | WordToHtml/Controllers/WordToHtml.cs:122-131 | An attribute survives exactly when it is not a `class` whose value contains "Mso" (case-sensitive), in both directions. Survivors keep their order. No Mso class remains. The shape and positions are unchanged. |
| RewritePasses.RemoveMsoClassesNoOp | WordToHtml/Controllers/WordToHtml.cs:122-131 | On a tree without an Mso class the pass changes nothing. |
| Removal.RemoveStyleTags | WordToHtml/Controllers/WordToHtml.cs:133-139 | No `style` element is left anywhere in the result. |
| Removal.RemoveWordTags | WordToHtml/Controllers/WordToHtml.cs:141-147 | No node whose name starts with `o:` or `v:`, or equals `xml` or `w:worddocument`, is left anywhere. |
| Removal.RemoveComments | WordToHtml/Controllers/WordToHtml.cs:174-184 | No comment node is left anywhere. |
| Removal.RemoveWhereKeepsSpared | WordToHtml/Controllers/WordToHtml.cs:133-147 | Every node with no selected ancestor-or-self is still in the result. It sits at its translated position with the same name, attributes and text. |
| Removal.RemoveWhereAddsNothing | WordToHtml/Controllers/WordToHtml.cs:133-147 | Every node of the result is such a spared node of the input. A selected node goes with its whole subtree; it is not unwrapped. |
| Removal.RemoveWhereKeepsOrder | WordToHtml/Controllers/WordToHtml.cs:174-184 | Spared nodes keep their relative document order. |
| Removal.RemoveWhereEmpty | WordToHtml/Controllers/WordToHtml.cs:133-139 | The result is empty exactly when every top-level node is selected. |
| Removal.RemoveWhereNoOp | WordToHtml/Controllers/WordToHtml.cs:174-184 | With nothing to select, the tree is returned unchanged. |
| Removal.RemoveWherePreserves | WordToHtml/Controllers/WordToHtml.cs:133-147 | A per-node property that holds everywhere before the removal holds everywhere after it. |
| Removal.RemoveWhereCons | WordToHtml/Controllers/WordToHtml.cs:176-183 | Removal read left to right: the first sibling goes or is kept (with a cleaned subtree), and then the rest is processed independently. |
| Dom.RemoveAttr | WordToHtml/Controllers/WordToHtml.cs:227-248 | An attribute is kept exactly when its name differs from the removed one, in both directions; the kept ones stay in order; with no attribute of that name the list is unchanged, so a missing attribute is a no-op. |
| Dom.PathLtStrict | WordToHtml/Controllers/WordToHtml.cs:151 | Document order on positions is irreflexive and transitive, so "the first match" is well defined. |
| Dom.PathLtTotal | WordToHtml/Controllers/WordToHtml.cs:151 | Any two distinct positions are ordered one way or the other, so two matches can always be compared. |
| FirstMatch.FindFirst | WordToHtml/Controllers/WordToHtml.cs:151 | A found position is valid and holds an element of the requested name. |
| FirstMatch.FindFirstIsFirst | WordToHtml/Controllers/WordToHtml.cs:151 | If nothing is found, no position holds that name. If something is found, no position before it in document order holds that name. |
| FirstMatch.ReplaceAtFrame | WordToHtml/Controllers/WordToHtml.cs:149-172 | Replacing the node at one position puts the new node there. Every position outside its subtree stays valid (and only those) and keeps its node data. |
| FirstMatch.CleanHtmlTagAttributes | WordToHtml/Controllers/WordToHtml.cs:149-160 | Without an `html` element nothing changes. Otherwise the first `html` element keeps exactly its `lang` attributes, in order, and keeps its children. Every other position and its node data are unchanged. |
| FirstMatch.CleanHtmlTagAttributesNoOp | WordToHtml/Controllers/WordToHtml.cs:149-160 | When the first `html` element holds only `lang` attributes, the pass changes nothing. |
| FirstMatch.RemoveFromHeadSection | WordToHtml/Controllers/WordToHtml.cs:162-172 | Without a `head` nothing changes. Otherwise the first `head` keeps its own data, and its children are exactly its `meta` children in their order, with their subtrees as they were. Text and comment children go. Everything outside the head is unchanged. |
| FirstMatch.RemoveFromHeadSectionNoOp | WordToHtml/Controllers/WordToHtml.cs:162-172 | When the first `head` element holds only `meta` children, the pass changes nothing. |
| Pruning.IsNodeEmpty | WordToHtml/Controllers/WordToHtml.cs:212-220 | Definition: a text node is empty when its payload is null-or-whitespace; an element is empty when it has no children and its inner text is null-or-whitespace. |
| Pruning.RemoveEmptyNodes | WordToHtml/Controllers/WordToHtml.cs:195-210 | Every text node left has a non-whitespace character. Every element left has at least one child. The list only shrinks. |
| Pruning.ChildlessElementIsEmpty | WordToHtml/Controllers/WordToHtml.cs:212-219 | Every childless element counts as empty, whatever its tag (so `meta`, `br` and `img` are pruned). |
| Pruning.RemoveEmptyNodesRemovesTextless | WordToHtml/Controllers/WordToHtml.cs:195-220 | The post-order sweep equals removing every subtree with no visible (non-whitespace) text, and nothing else. |
| Pruning.RemoveEmptyNodesKeepsContent | WordToHtml/Controllers/WordToHtml.cs:195-220 | A tree in which every node has content is left unchanged. |
| Pruning.RemoveEmptyNodesIdempotent | WordToHtml/Controllers/WordToHtml.cs:195-220 | Sweeping twice equals sweeping once. |
| TextContent.CollapseNbsp | WordToHtml/Controllers/WordToHtml.cs:190 | Definition: scanning left to right, where two entities start, one entity is written and the whole run of entities is skipped (the greedy `{2,}`); any other character is copied. |
| TextContent.CollapseLeavesNoDouble | WordToHtml/Controllers/WordToHtml.cs:190 | After the rewrite, no two `&nbsp;` entities stand back to back anywhere in the text. |
| TextContent.CollapseKeepsCleanText | WordToHtml/Controllers/WordToHtml.cs:190 | A text without a double entity is returned as it is. |
| TextContent.CollapseIdempotent | WordToHtml/Controllers/WordToHtml.cs:190 | Rewriting twice equals rewriting once. |
| TextContent.CollapseRun | WordToHtml/Controllers/WordToHtml.cs:190 | A maximal run of k >= 2 entities becomes exactly one entity, and the rest follows. |
| TextContent.CollapseLoneEntity | WordToHtml/Controllers/WordToHtml.cs:190 | A single entity that is not followed by another is kept. |
| TextContent.CollapseCopies | WordToHtml/Controllers/WordToHtml.cs:190 | A stretch without `&` is copied unchanged. |
| TextContent.CollapseKeepsContent | WordToHtml/Controllers/WordToHtml.cs:190 | A text with a non-whitespace character keeps one. |
| TextContent.CollapseExampleRun | WordToHtml/Controllers/WordToHtml.cs:190 | Three entities before an `&`-free word become one entity before that word. |
| TextContent.CollapseExampleSingle | WordToHtml/Controllers/WordToHtml.cs:190 | `a&nbsp;b` is left as it is. |
| RewritePasses.NormalizeNbsp | WordToHtml/Controllers/WordToHtml.cs:186-193 | Each text node's payload is replaced by its rewrite. Every other node and every position are unchanged. No text node holds a double entity afterwards. |
| RewritePasses.NormalizeNbspNoOp | WordToHtml/Controllers/WordToHtml.cs:186-193 | A tree without double entities is left unchanged. |
| RewritePasses.NormalizeNbspIdempotent | WordToHtml/Controllers/WordToHtml.cs:186-193 | Running the pass twice equals running it once. |
| RewritePasses.RemoveLinkAttributes | WordToHtml/Controllers/WordToHtml.cs:222-230 | An attribute survives exactly when its name is neither `link` nor `vlink`, and survivors keep their order. No node keeps either attribute. The shape and positions are unchanged. |
| RewritePasses.RemoveLinkAttributesNoOp | WordToHtml/Controllers/WordToHtml.cs:222-230 | Absent attributes are a no-op: a tree without them is unchanged. |
| RewritePasses.StripTableLayoutSpec | WordToHtml/Controllers/WordToHtml.cs:237-249 | On a `table`, exactly `width`, `border`, `cellspacing` and `cellpadding` go. On a `td`, exactly `width` goes. Other attributes stay, in order. |
| RewritePasses.RemoveTableAttributes | WordToHtml/Controllers/WordToHtml.cs:232-251 | No `table` keeps a layout attribute and no `td` keeps `width`. All other attributes are kept in order. Nodes other than `table` and `td` are untouched. The shape and positions are unchanged. |
| RewritePasses.RemoveTableAttributesNoOp | WordToHtml/Controllers/WordToHtml.cs:232-251 | Absent attributes are a no-op: a tree without them is unchanged. |
| RewritePasses.QuoteName | WordToHtml/Controllers/WordToHtml.cs:260 | The name of every quoting style is non-empty, so the re-quoting branch never fires. |
| RewritePasses.EnsureQuotedAttributes | WordToHtml/Controllers/WordToHtml.cs:253-266 | The pass returns the tree unchanged: names, values, quoting and structure are all kept. |
| InPlace.RelabelKeepsShape | WordToHtml/Controllers/WordToHtml.cs:114-131 | An attribute-only edit keeps every name, text and child list. |
| InPlace.RelabelNoOp | WordToHtml/Controllers/WordToHtml.cs:222-251 | If the edit leaves every node of the tree as it is, the whole pass returns the tree unchanged. |
| Pipeline.Sanitize | WordToHtml/Controllers/WordToHtml.cs:69-109 | After all twelve passes, every node below the root is free of inline styles, Mso classes, `style` elements, Office tags, comments, double entities, `link`/`vlink` and table layout attributes. Every text node has visible text and every element has a child. |
| Pipeline.SanitizeKeepsClean | WordToHtml/Controllers/WordToHtml.cs:69-109 | A document that already meets every output guarantee, whose first `html` holds only `lang` and whose first `head` holds only `meta` children, comes out unchanged. |
| Pipeline.PassesBeforePruning | WordToHtml/Controllers/WordToHtml.cs:91-95 | The passes before pruning leave a comment-free tree, which is what the sweep's emptiness test needs. |
| Pipeline.MiddleThreeClean | WordToHtml/Controllers/WordToHtml.cs:85-92 | Passes 5 to 7 do not bring back anything that passes 1 to 4 removed. |
| Pipeline.LastFourClean | WordToHtml/Controllers/WordToHtml.cs:97-107 | Passes 9 to 12 keep what pruning established and add their own guarantees. |
| Scenarios.HeadDisappears | WordToHtml/Controllers/WordToHtml.cs:88-95 | On `html[head[meta, title], body[p]]`, pass 6 reduces the head to its `meta`. Pass 8 then prunes the childless `meta` and the emptied `head`, so the output is `html[body[p]]`. |
| Scenarios.SanitizeNotIdempotent | WordToHtml/Controllers/WordToHtml.cs:85-95 | With a childless first `html` element, one run prunes it, and a second run strips the attributes of the `html` that is now first. Running the pipeline twice differs from running it once. |

## Left out

- CleanWord (lines 21-45) is not part of this model. It is a single call into the Mammoth DOCX converter with a fixed style map.
- HTTP and upload plumbing is left out: routing, `IFormFile`, the empty-upload `BadRequest` (lines 57-60), the stream read (lines 62-67) and the `Content` results.
- HtmlAgilityPack is a foreign library:
  - Its parsing (`LoadHtml`) and serialisation (`OuterHtml`) are left out.
  - Its XPath engine is replaced by pre-order search.
  - It lower-cases tag and attribute names. The model assumes names arrive normalised, so `OrdinalIgnoreCase` on `table`/`td` is plain equality.
- Dom.RemoveAttr: drops every attribute of the given name. Passes 1 and 2 remove a single one through `Attributes["style"].Remove()` and `Attributes["class"].Remove()` (lines 118 and 128). The two agree when attribute names are unique, which the model assumes.
- Pipeline.Sanitize: a document that already meets every output guarantee can still change. On `html[head[title["T"]], body[p["Hi"]]]`, pass 6 drops the `title` with its text and pass 8 then prunes the emptied `head`, giving `html[body[p["Hi"]]]`. `Pipeline.SanitizeKeepsClean` therefore also requires the first `html` to hold only `lang` and the first `head` to hold only `meta` children.
- Pruning.RemoveEmptyNodes: requires a comment-free tree. `IsNodeEmpty`'s treatment of comments is not modelled. The pipeline always meets this requirement because `RemoveComments` runs first (`Pipeline.PassesBeforePruning`).
- Pruning.IsNodeEmpty: tests the raw text payload, while `InnerText` decodes entities. A text that is only `&nbsp;` is therefore kept, although the decoded U+00A0 is whitespace.
- TextContent.IsWhiteSpace: lists the Unicode space, line and paragraph separators and the control characters that `Char.IsWhiteSpace` accepts. The table is written out, not derived from Unicode data.
- The .NET regex engine is not modelled. Only the one rewrite `(&nbsp;){2,}` to `&nbsp;` is written out, as `TextContent.CollapseNbsp`.
- Removal.RemoveWordTags: the source's `StartsWith("o:")` and `StartsWith("v:")` are culture-sensitive in .NET, and the model uses an ordinal prefix test. The two differ only on names holding characters that culture-sensitive comparison ignores (for example a soft hyphen U+00AD, so `o\u00AD:p` is removed by the source and kept by the model); on every other name they agree.
- Mutation while iterating: the source collects matches first and then removes them. The model removes them in one functional step. Removing a node whose ancestor was already removed has no further effect, so the result is the same.
- Three behaviours of the code deserve note, and the model follows the code:
  - Running the pipeline twice can differ from running it once (`Scenarios.SanitizeNotIdempotent`).
  - A `head` that pass 6 cuts down to its `meta` children is then removed by pass 8, because every childless element counts as empty (`Scenarios.HeadDisappears`).
  - Pass 12 never changes an attribute's quoting, so an unquoted attribute stays unquoted (`RewritePasses.EnsureQuotedAttributes`).
