# BlakePlugin.DocsRenderer: section builders and site table of contents

This project models the core of the BlakePlugin.DocsRenderer plugin for the Blake static site generator, and proves properties of that model. The core has three parts:

- **DocumentSectionRenderer / FinalizingDocumentRenderer.** While Markdig renders a Markdown document, every heading of level `L` does three things:
  1. it closes the open sections of level `L` or deeper, writing one `</Section>` each;
  2. it attaches a new `Section` to the innermost section still open, or to the root list;
  3. it writes `<Section id="…">` and then the heading element.

  At the end of the document, every section still open is closed and the section tree is appended as a `<!-- blake:sections:… -->` marker.
- **HtmlParser.AddDocumentSections.** The same stack discipline runs over the top-level nodes of an HTML fragment. Each node's HTML is copied through, a heading loses its `id` attribute to the `<Section>` it opens, and the result is wrapped in `<div>…</div>` and followed by the marker.
- **TocUtils.BuildSiteTocNodes.** This builds the site table of contents, a trie over the `/`-separated segments of the page slugs:
  - pages are taken in slug order;
  - each page walks down from a synthetic root, reusing or creating one child per segment;
  - the children of the node the walk ends at are sorted by `pageOrder` (read by `GetSortOrder`);
  - the root's children are sorted once more and returned.

Modules, one per file:

- `Wrappers` holds `Option`.
- `Strings` models `int.TryParse`, `Trim`, `Split`/`Join`, ASCII lower-casing and ordinal string order.
- `Sequences` holds the first-match search shared by `FirstOrDefault` over a node's children and the lookup of a named attribute.
- `Sorting` is a sort by a caller-supplied total preorder.
- `MarkupNesting` describes how a reader matches `<Section>` and `</Section>` tags.
- `SectionTree` is the heading-stack builder shared by both renderers. Sections live in an arena of entries, each with a parent index, and `Reference` gives the stack-free meaning of the builder.
- `DocumentSectionsRenderer` models the Markdig renderer.
- `HtmlParser` models the HTML rewriter.
- `TocUtils` models the table of contents.
- `TocExamples` holds worked examples of the table of contents.

Each builder is tied to its partner, and each partner is a reference definition with no stack:

- **Sections.** The sections a builder produces equal `Reference` of the headings, where each heading is attached to its nearest shallower predecessor.
- **Markup.** Reading the section tags a builder writes left to right reproduces the same parent relation.
- **Table of contents.** The result is related through `Lookup` along each page's slug segments and the `WellFormed` trie invariant.

Both renderers' output is a sequence of tokens or pieces. `Text`/`PieceText` give the exact characters of each one.

## Model

| member | source | states |
|---|---|---|
| SectionTree.NearestShallower | src/MarkdownExtensions/DocumentSectionsRenderer.cs:23-36 | The parent a heading of level L must get is the latest earlier section whose level is smaller, with no section between them shallower than L. It is the root list exactly when every earlier section is at L or deeper. |
| SectionTree.Pop | src/MarkdownExtensions/DocumentSectionsRenderer.cs:23-27 | The pop loop keeps a prefix of the stack whose top is shallower than the new heading. Every section it removes is at the heading's level or deeper. |
| SectionTree.KeptAreShallower | src/MarkdownExtensions/DocumentSectionsRenderer.cs:23-27 | Every section the pops leave on the stack is shallower than the new heading. |
| SectionTree.PopKeepsNothing | src/MarkdownExtensions/DocumentSectionsRenderer.cs:23-35 | When no earlier section is shallower than the heading, the pops empty the stack, so the section goes to the root list. |
| SectionTree.PopFindsParent | src/MarkdownExtensions/DocumentSectionsRenderer.cs:23-32 | The section left on top of the stack after the pops is the heading's nearest shallower predecessor. |
| SectionTree.Push | src/MarkdownExtensions/DocumentSectionsRenderer.cs:21-38 | One heading adds exactly one section. Its parent is its nearest shallower predecessor, or the root list when there is none. Earlier sections are unchanged, the stack becomes the kept prefix plus the new section, and the builder invariant is kept. |
| SectionTree.StackLevelsIncrease | src/MarkdownExtensions/DocumentSectionsRenderer.cs:23-27 | The levels of the open sections strictly increase from the bottom of the stack to the top. |
| SectionTree.ParentIsShallower | src/MarkdownExtensions/DocumentSectionsRenderer.cs:29-32 | Every section is created after its parent and has a strictly greater level than the parent. |
| SectionTree.ReferenceNearest | src/MarkdownExtensions/DocumentSectionsRenderer.cs:21-36 | The stack-free definition records every heading's id, text and level, and attaches each one to its nearest shallower predecessor. |
| SectionTree.ForestPreorder | src/MarkdownExtensions/DocumentSectionsRenderer.cs:29-36 | For any arena whose parents are nearest-shallower, the section tree rebuilt from the `Children.Add`/`_sections.Add` references lists, in preorder, every entry's id and text exactly once in creation order. Each section is followed by its whole subtree before its next sibling. |
| SectionTree.TreePreorder | src/MarkdownExtensions/DocumentSectionsRenderer.cs:23-38 | A section's subtree is exactly the entries from it up to the heading that pops it (the first later entry at its level or shallower). |
| SectionTree.ReferenceForest | src/MarkdownExtensions/DocumentSectionsRenderer.cs:52-53 | The tree the marker serializes lists every heading's id and text exactly once, in document order. |
| SectionTree.ReferenceUnique | src/MarkdownExtensions/DocumentSectionsRenderer.cs:21-36 | Any arena that records the headings and attaches each to its nearest shallower predecessor is the reference. |
| DocumentSectionsRenderer.HeadingId | src/MarkdownExtensions/DocumentSectionsRenderer.cs:18 | The id has the heading text's length. Each character is lower-cased, and each space becomes a hyphen. |
| DocumentSectionsRenderer.HeadingIdIdempotent | src/MarkdownExtensions/DocumentSectionsRenderer.cs:18 | An id is its own id: deriving an id twice gives the same result as deriving it once. |
| DocumentSectionsRenderer.HeadingIdCollisions | src/MarkdownExtensions/DocumentSectionsRenderer.cs:18 | Texts that differ only in ASCII case, or in space versus hyphen, get equal ids. Nothing makes ids unique. |
| DocumentSectionsRenderer.HeadingIdExample | src/MarkdownExtensions/DocumentSectionsRenderer.cs:18 | "Read Me" and "read-me" both get the id `read-me`. |
| DocumentSectionsRenderer.TokenText | src/MarkdownExtensions/DocumentSectionsRenderer.cs:26-53 | `WriteLine` ends the section tags and the marker with a newline (lines 26, 40, 48 and 53); `Write` leaves the heading element without one (line 41). The open tag starts `<Section `, the close is `</Section>`, and the marker is an HTML comment. |
| DocumentSectionsRenderer.Write | src/MarkdownExtensions/DocumentSectionsRenderer.cs:15-42 | A heading with any text, the empty text included, adds one section under its nearest shallower predecessor. The output gains one `</Section>` per popped section, then `<Section>` and `h{level}` with the same id, and earlier output is kept. The output's nesting stays the builder's. |
| DocumentSectionsRenderer.WriteOther | src/MarkdownExtensions/FinalizeDocumentRenderer.cs:18-21 | A non-heading block is written unchanged and leaves the sections as they were. |
| DocumentSectionsRenderer.CloseRemaining | src/MarkdownExtensions/DocumentSectionsRenderer.cs:44-54 | One `</Section>` is written per open section, then one marker carrying the root list. The stack is left empty, no section changes, and no tag remains open. |
| DocumentSectionsRenderer.RenderBlocks | src/MarkdownExtensions/FinalizeDocumentRenderer.cs:18-21 | After the blocks of a document, the sections are exactly the reference sections of its headings. |
| DocumentSectionsRenderer.RenderDocument | src/MarkdownExtensions/FinalizeDocumentRenderer.cs:16-24 | In a whole document's output, the renderer's own section tags are balanced, with as many `<Section>` tags as `</Section>` tags as headings, and they nest as the reference tree. The output ends with the only marker, which carries that tree. |
| DocumentSectionsRenderer.NestingExample | src/MarkdownExtensions/DocumentSectionsRenderer.cs:23-38 | Levels 1, 2, 2, 1, 3 on texts A to E give A[B, C], D[E]. The level skip from D to E still nests E under D. |
| HtmlParser.HeadingLevel | src/Utils/HtmlParser.cs:24-26 | A node opens a section exactly when its name is `h1` to `h6`. The level is that digit. |
| HtmlParser.GetAttributeValue | src/Utils/HtmlParser.cs:27 | With no attribute of the name, the default is read. Otherwise the value of the first attribute with the name is read. |
| Sequences.FirstIndex | src/Utils/TocUtils.cs:45 | Gives the position of the first element that matches, or the end when none does. Every element before it fails to match. |
| HtmlParser.NodeHeading | src/Utils/HtmlParser.cs:24-35 | A node opens a section exactly when its name is `h1` to `h6`. The section has that level, the node's `id` attribute (empty when absent) and the node's inner text. |
| HtmlParser.RemoveAttribute | src/Utils/HtmlParser.cs:28 | No attribute with the name is left. |
| HtmlParser.RemovedReadsAbsent | src/Utils/HtmlParser.cs:27-28 | After the removal, reading the attribute gives the default. |
| HtmlParser.RemoveKeepsOthers | src/Utils/HtmlParser.cs:28 | After the removal, every other attribute reads as before. |
| HtmlParser.RemoveReads | src/Utils/HtmlParser.cs:27-28 | After the removal, the removed name reads as the default whatever the default, and every other name reads as before. |
| HtmlParser.Emitted | src/Utils/HtmlParser.cs:28-61 | The node written keeps its name and inner text. A heading's `id` then reads as empty and its other attributes read as before; any other node is written unchanged. |
| HtmlParser.PieceText | src/Utils/HtmlParser.cs:20-75 | Read case-insensitively, every close is `</section>` (lines 41 and 67), and it is `</Section>` exactly for the final closes. The open tag starts `<Section` and ends `>` (line 57). Node HTML is copied as it is (line 61). The container tags are `<div>` and `</div>` (lines 20 and 71), and the marker is an HTML comment (line 75). |
| HtmlParser.OpenTagId | src/Utils/HtmlParser.cs:57 | The `<Section>` open tag carries an `id="…"` attribute exactly when the id is non-empty. |
| HtmlParser.AddNode | src/Utils/HtmlParser.cs:22-62 | A non-heading node appends its HTML and leaves the sections as they were. A heading node adds one section under its nearest shallower predecessor and writes one close per popped section, its `<Section id>` and then its HTML without the id. The builder invariant and the markup nesting are kept. |
| HtmlParser.Scan | src/Utils/HtmlParser.cs:20-62 | The loop over the nodes keeps its invariant. The output starts with `<div>` followed only by section tags and node HTML, and its tags, read case-insensitively, nest exactly as the open sections and their parents. |
| HtmlParser.ScanSections | src/Utils/HtmlParser.cs:22-58 | The sections built over the nodes are the reference sections of the heading nodes. |
| HtmlParser.ScanCopies | src/Utils/HtmlParser.cs:22-61 | The HTML of every node is copied exactly once and in order, with headings stripped of their `id`. |
| HtmlParser.AddSections | src/Utils/HtmlParser.cs:9-78 | The output starts with `<div>` and ends with `</div>` and then the only marker, which carries the reference tree. It copies every node's HTML in order. Read case-insensitively, its own section tags are balanced, with one open and one close per heading, nested as the reference tree. |
| HtmlParser.AddDocumentSections | src/Utils/HtmlParser.cs:9-78 | As written: its own section tags are balanced, with one close per heading, for a reader that folds tag-name case, and nested as the reference tree. |
| HtmlParser.FixedAddDocumentSections | src/Utils/HtmlParser.cs:41 | With every close spelled `</Section>`, its own section tags are balanced and nested as the reference tree for a case-sensitive reader too. |
| HtmlParser.AsWrittenCaseSensitive | src/Utils/HtmlParser.cs:38-69 | As written, a case-sensitive reader finds the output balanced only if no heading closed a section before the end. |
| HtmlParser.AsWrittenUnbalancedForCaseSensitiveReader | src/Utils/HtmlParser.cs:41 | Two `h1` nodes give output that a case-sensitive reader finds unbalanced. |
| TocUtils.GetSortOrder | src/Utils/TocUtils.cs:74-82 | The order is a 32-bit value. It is 0 when `pageOrder` is missing or does not parse. |
| TocUtils.SortOrderOfWritten | src/Utils/TocUtils.cs:76 | Any 32-bit number written as `pageOrder` is read back as the order. |
| TocUtils.SortOrderPadded | src/Utils/TocUtils.cs:76 | Surrounding white space and a leading `+` are accepted: " +7 " gives 7. |
| TocUtils.SortOrderNotANumber | src/Utils/TocUtils.cs:76-81 | A value starting with anything other than white space, a sign or a digit gives 0, whatever follows. |
| Strings.ParseInt | src/Utils/TocUtils.cs:76 | A parsed value is a 32-bit integer. A string with no digit does not parse. |
| Strings.Trim | src/Utils/TocUtils.cs:32 | The result is no longer than the input and neither starts nor ends with a dropped character. An input of dropped characters only gives the empty string. |
| Strings.TrimInfix | src/Utils/TocUtils.cs:32 | The result is the contiguous middle of the input: every character before it and every character after it is dropped. |
| Strings.Split | src/Utils/TocUtils.cs:32 | Gives at least one part and no part holds the separator. Joining the parts with the separator gives the input back. |
| TocUtils.SortOrderOutOfRange | src/Utils/TocUtils.cs:76-81 | A number above the 32-bit range gives 0. |
| TocUtils.SortPagesBySlug | src/Utils/TocUtils.cs:28 | Gives the same pages, with slugs in ascending order. |
| TocUtils.StringLeIsPreorder | src/Utils/TocUtils.cs:28 | Ordinal string order is a total preorder, so it is one valid slug order. |
| TocUtils.SortByOrder | src/Utils/TocUtils.cs:66 | Gives the same nodes, in ascending sort order. |
| TocUtils.SlugSegments | src/Utils/TocUtils.cs:32 | Gives at least one segment, none holding `/`. The segments joined with `/` give the slug without its surrounding slashes. |
| TocUtils.SlugRoundTrip | src/Utils/TocUtils.cs:32-43 | A node's slug splits back into its path when the path's first and last segments are non-empty. |
| TocUtils.HomeSlugSegments | src/Utils/TocUtils.cs:32 | The slug "/" gives one empty segment. |
| TocUtils.EmptySegmentKept | src/Utils/TocUtils.cs:32-41 | An empty interior segment is kept, not skipped: "/a//b" gives a, "", b. |
| TocUtils.FindChild | src/Utils/TocUtils.cs:45 | Gives the first child with the id, or the end when no child has it. |
| TocUtils.AddPath | src/Utils/TocUtils.cs:38-66 | The child for the first segment is reused when present and appended when missing. Every existing sibling keeps its label, and every sibling except the reused child is unchanged. |
| TocUtils.AddPage | src/Utils/TocUtils.cs:32-66 | The root keeps its id, text and slug. Only its sort order is overwritten by the page's. |
| TocUtils.AddPages | src/Utils/TocUtils.cs:28-67 | The root keeps its id, text and slug. |
| TocUtils.AddPagesRootOrder | src/Utils/TocUtils.cs:28-36 | Every page overwrites the root's sort order, so the root ends with the last page's sort order. |
| TocUtils.AddPathWellFormed | src/Utils/TocUtils.cs:38-66 | Adding a page keeps sibling ids distinct and keeps every node's slug equal to "/" plus its path. |
| TocUtils.AddPathKeeps | src/Utils/TocUtils.cs:45-63 | Every node already in the trie is still found, with the same id, text, slug and order. |
| TocUtils.AddPathCreates | src/Utils/TocUtils.cs:43-61 | Each node the page's path lacked is created with the slug of its own path. The last gets the page's title and order, and the others get their segment and 0. |
| TocUtils.AddPathReaches | src/Utils/TocUtils.cs:38-66 | The page's node is in the trie afterwards, and its children are sorted by sort order. |
| TocUtils.AddPathOnly | src/Utils/TocUtils.cs:38-66 | After a page is added, every node in the trie was there before or lies on that page's path. |
| TocUtils.AddPathBeside | src/Utils/TocUtils.cs:45-63 | Every lookup that leaves the page's path at the first segment finds what it found before. |
| TocUtils.PermutationWellFormed | src/Utils/TocUtils.cs:66-69 | Reordering a well-formed list of children keeps it well-formed. |
| TocUtils.LookupPermutation | src/Utils/TocUtils.cs:66-69 | Reordering children with distinct ids changes no lookup below them. |
| TocUtils.AddPagesWellFormed | src/Utils/TocUtils.cs:28-67 | Adding any pages keeps the trie well-formed. |
| TocUtils.AddPagesKeeps | src/Utils/TocUtils.cs:28-67 | A later page changes no node an earlier page put in place. |
| TocUtils.AddPagesReach | src/Utils/TocUtils.cs:28-67 | Every added page has a node at the end of its slug's path. |
| TocUtils.AddPagesOnly | src/Utils/TocUtils.cs:28-67 | After the pages are added, every node was there before or lies on the path of one of the pages. |
| TocUtils.AddPageCreates | src/Utils/TocUtils.cs:47-58 | A page whose path was missing gets a node there with its title and sort order. |
| TocUtils.AddPathCreatesLeaf | src/Utils/TocUtils.cs:47-58 | The node a walk creates at the end of its path carries the page's title and order. |
| TocUtils.AddPageAvoids | src/Utils/TocUtils.cs:38-63 | A page whose path neither equals nor extends a missing path leaves that path missing. |
| TocUtils.AddPagesLabel | src/Utils/TocUtils.cs:28-67 | A page added before every other page whose path equals or extends its own creates its node, so the node carries the page's title and sort order. Later pages below it, such as "/guide/install" after "/guide", leave that label alone. |
| TocUtils.SortedFirstOwner | src/Utils/TocUtils.cs:28 | In slug order, a page that sorts strictly before every other page on or below its path is added before all of them. |
| TocUtils.AddPagesIntermediate | src/Utils/TocUtils.cs:47-58 | A node at a path that is no page's own path is created as an intermediate node and keeps that label: its segment as text and order 0. |
| TocUtils.TocIntermediates | src/Utils/TocUtils.cs:28-71 | In the returned list, every node at a path that is no page's own path has its segment as text and order 0. |
| TocUtils.TocOnlyPagePaths | src/Utils/TocUtils.cs:28-71 | Every node of the returned list lies on the path of one of the pages. |
| TocUtils.TocLabels | src/Utils/TocUtils.cs:28-71 | Every page that sorts by slug strictly before every other page on or below its path is found at its path with its own title and sort order. An index page with child pages is one such page. |
| TocUtils.BuildSiteTocNodes | src/Utils/TocUtils.cs:15-72 | The result is sorted by sort order and well-formed. Every page is found at its slug's path. A page that sorts by slug strictly before every other page on or below its path, an index page included, is found with its own title and sort order. A node at a path that is no page's own has its segment as text and order 0. Conversely, every node in the result lies on the path of some page. The result is the root's children, so the root itself is not returned. |
| TocExamples.IndexPageExample | src/Utils/TocUtils.cs:28-58 | Pages "/guide/install" and "/guide" (order 3), in that order: "/guide" is added first, and its node has the text "Guide" and order 3. |
| TocExamples.IntermediateExample | src/Utils/TocUtils.cs:47-58 | A single page "/api/types": the node `api` has the text "api" and order 0. |
| TocExamples.WalkEndResorts | src/Utils/TocUtils.cs:63-66 | A page whose walk ends at an inner node sorts that node's children: "/a" after "/a/b" (order 2) and "/a/c" (order 1) puts c before b. |
| TocExamples.ChildrenKeepInsertionOrder | src/Utils/TocUtils.cs:66-69 | Pages "/a", "/a/b" (order 2) and "/a/c" (order 1) give a single node `a` whose children stay b then c, because only the root's children and the children of each page's own node are sorted. |
| Strings.ParseFormatInt | src/Utils/TocUtils.cs:76 | Parsing the decimal form of any 32-bit integer gives that integer back. |
| Strings.SplitJoin | src/Utils/TocUtils.cs:32 | Splitting a join of separator-free pieces gives the pieces back. |
| Sorting.SortBy | src/Utils/TocUtils.cs:66 | The result is sorted by the given total preorder and is a permutation of the input. |
| Sorting.SortedPermutationUnique | src/Utils/TocUtils.cs:69 | A list with no ties has one sorted arrangement. Any sorted permutation of it is the list itself, so an unstable `List.Sort` leaves such a list in order unchanged too. |
| Sorting.SortSorted | src/Utils/TocUtils.cs:69 | Sorting a list that is in order and has no ties leaves it unchanged. |

## Left out

- Markdig's block parsing is not modelled. A document is a list of `Heading(level, text)` and `Other(html)` blocks. The heading text is given: how `block.Inline?.FirstChild?.ToString()` extracts it is not modelled.
- HtmlAgilityPack's parsing and `OuterHtml` are not modelled. A fragment is a list of top-level nodes, and `OuterHtml` is a function parameter.
- Attribute-name case folding and duplicate attributes in HtmlAgilityPack are not modelled. Attributes are matched by exact name, and `Remove` drops every attribute with that name.
- Section tags are read only from the pieces the builders write themselves. Heading text (DocumentSectionsRenderer.cs:41), other Markdown blocks, raw HTML blocks included (FinalizeDocumentRenderer.cs:20), and copied `OuterHtml` (HtmlParser.cs:61) go out unescaped and count as no tag. The balance and nesting results assume that none of them contains `<Section` or `</Section` text. For example, the blocks `<section>`, `# T` and `</section>` put a raw `</section>` inside the renderer's `<Section>`, and a case-insensitive reader closes it there.
- `System.Text.Json` serialization is a function parameter. The model fixes only where the marker goes, that it is the only marker, and which section tree it carries.
- `Console.WriteLine` logging in TocUtils.cs (lines 25, 30 and 49) is left out, because it has no effect on the result.
- `OrderBy(p => p.Slug)` uses culture-sensitive string comparison. The model takes any total preorder `slugLe` on slugs instead, and ordinal order (`Strings.StringLe`) is shown to be one.
- The model's `LowerChar` lower-cases ASCII letters only; .NET's `ToLowerInvariant` also folds other letters, so ids of non-ASCII headings differ.
- Ordinal string comparison in .NET compares UTF-16 code units. The model's `Strings.StringLe` compares Dafny characters, which are Unicode scalar values; the two orders differ only for characters outside the Basic Multilingual Plane.
- `List.Sort` is unstable. The sorts promise a sorted permutation and no particular order among equal sort orders. The model sorts by insertion, which is one such arrangement.
- Sorting.SortSorted: stated only for a list with no ties. An unstable sort may reorder equal elements of a list that is already in order. The worked examples meet this condition: their slugs are distinct, and the child list they sort has one element.
- TocUtils.BuildSiteTocNodes: states no title or order for a page that some other page on or below its path precedes or ties in slug order. Two pages with the same slug, or "guide" after "/guide/install" (a slug without its leading `/`), are examples. The node then carries the label of whichever of them created it, which the model computes but no lemma names.
- `Types/TocNode.cs` declares no `SortOrder`, yet `TocUtils.cs` reads and writes one at lines 36, 57 and 66. The model's `TocNode` carries `sortOrder: int`.
- The renderer's `_stack` and `_sections` fields are never reset, so one renderer instance reused across documents would carry sections over. The model renders each document from a fresh renderer.
- `DocumentSectionsRenderer.Write` emits a section for an empty heading text like any other. Only the root list of the table of contents is re-sorted at the end (TocUtils.cs:69). Any other list is sorted only when a page's walk ends at its owner (TocUtils.cs:66), so in `TocExamples.ChildrenKeepInsertionOrder` a's children stay b, c, while `TocExamples.WalkEndResorts` shows a later page ending at `a` re-sorting them.
- The root's sort order is overwritten for every page (TocUtils.cs:36). This is modelled in `TocUtils.AddPage`, but nothing can observe it, because the root is never returned.
- Plugin registration and the remaining Markdig glue are not part of this model: `Plugin.cs`, `MarkdigExtensions.cs`, `DocumentSectionsExtension.cs` and `PrismExtension.cs`.

## Findings

| source | as written | input that shows it | evidently intended | confidence | as-written member | corrected member |
|---|---|---|---|---|---|---|
| src/Utils/HtmlParser.cs:41 | A heading that pops sections writes `</section>` in lower case. The final closes at line 67, and every open tag at line 57, are written `<Section>`/`</Section>`. | Two top-level `h1` nodes. The second writes `</section>` to close the first, and the end writes one `</Section>`. A case-sensitive reader, such as a component compiler, sees two `<Section>` tags and one `</Section>`. | Every close written as `</Section>`, as DocumentSectionsRenderer.cs:26 does, so the output is balanced for any reader. | not executed; medium (an HTML parser folds the case and is unaffected) | HtmlParser.AsWrittenUnbalancedForCaseSensitiveReader | HtmlParser.FixedAddDocumentSections |
