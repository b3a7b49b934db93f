/**
  DocumentSectionRenderer (MarkdownExtensions/DocumentSectionsRenderer.cs) and its driver
  FinalizingDocumentRenderer.Write: while a Markdown document is rendered, every heading
  closes the sections at its level or deeper, opens a `<Section>` and writes the heading;
  at the end every still-open section is closed and the section tree is appended as a
  `<!-- blake:sections:… -->` marker.

  Output is modelled as a sequence of tokens; `Text` gives the exact characters the
  renderer writes (`WriteLine` ends its token with a newline, `Write` does not).
 */
module DocumentSectionsRenderer {
  import opened Wrappers
  import opened Strings
  import opened MarkupNesting
  import opened SectionTree

  /**
    A top-level block of the document in rendering order: a heading, with its level and the
    text of its first inline, or any other block, whose HTML another renderer writes.
   */
  datatype Block = Heading(level: int, text: string) | Other(html: string)

  datatype Token =
    | SectionOpen(id: string)
    | HeadingElement(level: int, id: string, text: string)
    | SectionClose
    | BlockHtml(html: string)
    | SectionsMarker(json: string)

  /**
    The characters each token stands for: `WriteLine` ends the section tags and the marker with
    a newline, `Write` leaves the heading element without one.
   */
  function TokenText(t: Token): (r: string)
    ensures (t.SectionOpen? || t.SectionClose? || t.SectionsMarker?) ==> |r| > 0 && r[|r| - 1] == '\n'
    ensures t.SectionOpen? ==> |r| > 9 && r[..9] == "<Section " && r[|r| - 2..] == ">\n"
    ensures t.SectionClose? ==> r[..|r| - 1] == "</Section>"
    ensures t.HeadingElement? ==> |r| > 2 && r[..2] == "<h" && r[|r| - 1] == '>'
    ensures t.BlockHtml? ==> r == t.html
    ensures t.SectionsMarker? ==> |r| >= 8 && r[..4] == "<!--" && r[|r| - 4..] == "-->\n"
  {
    match t
    case SectionOpen(id) => "<Section id=\"" + id + "\">\n"
    case HeadingElement(level, id, text) =>
      "<h" + FormatInt(level) + " id=\"" + id + "\">" + text + "</h" + FormatInt(level) + ">"
    case SectionClose => "</Section>\n"
    case BlockHtml(html) => html
    case SectionsMarker(json) => "<!-- blake:sections:" + json + " -->\n"
  }

  /** The rendered output. */
  function Text(ts: seq<Token>): string
    decreases |ts|
  {
    if |ts| == 0 then "" else Text(ts[..|ts| - 1]) + TokenText(ts[|ts| - 1])
  }

  /**
    The section id: the heading text lower-cased with every space turned into a hyphen.
    Nothing makes ids unique.
   */
  function HeadingId(text: string): (id: string)
    ensures |id| == |text|
    ensures forall k :: 0 <= k < |text| ==> id[k] == (if text[k] == ' ' then '-' else LowerChar(text[k]))
  {
    ReplaceChar(ToLower(text), ' ', '-')
  }

  /** An id is its own id: it holds no space and no upper-case ASCII letter. */
  lemma HeadingIdIdempotent(text: string)
    ensures HeadingId(HeadingId(text)) == HeadingId(text)
  {
  }

  /** Headings whose texts differ only in ASCII case, or in space versus hyphen, get the same id. */
  lemma {:induction false} HeadingIdCollisions(a: string, b: string)
    requires |a| == |b|
    requires forall k :: 0 <= k < |a| ==> HeadingId([a[k]]) == HeadingId([b[k]])
    ensures HeadingId(a) == HeadingId(b)
  {
    forall k | 0 <= k < |a|
      ensures HeadingId(a)[k] == HeadingId(b)[k]
    {
      assert HeadingId([a[k]])[0] == HeadingId([b[k]])[0];
    }
  }

  /** "Read Me" and "read-me" share the id `read-me`. */
  lemma HeadingIdExample()
    ensures HeadingId("Read Me") == "read-me"
    ensures HeadingId("read-me") == "read-me"
  {
  }

  /** The renderer's fields: the section arena and stack, and everything written so far. */
  datatype Renderer = Renderer(builder: Builder, out: seq<Token>)

  const NewRenderer := Renderer(EmptyBuilder, [])

  /** The section tag a token writes: the renderer's own open and close, and nothing for other text. */
  function TagOf(t: Token): Tag {
    match t
    case SectionOpen(_) => OpenTag
    case SectionClose => CloseTag
    case _ => NoTag
  }

  function Tags(ts: seq<Token>): (tags: seq<Tag>)
    ensures |tags| == |ts| && forall k :: 0 <= k < |ts| ==> tags[k] == TagOf(ts[k])
  {
    seq(|ts|, k requires 0 <= k < |ts| => TagOf(ts[k]))
  }

  function CloseTokens(k: nat): (ts: seq<Token>)
    ensures |ts| == k && forall i :: 0 <= i < k ==> ts[i] == SectionClose
  {
    seq(k, i => SectionClose)
  }

  /**
    The renderer invariant: the builder's, no marker written yet, and the output's nesting is
    exactly the builder's: the open `<Section>` tags are the stacked sections and each
    section's tag sits inside its parent's.
   */
  ghost predicate Valid(r: Renderer) {
    && SectionTree.Valid(r.builder)
    && Nesting(Tags(r.out)) == Some(Nest(r.builder.stack, Parents(r.builder.entries)))
    && forall k :: 0 <= k < |r.out| ==> !r.out[k].SectionsMarker?
  }

  /**
    `Write(renderer, block)` for one heading: one `</Section>` per popped section, then the
    open tag and the heading element at the heading's own level, both with the derived id.
    Exactly one section is added, under the nearest shallower heading.
   */
  function Write(r: Renderer, level: int, text: string): (r': Renderer)
    requires Valid(r)
    ensures Valid(r')
    ensures r'.builder.entries ==
            r.builder.entries + [Entry(HeadingId(text), text, level, NearestShallower(r.builder.entries, level, |r.builder.entries|))]
    ensures |r'.out| >= |r.out| + 2 && r'.out[..|r.out|] == r.out
    ensures forall k :: |r.out| <= k < |r'.out| - 2 ==> r'.out[k] == SectionClose
    ensures |r'.out| - |r.out| - 2 == |r.builder.stack| + 1 - |r'.builder.stack|
    ensures r'.out[|r'.out| - 2] == SectionOpen(HeadingId(text))
    ensures r'.out[|r'.out| - 1] == HeadingElement(level, HeadingId(text), text)
  {
    var id := HeadingId(text);
    var kept := Pop(r.builder.entries, r.builder.stack, level);
    var r' := Renderer(Push(r.builder, id, text, level), HeadingTokens(r.out, kept, r.builder.stack, level, id, text));
    WriteKeepsValid(r, level, text);
    r'
  }

  /** What `Write` appends to the output: one close per popped section, the open tag and the heading. */
  function HeadingTokens(out: seq<Token>, kept: seq<nat>, stack: seq<nat>, level: int, id: string, text: string): (r: seq<Token>)
    requires |kept| <= |stack|
    ensures |r| == |out| + |stack| - |kept| + 2 && r[..|out|] == out
    ensures forall k :: |out| <= k < |r| - 2 ==> r[k] == SectionClose
    ensures r[|r| - 2] == SectionOpen(id) && r[|r| - 1] == HeadingElement(level, id, text)
  {
    out + CloseTokens(|stack| - |kept|) + [SectionOpen(id), HeadingElement(level, id, text)]
  }

  lemma WriteKeepsValid(r: Renderer, level: int, text: string)
    requires Valid(r)
    ensures var id := HeadingId(text);
            var kept := Pop(r.builder.entries, r.builder.stack, level);
            Valid(Renderer(Push(r.builder, id, text, level), HeadingTokens(r.out, kept, r.builder.stack, level, id, text)))
  {
    var id := HeadingId(text);
    WriteNesting(r, level, id, text);
    HeadingTokensNoMarker(r.out, Pop(r.builder.entries, r.builder.stack, level), r.builder.stack, level, id, text);
  }

  lemma WriteNesting(r: Renderer, level: int, id: string, text: string)
    requires StackAscending(r.builder)
    requires Nesting(Tags(r.out)) == Some(Nest(r.builder.stack, Parents(r.builder.entries)))
    ensures var b' := Pushed(r.builder, id, text, level);
            var kept := Pop(r.builder.entries, r.builder.stack, level);
            Nesting(Tags(HeadingTokens(r.out, kept, r.builder.stack, level, id, text))) == Some(Nest(b'.stack, Parents(b'.entries)))
  {
    var b := r.builder;
    var kept := Pop(b.entries, b.stack, level);
    NestingAfterHeading(r.out, b.stack, Parents(b.entries), kept, level, id, text);
    ParentsAppend(b.entries, Entry(id, text, level, Innermost(kept)));
  }

  lemma HeadingTokensNoMarker(out: seq<Token>, kept: seq<nat>, stack: seq<nat>, level: int, id: string, text: string)
    requires |kept| <= |stack|
    requires forall k :: 0 <= k < |out| ==> !out[k].SectionsMarker?
    ensures var out' := HeadingTokens(out, kept, stack, level, id, text);
            forall k :: 0 <= k < |out'| ==> !out'[k].SectionsMarker?
  {
    var out' := HeadingTokens(out, kept, stack, level, id, text);
    forall k | 0 <= k < |out'| ensures !out'[k].SectionsMarker? {
      if k < |out| {
        assert out'[k] == out[k];
      }
    }
  }

  lemma TagsAppend(a: seq<Token>, b: seq<Token>)
    ensures Tags(a + b) == Tags(a) + Tags(b)
  {
  }

  /** The tags of what `Write` appends: `k` closes, an open, and a tag-free heading element. */
  lemma TagsOfHeadingTokens(out: seq<Token>, kept: seq<nat>, stack: seq<nat>, level: int, id: string, text: string)
    requires |kept| <= |stack|
    ensures Tags(HeadingTokens(out, kept, stack, level, id, text)) == Tags(out) + Closes(|stack| - |kept|) + [OpenTag] + [NoTag]
  {
    var ts := HeadingTokens(out, kept, stack, level, id, text);
    var tags := Tags(out) + Closes(|stack| - |kept|) + [OpenTag] + [NoTag];
    assert |Tags(ts)| == |tags|;
    forall k | 0 <= k < |ts| ensures Tags(ts)[k] == tags[k] {
      if k < |out| {
        assert ts[k] == out[k];
      }
    }
  }

  /** The tags `Write` appends pop the sections it pops and open the new one inside the innermost kept. */
  lemma NestingAfterHeading(out: seq<Token>, stack: seq<nat>, parents: seq<Option<nat>>, kept: seq<nat>,
                            level: int, id: string, text: string)
    requires |kept| <= |stack| && kept == stack[..|kept|]
    requires Nesting(Tags(out)) == Some(Nest(stack, parents))
    ensures Nesting(Tags(HeadingTokens(out, kept, stack, level, id, text))) ==
            Some(Nest(kept + [|parents|], parents + [Innermost(kept)]))
  {
    NestingPopPush(Tags(out), stack, parents, kept);
    TagsOfHeadingTokens(out, kept, stack, level, id, text);
  }

  /** Another block: its HTML is written unchanged and the sections are untouched. */
  function WriteOther(r: Renderer, html: string): (r': Renderer)
    requires Valid(r)
    ensures Valid(r')
    ensures r'.builder == r.builder && r'.out == r.out + [BlockHtml(html)]
  {
    var r' := r.(out := r.out + [BlockHtml(html)]);
    TagsAppend(r.out, [BlockHtml(html)]);
    NestingAppend(Tags(r.out), NoTag);
    r'
  }

  /**
    `CloseRemaining`: one `</Section>` per still-open section, then one marker carrying the
    serialized root list.  Afterwards the stack is empty and the output is balanced.
   */
  function CloseRemaining(r: Renderer, serialize: seq<Section> -> string): (r': Renderer)
    requires Valid(r)
    ensures r'.builder.stack == [] && r'.builder.entries == r.builder.entries
    ensures |r'.out| == |r.out| + |r.builder.stack| + 1 && r'.out[..|r.out|] == r.out
    ensures forall k :: |r.out| <= k < |r'.out| - 1 ==> r'.out[k] == SectionClose
    ensures r'.out[|r'.out| - 1] == SectionsMarker(serialize(Forest(r.builder.entries)))
    ensures Nesting(Tags(r'.out)) == Some(Nest([], Parents(r.builder.entries)))
  {
    var k := |r.builder.stack|;
    var marker := SectionsMarker(serialize(Forest(r.builder.entries)));
    var r' := Renderer(r.builder.(stack := []), r.out + CloseTokens(k) + [marker]);
    NestingAfterClose(r.out, r.builder.stack, Parents(r.builder.entries), marker.json);
    r'
  }

  /** Closing every open section and then writing the marker leaves nothing open and keeps the parents. */
  lemma NestingAfterClose(out: seq<Token>, stack: seq<nat>, parents: seq<Option<nat>>, json: string)
    requires Nesting(Tags(out)) == Some(Nest(stack, parents))
    ensures Nesting(Tags(out + CloseTokens(|stack|) + [SectionsMarker(json)])) == Some(Nest([], parents))
  {
    var k := |stack|;
    assert Tags(CloseTokens(k)) == Closes(k);
    NestingCloseAll(Tags(out), stack, parents);
    TagsAppend(out, CloseTokens(k));
    TagsAppend(out + CloseTokens(k), [SectionsMarker(json)]);
    NestingAppend(Tags(out) + Closes(k), NoTag);
  }

  /** The heading events among the blocks, in document order, each with its derived id. */
  function HeadingInfos(blocks: seq<Block>): seq<HeadingInfo>
    decreases |blocks|
  {
    if |blocks| == 0 then []
    else
      var hs := HeadingInfos(blocks[..|blocks| - 1]);
      match blocks[|blocks| - 1]
      case Heading(level, text) => hs + [HeadingInfo(HeadingId(text), text, level)]
      case Other(_) => hs
  }

  /** The renderer after the blocks of a document (the loop of FinalizingDocumentRenderer.Write). */
  function RenderBlocks(blocks: seq<Block>): (r: Renderer)
    ensures Valid(r)
    ensures r.builder.entries == Reference(HeadingInfos(blocks))
    decreases |blocks|
  {
    if |blocks| == 0 then NewRenderer
    else
      var r := RenderBlocks(blocks[..|blocks| - 1]);
      match blocks[|blocks| - 1]
      case Heading(level, text) => Write(r, level, text)
      case Other(html) => WriteOther(r, html)
  }

  /**
    FinalizingDocumentRenderer.Write: render every block, then `CloseRemaining`.  The section
    tags the renderer writes are balanced, one `<Section>` and one `</Section>` per heading,
    their nesting is the reference section tree, and the output ends with the only marker,
    which carries that tree.
   */
  function RenderDocument(blocks: seq<Block>, serialize: seq<Section> -> string): (out: seq<Token>)
    ensures Balanced(Tags(out))
    ensures Nesting(Tags(out)).value.parents == Parents(Reference(HeadingInfos(blocks)))
    ensures Count(Tags(out), OpenTag) == |HeadingInfos(blocks)| && Count(Tags(out), CloseTag) == |HeadingInfos(blocks)|
    ensures |out| > 0 && out[|out| - 1] == SectionsMarker(serialize(Forest(Reference(HeadingInfos(blocks)))))
    ensures forall k :: 0 <= k < |out| - 1 ==> !out[k].SectionsMarker?
  {
    var r := CloseRemaining(RenderBlocks(blocks), serialize);
    NestingCounts(Tags(r.out));
    r.out
  }

  const ExampleBlocks: seq<Block> :=
    [Heading(1, "A"), Other("<p>x</p>"), Heading(2, "B"), Heading(2, "C"), Heading(1, "D"), Heading(3, "E")]

  const ExampleEntries: seq<Entry> :=
    [ Entry("a", "A", 1, None), Entry("b", "B", 2, Some(0)), Entry("c", "C", 2, Some(0)),
      Entry("d", "D", 1, None), Entry("e", "E", 3, Some(3)) ]

  lemma ExampleHeadings()
    ensures HeadingInfos(ExampleBlocks) ==
            [ HeadingInfo("a", "A", 1), HeadingInfo("b", "B", 2), HeadingInfo("c", "C", 2),
              HeadingInfo("d", "D", 1), HeadingInfo("e", "E", 3) ]
  {
    var blocks := ExampleBlocks;
    assert HeadingId("A") == "a" && HeadingId("B") == "b" && HeadingId("C") == "c";
    assert HeadingId("D") == "d" && HeadingId("E") == "e";
    assert blocks[..1][..0] == blocks[..0] && blocks[..2][..1] == blocks[..1] && blocks[..3][..2] == blocks[..2];
    assert blocks[..4][..3] == blocks[..3] && blocks[..5][..4] == blocks[..4] && blocks[..5] == blocks[..|blocks| - 1];
    assert HeadingInfos(blocks[..1]) == [HeadingInfo("a", "A", 1)];
    assert HeadingInfos(blocks[..2]) == [HeadingInfo("a", "A", 1)];
    assert HeadingInfos(blocks[..3]) == [HeadingInfo("a", "A", 1), HeadingInfo("b", "B", 2)];
    assert HeadingInfos(blocks[..4]) == [HeadingInfo("a", "A", 1), HeadingInfo("b", "B", 2), HeadingInfo("c", "C", 2)];
  }

  /** Every entry of the example is attached to its nearest shallower predecessor. */
  lemma ExampleParents()
    ensures ParentsNearest(ExampleEntries)
  {
    var es := ExampleEntries;
    assert HasNearestParent(es, 0);
    assert HasNearestParent(es, 1);
    assert HasNearestParent(es, 2);
    assert HasNearestParent(es, 3);
    assert HasNearestParent(es, 4);
  }

  lemma ExampleForest()
    ensures Forest(ExampleEntries) ==
              [ Section("a", "A", [Section("b", "B", []), Section("c", "C", [])]),
                Section("d", "D", [Section("e", "E", [])]) ]
  {
    var es := ExampleEntries;
    assert Tree(es, 4) == Section("e", "E", []);
    assert Tree(es, 3) == Section("d", "D", [Section("e", "E", [])]);
    assert Tree(es, 2) == Section("c", "C", []);
    assert Tree(es, 1) == Section("b", "B", []);
    assert ChildrenOf(es, Some(0), 3) == [];
    assert Tree(es, 0) == Section("a", "A", [Section("b", "B", []), Section("c", "C", [])]);
  }

  /**
    Levels 1, 2, 2, 1, 3 on texts A to E, with a paragraph after A, give A[B, C], D[E]: B and C
    attach to A, and E skips a level and still attaches to D.
   */
  lemma NestingExample()
    ensures Forest(Reference(HeadingInfos(ExampleBlocks))) ==
              [ Section("a", "A", [Section("b", "B", []), Section("c", "C", [])]),
                Section("d", "D", [Section("e", "E", [])]) ]
  {
    ExampleHeadings();
    ExampleParents();
    ReferenceUnique(HeadingInfos(ExampleBlocks), ExampleEntries);
    ExampleForest();
  }
}
