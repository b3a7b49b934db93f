/**
  HtmlParser.AddDocumentSections (Utils/HtmlParser.cs): the heading-stack discipline run over
  the top-level nodes of an HTML fragment.  Every node's HTML is copied through; an `h1`..`h6`
  node first closes the sections at its level or deeper, opens a `<Section>` carrying the
  heading's `id` attribute, and loses that attribute itself.  The result is wrapped in a
  `<div>` and followed by the `<!-- blake:sections:… -->` marker.

  Parsing the fragment, `OuterHtml` and JSON serialization belong to HtmlAgilityPack and
  System.Text.Json; they are parameters here.
 */
module HtmlParser {
  import opened Wrappers
  import opened Strings
  import opened MarkupNesting
  import opened SectionTree
  import opened Sequences

  datatype Attribute = Attribute(name: string, value: string)

  /** A top-level node as HtmlAgilityPack presents it: lower-case name, attributes in source order, inner text. */
  datatype HtmlNode = HtmlNode(name: string, attributes: seq<Attribute>, innerText: string)

  /** The level of a heading node: the digit of `h1`..`h6`; `None` for every other node name. */
  function HeadingLevel(name: string): (level: Option<int>)
    ensures level.Some? ==> 1 <= level.value <= 6 && name == "h" + FormatInt(level.value)
    ensures level.None? ==> forall l :: 1 <= l <= 6 ==> name != "h" + FormatInt(l)
  {
    if |name| == 2 && name[0] == 'h' && '1' <= name[1] <= '6' then Some(name[1] as int - '0' as int)
    else None
  }

  /** Index of the first attribute called `name`, or `|attrs|` when there is none. */
  function AttributeIndex(attrs: seq<Attribute>, name: string): nat {
    FirstIndex(attrs, (a: Attribute) => a.name == name)
  }

  /**
    `node.GetAttributeValue(name, def)`: the value of the first attribute called `name`, and
    `def` when there is none.
   */
  function GetAttributeValue(attrs: seq<Attribute>, name: string, def: string): (v: string)
    ensures (forall j :: 0 <= j < |attrs| ==> attrs[j].name != name) ==> v == def
    ensures forall k :: 0 <= k < |attrs| && attrs[k].name == name && (forall j :: 0 <= j < k ==> attrs[j].name != name) ==>
                        v == attrs[k].value
  {
    var k := AttributeIndex(attrs, name);
    if k < |attrs| then attrs[k].value else def
  }

  /**
    `node.Attributes.Remove(name)`: every attribute called `name` goes; `RemoveReads` states
    that the others read as before.
   */
  function RemoveAttribute(attrs: seq<Attribute>, name: string): (r: seq<Attribute>)
    ensures forall j :: 0 <= j < |r| ==> r[j].name != name
    ensures |r| <= |attrs|
    decreases |attrs|
  {
    if |attrs| == 0 then []
    else (if attrs[0].name == name then [] else [attrs[0]]) + RemoveAttribute(attrs[1..], name)
  }

  /** After the removal the attribute reads as absent ... */
  lemma RemovedReadsAbsent(attrs: seq<Attribute>, name: string, def: string)
    ensures GetAttributeValue(RemoveAttribute(attrs, name), name, def) == def
  {
    var r := RemoveAttribute(attrs, name);
    assert AttributeIndex(r, name) == |r|;
  }

  /** ... and every other attribute reads as before. */
  lemma {:induction false} RemoveKeepsOthers(attrs: seq<Attribute>, name: string, other: string, def: string)
    requires other != name
    ensures GetAttributeValue(RemoveAttribute(attrs, name), other, def) == GetAttributeValue(attrs, other, def)
    decreases |attrs|
  {
    if |attrs| > 0 {
      var a := attrs[0];
      var rest := RemoveAttribute(attrs[1..], name);
      RemoveKeepsOthers(attrs[1..], name, other, def);
      assert attrs == [a] + attrs[1..];
      ReadCons(a, attrs[1..], other, def);
      if a.name == name {
        assert RemoveAttribute(attrs, name) == rest;
      } else {
        assert RemoveAttribute(attrs, name) == [a] + rest;
        ReadCons(a, rest, other, def);
      }
    }
  }

  /** Both halves together, for every default and every other name. */
  lemma RemoveReads(attrs: seq<Attribute>, name: string)
    ensures forall def :: GetAttributeValue(RemoveAttribute(attrs, name), name, def) == def
    ensures forall other, def :: other != name ==>
              GetAttributeValue(RemoveAttribute(attrs, name), other, def) == GetAttributeValue(attrs, other, def)
  {
    forall def ensures GetAttributeValue(RemoveAttribute(attrs, name), name, def) == def {
      RemovedReadsAbsent(attrs, name, def);
    }
    forall other, def | other != name
      ensures GetAttributeValue(RemoveAttribute(attrs, name), other, def) == GetAttributeValue(attrs, other, def)
    {
      RemoveKeepsOthers(attrs, name, other, def);
    }
  }

  lemma ReadCons(a: Attribute, rest: seq<Attribute>, name: string, def: string)
    ensures GetAttributeValue([a] + rest, name, def) ==
            if a.name == name then a.value else GetAttributeValue(rest, name, def)
  {
    assert ([a] + rest)[1..] == rest;
  }

  /** The heading a node opens, if it is one: its `id` attribute (default empty), inner text and level. */
  function NodeHeading(node: HtmlNode): (h: Option<HeadingInfo>)
    ensures h.None? <==> forall l :: 1 <= l <= 6 ==> node.name != "h" + FormatInt(l)
    ensures h.Some? ==>
              && 1 <= h.value.level <= 6 && node.name == "h" + FormatInt(h.value.level)
              && h.value.id == GetAttributeValue(node.attributes, "id", "")
              && h.value.text == node.innerText
  {
    match HeadingLevel(node.name)
    case None => None
    case Some(level) => Some(HeadingInfo(GetAttributeValue(node.attributes, "id", ""), node.innerText, level))
  }

  /** The node whose `OuterHtml` is written: a heading without its `id` attribute, anything else as it is. */
  function Emitted(node: HtmlNode): (e: HtmlNode)
    ensures e.name == node.name && e.innerText == node.innerText
    ensures NodeHeading(node).None? ==> e == node
    ensures NodeHeading(node).Some? ==>
              && GetAttributeValue(e.attributes, "id", "") == ""
              && forall other, def :: other != "id" ==>
                   GetAttributeValue(e.attributes, other, def) == GetAttributeValue(node.attributes, other, def)
  {
    RemoveReads(node.attributes, "id");
    if NodeHeading(node).Some? then node.(attributes := RemoveAttribute(node.attributes, "id")) else node
  }

  /**
    What `AddDocumentSections` appends to its StringBuilder.  `SectionClose(upper)` is
    `</Section>` when `upper` and `</section>` otherwise.
   */
  datatype Piece =
    | DivOpen
    | DivClose
    | SectionOpen(id: string)
    | SectionClose(upper: bool)
    | NodeHtml(html: string)
    | SectionsMarker(json: string)

  /**
    The characters of a piece.  Read case-insensitively, every close is `</section>`; only the
    tail's closes are spelled `</Section>`.
   */
  lemma LowerCloses()
    ensures ToLower("</Section>") == "</section>" && ToLower("</section>") == "</section>"
    ensures "</section>" != "</Section>"
  {
    assert ToLower("</Section>")[2] == 's';
    assert "</section>"[2] != "</Section>"[2];
  }

  lemma LowerDivs()
    ensures ToLower("<div>") == "<div>" && ToLower("</div>") == "</div>"
  {
  }

  function PieceText(p: Piece): (t: string)
    ensures p.SectionClose? ==> ToLower(t) == "</section>" && (t == "</Section>") == p.upper
    ensures p.SectionOpen? ==> |t| > 8 && t[..8] == "<Section" && t[|t| - 1] == '>'
    ensures p.DivOpen? ==> ToLower(t) == "<div>"
    ensures p.DivClose? ==> ToLower(t) == "</div>"
    ensures p.NodeHtml? ==> t == p.html
    ensures p.SectionsMarker? ==> |t| >= 7 && t[..4] == "<!--" && t[|t| - 3..] == "-->"
  {
    match p
    case DivOpen => LowerDivs(); assert ToLower("<div>") == "<div>"; "<div>"
    case DivClose => LowerDivs(); assert ToLower("</div>") == "</div>"; "</div>"
    case SectionOpen(id) =>
      var attribute := if id == "" then "" else " id=\"" + id + "\"";
      assert ("<Section" + attribute + ">")[..8] == "<Section";
      "<Section" + attribute + ">"
    case SectionClose(upper) =>
      LowerCloses();
      var t := if upper then "</Section>" else "</section>";
      assert ToLower(t) == "</section>" && (t == "</Section>") == upper;
      t
    case NodeHtml(html) => html
    case SectionsMarker(json) =>
      var t := "<!-- blake:sections:" + json + " -->";
      assert t[..4] == "<!--" && t[|t| - 3..] == "-->";
      t
  }

  /** The returned string. */
  function Text(ps: seq<Piece>): string
    decreases |ps|
  {
    if |ps| == 0 then "" else Text(ps[..|ps| - 1]) + PieceText(ps[|ps| - 1])
  }

  /** The open tag carries an `id` attribute exactly when the id is non-empty. */
  lemma OpenTagId(id: string)
    ensures (PieceText(SectionOpen(id)) == "<Section>") == (id == "")
    ensures id != "" ==> PieceText(SectionOpen(id))[8..] == " id=\"" + id + "\">"
  {
    if id != "" {
      assert |PieceText(SectionOpen(id))| > |"<Section>"|;
    }
  }

  /**
    How a reader matches the section tags the rewriter writes.  HTML folds tag-name case, so
    `</section>` closes a `<Section>`; a case-sensitive reader, such as a component compiler,
    treats `</section>` as a different element and the `<Section>` stays open.  Copied node
    HTML counts as no tag.
   */
  function TagOf(p: Piece, caseSensitive: bool): Tag {
    match p
    case SectionOpen(_) => OpenTag
    case SectionClose(upper) => if upper || !caseSensitive then CloseTag else NoTag
    case _ => NoTag
  }

  function Tags(ps: seq<Piece>, caseSensitive: bool): (tags: seq<Tag>)
    ensures |tags| == |ps| && forall k :: 0 <= k < |ps| ==> tags[k] == TagOf(ps[k], caseSensitive)
  {
    seq(|ps|, k requires 0 <= k < |ps| => TagOf(ps[k], caseSensitive))
  }

  function ClosePieces(k: nat, upper: bool): (ps: seq<Piece>)
    ensures |ps| == k && forall i :: 0 <= i < k ==> ps[i] == SectionClose(upper)
  {
    seq(k, i => SectionClose(upper))
  }

  /** The HTML copied through, in output order. */
  function HtmlOf(ps: seq<Piece>): seq<string>
    decreases |ps|
  {
    if |ps| == 0 then []
    else HtmlOf(ps[..|ps| - 1]) + (if ps[|ps| - 1].NodeHtml? then [ps[|ps| - 1].html] else [])
  }

  lemma {:induction false} HtmlOfAppend(a: seq<Piece>, b: seq<Piece>)
    ensures HtmlOf(a + b) == HtmlOf(a) + HtmlOf(b)
    decreases |b|
  {
    if |b| == 0 {
      assert a + b == a;
    } else {
      var m := |b| - 1;
      HtmlOfAppend(a, b[..m]);
      assert (a + b)[..|a + b| - 1] == a + b[..m];
    }
  }

  /** A piece that may stand between the `<div>` and the closing tail: section tags and node HTML. */
  predicate Inner(p: Piece, midUpper: bool) {
    p.SectionOpen? || p.NodeHtml? || p == SectionClose(midUpper)
  }

  /**
    The scan state: the section builder and the pieces appended so far; `midUpper` is the
    spelling of the closes written when a heading pops sections (`false` as written).
   */
  datatype Parser = Parser(builder: Builder, out: seq<Piece>)

  const NewParser := Parser(EmptyBuilder, [DivOpen])

  /**
    The scan invariant: the builder's, the `<div>` first and only inner pieces after it, and
    the nesting of the output (read case-insensitively) is exactly the builder's.
   */
  ghost predicate Valid(p: Parser, midUpper: bool) {
    && SectionTree.Valid(p.builder)
    && |p.out| > 0 && p.out[0] == DivOpen
    && (forall k :: 1 <= k < |p.out| ==> Inner(p.out[k], midUpper))
    && Nesting(Tags(p.out, false)) == Some(Nest(p.builder.stack, Parents(p.builder.entries)))
  }

  /** What one heading node appends: a close per popped section, the open tag, the node. */
  function HeadingPieces(out: seq<Piece>, pops: nat, midUpper: bool, id: string, html: string): (r: seq<Piece>)
    ensures |r| == |out| + pops + 2 && r[..|out|] == out
    ensures forall k :: |out| <= k < |r| - 2 ==> r[k] == SectionClose(midUpper)
    ensures r[|r| - 2] == SectionOpen(id) && r[|r| - 1] == NodeHtml(html)
  {
    out + ClosePieces(pops, midUpper) + [SectionOpen(id), NodeHtml(html)]
  }

  /**
    One pass of the `foreach`.  A heading pops, attaches and pushes exactly like the Markdown
    renderer, opens `<Section>` with the heading's own `id` attribute, and is then written
    without that attribute; any other node is copied through and the sections stay as they are.
   */
  function AddNode(p: Parser, node: HtmlNode, outerHtml: HtmlNode -> string, midUpper: bool): (p': Parser)
    requires Valid(p, midUpper)
    ensures Valid(p', midUpper)
    ensures |p'.out| > |p.out| && p'.out[..|p.out|] == p.out && p'.out[|p'.out| - 1] == NodeHtml(outerHtml(Emitted(node)))
    ensures HtmlOf(p'.out) == HtmlOf(p.out) + [outerHtml(Emitted(node))]
    ensures NodeHeading(node).None? ==> p'.builder == p.builder && |p'.out| == |p.out| + 1
    ensures NodeHeading(node).Some? ==>
              var h := NodeHeading(node).value;
              && p'.builder.entries ==
                 p.builder.entries + [Entry(h.id, h.text, h.level, NearestShallower(p.builder.entries, h.level, |p.builder.entries|))]
              && |p'.out| - |p.out| - 2 == |p.builder.stack| + 1 - |p'.builder.stack|
              && (forall k :: |p.out| <= k < |p'.out| - 2 ==> p'.out[k] == SectionClose(midUpper))
              && p'.out[|p'.out| - 2] == SectionOpen(h.id)
  {
    match NodeHeading(node)
    case None =>
      AddOtherKeepsValid(p, NodeHtml(outerHtml(node)), midUpper);
      HtmlOfAppend(p.out, [NodeHtml(outerHtml(node))]);
      Parser(p.builder, p.out + [NodeHtml(outerHtml(node))])
    case Some(h) =>
      var kept := Pop(p.builder.entries, p.builder.stack, h.level);
      var out' := HeadingPieces(p.out, |p.builder.stack| - |kept|, midUpper, h.id, outerHtml(Emitted(node)));
      AddHeadingKeepsValid(p, h, outerHtml(Emitted(node)), midUpper);
      HtmlOfHeadingPieces(p.out, |p.builder.stack| - |kept|, midUpper, h.id, outerHtml(Emitted(node)));
      Parser(Push(p.builder, h.id, h.text, h.level), out')
  }

  lemma AddOtherKeepsValid(p: Parser, piece: Piece, midUpper: bool)
    requires Valid(p, midUpper) && piece.NodeHtml?
    ensures Valid(Parser(p.builder, p.out + [piece]), midUpper)
  {
    TagsAppend(p.out, [piece], false);
    NestingAppend(Tags(p.out, false), NoTag);
  }

  lemma TagsAppend(a: seq<Piece>, b: seq<Piece>, caseSensitive: bool)
    ensures Tags(a + b, caseSensitive) == Tags(a, caseSensitive) + Tags(b, caseSensitive)
  {
  }

  lemma AddHeadingKeepsValid(p: Parser, h: HeadingInfo, html: string, midUpper: bool)
    requires Valid(p, midUpper)
    ensures var kept := Pop(p.builder.entries, p.builder.stack, h.level);
            Valid(Parser(Push(p.builder, h.id, h.text, h.level),
                         HeadingPieces(p.out, |p.builder.stack| - |kept|, midUpper, h.id, html)), midUpper)
  {
    var b := p.builder;
    var kept := Pop(b.entries, b.stack, h.level);
    var out := HeadingPieces(p.out, |b.stack| - |kept|, midUpper, h.id, html);
    assert Push(b, h.id, h.text, h.level) == Pushed(b, h.id, h.text, h.level);
    AddHeadingNesting(p, h, html, midUpper);
    HeadingPiecesInner(p.out, |b.stack| - |kept|, midUpper, h.id, html);
    assert |out| > 0 && out[0] == DivOpen;
  }

  lemma AddHeadingNesting(p: Parser, h: HeadingInfo, html: string, midUpper: bool)
    requires StackAscending(p.builder)
    requires Nesting(Tags(p.out, false)) == Some(Nest(p.builder.stack, Parents(p.builder.entries)))
    ensures var b' := Pushed(p.builder, h.id, h.text, h.level);
            var kept := Pop(p.builder.entries, p.builder.stack, h.level);
            Nesting(Tags(HeadingPieces(p.out, |p.builder.stack| - |kept|, midUpper, h.id, html), false)) ==
            Some(Nest(b'.stack, Parents(b'.entries)))
  {
    var b := p.builder;
    var kept := Pop(b.entries, b.stack, h.level);
    HeadingNesting(p.out, b.stack, Parents(b.entries), kept, midUpper, h.id, html);
    ParentsAppend(b.entries, Entry(h.id, h.text, h.level, Innermost(kept)));
  }

  lemma HeadingPiecesInner(out: seq<Piece>, pops: nat, midUpper: bool, id: string, html: string)
    requires |out| > 0 && out[0] == DivOpen
    requires forall k :: 1 <= k < |out| ==> Inner(out[k], midUpper)
    ensures var r := HeadingPieces(out, pops, midUpper, id, html);
            r[0] == DivOpen && forall k :: 1 <= k < |r| ==> Inner(r[k], midUpper)
  {
    var r := HeadingPieces(out, pops, midUpper, id, html);
    assert r[0] == out[0];
    forall k | 1 <= k < |r| ensures Inner(r[k], midUpper) {
      if k < |out| {
        assert r[k] == out[k];
      }
    }
  }

  lemma HeadingNesting(out: seq<Piece>, stack: seq<nat>, parents: seq<Option<nat>>, kept: seq<nat>,
                       midUpper: bool, id: string, html: string)
    requires |kept| <= |stack| && kept == stack[..|kept|]
    requires Nesting(Tags(out, false)) == Some(Nest(stack, parents))
    ensures Nesting(Tags(HeadingPieces(out, |stack| - |kept|, midUpper, id, html), false)) ==
            Some(Nest(kept + [|parents|], parents + [Innermost(kept)]))
  {
    var pops := |stack| - |kept|;
    NestingPopPush(Tags(out, false), stack, parents, kept);
    var r := HeadingPieces(out, pops, midUpper, id, html);
    var tags := Tags(out, false) + Closes(pops) + [OpenTag] + [NoTag];
    forall k | 0 <= k < |r| ensures Tags(r, false)[k] == tags[k] {
      if k < |out| {
        assert r[k] == out[k];
      }
    }
    assert Tags(r, false) == tags;
  }

  /** The heading events among the nodes, in document order. */
  function Headings(nodes: seq<HtmlNode>): seq<HeadingInfo>
    decreases |nodes|
  {
    if |nodes| == 0 then []
    else
      var hs := Headings(nodes[..|nodes| - 1]);
      match NodeHeading(nodes[|nodes| - 1])
      case None => hs
      case Some(h) => hs + [h]
  }

  /** The HTML of every node, in order, headings without their `id`. */
  function EmittedHtml(nodes: seq<HtmlNode>, outerHtml: HtmlNode -> string): (hs: seq<string>)
    ensures |hs| == |nodes| && forall k :: 0 <= k < |nodes| ==> hs[k] == outerHtml(Emitted(nodes[k]))
  {
    seq(|nodes|, k requires 0 <= k < |nodes| => outerHtml(Emitted(nodes[k])))
  }

  lemma EmittedHtmlLast(nodes: seq<HtmlNode>, outerHtml: HtmlNode -> string)
    requires |nodes| > 0
    ensures EmittedHtml(nodes, outerHtml) ==
            EmittedHtml(nodes[..|nodes| - 1], outerHtml) + [outerHtml(Emitted(nodes[|nodes| - 1]))]
  {
  }

  /** The `foreach` over the top-level nodes, after `<div>`. */
  function Scan(nodes: seq<HtmlNode>, outerHtml: HtmlNode -> string, midUpper: bool): (p: Parser)
    ensures Valid(p, midUpper)
    decreases |nodes|
  {
    if |nodes| == 0 then NewParser
    else AddNode(Scan(nodes[..|nodes| - 1], outerHtml, midUpper), nodes[|nodes| - 1], outerHtml, midUpper)
  }

  /** The scan's sections are the reference sections of the heading nodes. */
  lemma {:induction false} ScanSections(nodes: seq<HtmlNode>, outerHtml: HtmlNode -> string, midUpper: bool)
    ensures Scan(nodes, outerHtml, midUpper).builder.entries == Reference(Headings(nodes))
    decreases |nodes|
  {
    if |nodes| > 0 {
      ScanSections(nodes[..|nodes| - 1], outerHtml, midUpper);
    }
  }

  /** The scan copies the HTML of every node exactly once, in order. */
  lemma {:induction false} ScanCopies(nodes: seq<HtmlNode>, outerHtml: HtmlNode -> string, midUpper: bool)
    ensures HtmlOf(Scan(nodes, outerHtml, midUpper).out) == EmittedHtml(nodes, outerHtml)
    decreases |nodes|
  {
    if |nodes| == 0 {
      assert HtmlOf([DivOpen]) == HtmlOf([]) + [];
    } else {
      var m := |nodes| - 1;
      ScanCopies(nodes[..m], outerHtml, midUpper);
      EmittedHtmlLast(nodes, outerHtml);
    }
  }

  /** A heading's pieces add exactly its own HTML to what has been copied. */
  lemma HtmlOfHeadingPieces(out: seq<Piece>, pops: nat, midUpper: bool, id: string, html: string)
    ensures HtmlOf(HeadingPieces(out, pops, midUpper, id, html)) == HtmlOf(out) + [html]
  {
    var tags := ClosePieces(pops, midUpper) + [SectionOpen(id)];
    assert HeadingPieces(out, pops, midUpper, id, html) == (out + tags) + [NodeHtml(html)];
    HtmlOfAppend(out + tags, [NodeHtml(html)]);
    HtmlOfAppend(out, tags);
    HtmlOfNone(tags);
  }

  lemma {:induction false} HtmlOfNone(ps: seq<Piece>)
    requires forall k :: 0 <= k < |ps| ==> !ps[k].NodeHtml?
    ensures HtmlOf(ps) == []
    decreases |ps|
  {
    if |ps| > 0 {
      HtmlOfNone(ps[..|ps| - 1]);
    }
  }

  /** After the `foreach`: a `</Section>` per open section, `</div>`, then the marker. */
  function Finished(out: seq<Piece>, open: nat, json: string): (r: seq<Piece>)
    ensures |r| == |out| + open + 2 && r[..|out|] == out
    ensures forall k :: |out| <= k < |r| - 2 ==> r[k] == SectionClose(true)
    ensures r[|r| - 2] == DivClose && r[|r| - 1] == SectionsMarker(json)
  {
    out + ClosePieces(open, true) + [DivClose, SectionsMarker(json)]
  }

  lemma TagsFinished(out: seq<Piece>, open: nat, json: string, caseSensitive: bool)
    ensures Tags(Finished(out, open, json), caseSensitive) == Tags(out, caseSensitive) + Closes(open) + [NoTag, NoTag]
  {
    var r := Finished(out, open, json);
    var tags := Tags(out, caseSensitive) + Closes(open) + [NoTag, NoTag];
    forall k | 0 <= k < |r| ensures Tags(r, caseSensitive)[k] == tags[k] {
      if k < |out| {
        assert r[k] == out[k];
      }
    }
  }

  lemma FinishedNesting(out: seq<Piece>, stack: seq<nat>, parents: seq<Option<nat>>, json: string, caseSensitive: bool)
    requires Nesting(Tags(out, caseSensitive)) == Some(Nest(stack, parents))
    ensures Nesting(Tags(Finished(out, |stack|, json), caseSensitive)) == Some(Nest([], parents))
  {
    var t := Tags(out, caseSensitive);
    TagsFinished(out, |stack|, json, caseSensitive);
    NestingCloseAll(t, stack, parents);
    NestingAppend(t + Closes(|stack|), NoTag);
    assert t + Closes(|stack|) + [NoTag, NoTag] == t + Closes(|stack|) + [NoTag] + [NoTag];
    NestingAppend(t + Closes(|stack|) + [NoTag], NoTag);
  }

  lemma HtmlOfFinished(out: seq<Piece>, open: nat, json: string)
    ensures HtmlOf(Finished(out, open, json)) == HtmlOf(out)
  {
    var tail := ClosePieces(open, true) + [DivClose, SectionsMarker(json)];
    assert Finished(out, open, json) == out + tail;
    HtmlOfAppend(out, tail);
    HtmlOfNone(tail);
  }

  /** With every close spelled `</Section>`, both readings see the same tags. */
  lemma ReadingsAgree(ps: seq<Piece>)
    requires forall k :: 0 <= k < |ps| ==> ps[k] != SectionClose(false)
    ensures Tags(ps, true) == Tags(ps, false)
  {
  }

  /**
    The whole of `AddDocumentSections`, with the spelling of the mid-document closes as a
    parameter.  The output opens with `<div>`, ends with `</div>` and the only marker, which
    carries the reference section tree; in between it copies every node's HTML exactly once
    and in order, and its own section tags, read case-insensitively, are balanced, one open
    and one close per heading node, nested as the reference tree.
   */
  function AddSections(nodes: seq<HtmlNode>, outerHtml: HtmlNode -> string, serialize: seq<Section> -> string,
                       midUpper: bool): (out: seq<Piece>)
    ensures |out| >= 3 && out[0] == DivOpen && out[|out| - 2] == DivClose
    ensures out[|out| - 1] == SectionsMarker(serialize(Forest(Reference(Headings(nodes)))))
    ensures forall k :: 1 <= k < |out| - 2 ==> out[k].SectionOpen? || out[k].SectionClose? || out[k].NodeHtml?
    ensures HtmlOf(out) == EmittedHtml(nodes, outerHtml)
    ensures Balanced(Tags(out, false))
    ensures Nesting(Tags(out, false)).value.parents == Parents(Reference(Headings(nodes)))
    ensures Count(Tags(out, false), OpenTag) == |Headings(nodes)| && Count(Tags(out, false), CloseTag) == |Headings(nodes)|
    ensures midUpper ==> Tags(out, true) == Tags(out, false)
  {
    var p := Scan(nodes, outerHtml, midUpper);
    ScanSections(nodes, outerHtml, midUpper);
    ScanCopies(nodes, outerHtml, midUpper);
    var out := Finished(p.out, |p.builder.stack|, serialize(Forest(p.builder.entries)));
    FinishedNesting(p.out, p.builder.stack, Parents(p.builder.entries), serialize(Forest(p.builder.entries)), false);
    HtmlOfFinished(p.out, |p.builder.stack|, serialize(Forest(p.builder.entries)));
    NestingCounts(Tags(out, false));
    FinishedShape(p, midUpper, out, serialize(Forest(p.builder.entries)));
    out
  }

  lemma FinishedShape(p: Parser, midUpper: bool, out: seq<Piece>, json: string)
    requires |p.out| > 0 && p.out[0] == DivOpen
    requires forall k :: 1 <= k < |p.out| ==> Inner(p.out[k], midUpper)
    requires out == Finished(p.out, |p.builder.stack|, json)
    ensures out[0] == DivOpen
    ensures forall k :: 1 <= k < |out| - 2 ==> out[k].SectionOpen? || out[k].SectionClose? || out[k].NodeHtml?
    ensures midUpper ==> Tags(out, true) == Tags(out, false)
  {
    assert out[0] == p.out[0];
    forall k | 1 <= k < |out| - 2
      ensures (out[k].SectionOpen? || out[k].SectionClose? || out[k].NodeHtml?) && (midUpper ==> out[k] != SectionClose(false))
    {
      if k < |p.out| {
        assert out[k] == p.out[k];
      }
    }
    if midUpper {
      ReadingsAgree(out);
    }
  }

  /** HtmlParser.AddDocumentSections as written: a heading that pops sections writes `</section>`. */
  function AddDocumentSections(nodes: seq<HtmlNode>, outerHtml: HtmlNode -> string, serialize: seq<Section> -> string): (out: seq<Piece>)
    ensures |out| >= 3 && out[0] == DivOpen && out[|out| - 2] == DivClose
    ensures out[|out| - 1] == SectionsMarker(serialize(Forest(Reference(Headings(nodes)))))
    ensures HtmlOf(out) == EmittedHtml(nodes, outerHtml)
    ensures Balanced(Tags(out, false))
    ensures Nesting(Tags(out, false)).value.parents == Parents(Reference(Headings(nodes)))
    ensures Count(Tags(out, false), CloseTag) == |Headings(nodes)|
  {
    AddSections(nodes, outerHtml, serialize, false)
  }

  /**
    The same with every close spelled `</Section>`: its own section tags are balanced, and
    nested as the reference tree, for a case-sensitive reader as well.
   */
  function FixedAddDocumentSections(nodes: seq<HtmlNode>, outerHtml: HtmlNode -> string, serialize: seq<Section> -> string): (out: seq<Piece>)
    ensures |out| >= 3 && out[0] == DivOpen && out[|out| - 2] == DivClose
    ensures out[|out| - 1] == SectionsMarker(serialize(Forest(Reference(Headings(nodes)))))
    ensures HtmlOf(out) == EmittedHtml(nodes, outerHtml)
    ensures Balanced(Tags(out, true))
    ensures Nesting(Tags(out, true)).value.parents == Parents(Reference(Headings(nodes)))
    ensures Count(Tags(out, true), CloseTag) == |Headings(nodes)|
  {
    AddSections(nodes, outerHtml, serialize, true)
  }

  /**
    As written, a case-sensitive reader sees the final `</Section>` closes and nothing else:
    it finds the markup balanced only if no heading ever closed a section before the end.
   */
  lemma AsWrittenCaseSensitive(nodes: seq<HtmlNode>, outerHtml: HtmlNode -> string, serialize: seq<Section> -> string)
    ensures Balanced(Tags(AddDocumentSections(nodes, outerHtml, serialize), true)) ==>
            |Scan(nodes, outerHtml, false).builder.stack| == |Headings(nodes)|
  {
    var p := Scan(nodes, outerHtml, false);
    var json := serialize(Forest(p.builder.entries));
    AsWrittenIsFinished(nodes, outerHtml, serialize);
    ScanWritesLowerCloses(nodes, outerHtml);
    SensitiveBalance(p.out, |p.builder.stack|, json, |Headings(nodes)|);
  }

  lemma AsWrittenIsFinished(nodes: seq<HtmlNode>, outerHtml: HtmlNode -> string, serialize: seq<Section> -> string)
    ensures var p := Scan(nodes, outerHtml, false);
            AddDocumentSections(nodes, outerHtml, serialize) ==
            Finished(p.out, |p.builder.stack|, serialize(Forest(p.builder.entries)))
  {
  }

  /** As written, the scan itself writes no `</Section>`: its closes are all `</section>`. */
  lemma ScanWritesLowerCloses(nodes: seq<HtmlNode>, outerHtml: HtmlNode -> string)
    ensures var out := Scan(nodes, outerHtml, false).out;
            forall k :: 0 <= k < |out| ==> out[k] != SectionClose(true)
  {
    var out := Scan(nodes, outerHtml, false).out;
    forall k | 0 <= k < |out| ensures out[k] != SectionClose(true) {
      if k > 0 {
        assert Inner(out[k], false);
      }
    }
  }

  lemma SensitiveBalance(out: seq<Piece>, open: nat, json: string, headings: nat)
    requires forall k :: 0 <= k < |out| ==> out[k] != SectionClose(true)
    requires Count(Tags(Finished(out, open, json), false), OpenTag) == headings
    ensures Balanced(Tags(Finished(out, open, json), true)) ==> open == headings
  {
    var r := Finished(out, open, json);
    SensitiveCloses(out, open, json);
    CountSamePlaces(Tags(r, true), Tags(r, false), OpenTag);
    if Balanced(Tags(r, true)) {
      NestingCounts(Tags(r, true));
    }
  }

  /** Read case-sensitively, the only closes of the as-written output are the final ones. */
  lemma SensitiveCloses(out: seq<Piece>, open: nat, json: string)
    requires forall k :: 0 <= k < |out| ==> out[k] != SectionClose(true)
    ensures Count(Tags(Finished(out, open, json), true), CloseTag) == open
  {
    var t := Tags(out, true);
    var tail := Closes(open) + [NoTag, NoTag];
    TagsFinished(out, open, json, true);
    assert t + Closes(open) + [NoTag, NoTag] == t + tail;
    CountAppend(t, tail, CloseTag);
    CountSamePlaces(t, seq(|t|, k => NoTag), CloseTag);
    CountNone(|t|);
    CountAppend(Closes(open), [NoTag, NoTag], CloseTag);
    CountCloses(open);
    assert Count([NoTag, NoTag], CloseTag) == 0 by {
      assert [NoTag, NoTag][..1] == [NoTag];
    }
  }

  lemma {:induction false} CountNone(n: nat)
    ensures Count(seq(n, k => NoTag), CloseTag) == 0
    decreases n
  {
    if n > 0 {
      assert seq(n, k => NoTag)[..n - 1] == seq(n - 1, k => NoTag);
      CountNone(n - 1);
    }
  }

  const TwoTopHeadings: seq<HtmlNode> := [HtmlNode("h1", [], "A"), HtmlNode("h1", [], "B")]

  lemma TwoTopHeadingsInfo()
    ensures Headings(TwoTopHeadings) == [HeadingInfo("", "A", 1), HeadingInfo("", "B", 1)]
  {
    var nodes := TwoTopHeadings;
    assert nodes[..1][..0] == [];
    assert Headings(nodes[..1]) == [HeadingInfo("", "A", 1)];
  }

  /** Two `h1` nodes are two headings, and the second closes the first: one section stays open. */
  lemma TwoTopHeadingsScan(outerHtml: HtmlNode -> string)
    ensures |Headings(TwoTopHeadings)| == 2
    ensures |Scan(TwoTopHeadings, outerHtml, false).builder.stack| <= 1
  {
    var hs := [HeadingInfo("", "A", 1), HeadingInfo("", "B", 1)];
    TwoTopHeadingsInfo();
    var b := Scan(TwoTopHeadings, outerHtml, false).builder;
    ScanSections(TwoTopHeadings, outerHtml, false);
    ReferenceNearest(hs);
    assert b.entries[0].level == 1 && b.entries[1].level == 1;
    StackLevelsIncrease(b);
  }

  /**
    Two `h1` nodes: the second pops the first with `</section>`, so a case-sensitive reader
    finds two `<Section>` tags and only one `</Section>`.
   */
  lemma AsWrittenUnbalancedForCaseSensitiveReader(outerHtml: HtmlNode -> string, serialize: seq<Section> -> string)
    ensures !Balanced(Tags(AddDocumentSections(TwoTopHeadings, outerHtml, serialize), true))
  {
    TwoTopHeadingsScan(outerHtml);
    AsWrittenCaseSensitive(TwoTopHeadings, outerHtml, serialize);
  }
}
