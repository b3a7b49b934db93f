/**
  The heading-stack discipline both section builders share (DocumentSectionRenderer.Write
  and HtmlParser.AddDocumentSections): on a heading of level `L`, pop every open section of
  level `L` or deeper, attach the new section under the innermost section still open (or to
  the root list), and push it.

  Sections live in an arena: `entries[j]` is the `j`-th heading seen, and its `parent` is
  the index of the section it was attached to, exactly the reference the C# stores when it
  adds the new object to `Children` (or to the root list, `None`).  `Forest` rebuilds the
  `Section` objects from the arena, children in the order they were attached.
 */
module SectionTree {
  import opened Wrappers
  import opened MarkupNesting

  /** A section of a document (Types/Section.cs): one heading and what is nested under it. */
  datatype Section = Section(id: string, text: string, children: seq<Section>)

  /** The builder's record of one heading: its section's fields, its level, and where it was attached. */
  datatype Entry = Entry(id: string, text: string, level: int, parent: Option<nat>)

  /** The builder: every section created so far, and the stack of still-open sections, outermost first. */
  datatype Builder = Builder(entries: seq<Entry>, stack: seq<nat>)

  const EmptyBuilder := Builder([], [])

  /**
    The reference meaning of the stack discipline, independent of any stack: a heading of
    `level` nests under the latest heading before index `bound` whose level is smaller, and
    becomes a root when there is none.
   */
  function NearestShallower(es: seq<Entry>, level: int, bound: nat): (r: Option<nat>)
    requires bound <= |es|
    ensures r.Some? ==> r.value < bound && es[r.value].level < level
    ensures r.Some? ==> forall k :: r.value < k < bound ==> es[k].level >= level
    ensures r.None? ==> forall k :: 0 <= k < bound ==> es[k].level >= level
    decreases bound
  {
    if bound == 0 then None
    else if es[bound - 1].level < level then Some(bound - 1)
    else NearestShallower(es, level, bound - 1)
  }

  lemma {:induction false} NearestShallowerExtend(es: seq<Entry>, e: Entry, level: int, bound: nat)
    requires bound <= |es|
    ensures NearestShallower(es + [e], level, bound) == NearestShallower(es, level, bound)
    decreases bound
  {
    if bound > 0 {
      assert (es + [e])[bound - 1] == es[bound - 1];
      NearestShallowerExtend(es, e, level, bound - 1);
    }
  }

  /** Section `i` is still open: no later heading has come at its level or shallower. */
  ghost predicate IsOpen(es: seq<Entry>, i: nat)
    requires i < |es|
  {
    forall k :: i < k < |es| ==> es[k].level > es[i].level
  }

  /**
    The builder invariant.  The stack holds, in index order, exactly the sections still open,
    and every section's parent is its nearest shallower predecessor.
   */
  ghost predicate Valid(b: Builder) {
    && StackAscending(b)
    && StackHoldsOpen(b)
    && OpenOnStack(b)
    && ParentsNearest(b.entries)
  }

  /** The stack holds arena indices in increasing order. */
  ghost predicate StackAscending(b: Builder) {
    && (forall k :: 0 <= k < |b.stack| ==> b.stack[k] < |b.entries|)
    && (forall k, m :: 0 <= k < m < |b.stack| ==> b.stack[k] < b.stack[m])
  }

  /** Only open sections are on the stack. */
  ghost predicate StackHoldsOpen(b: Builder)
    requires StackAscending(b)
  {
    forall k :: 0 <= k < |b.stack| ==> IsOpen(b.entries, b.stack[k])
  }

  /** Every open section is on the stack. */
  ghost predicate OpenOnStack(b: Builder) {
    forall i :: 0 <= i < |b.entries| && IsOpen(b.entries, i) ==> Position(b.stack, i) < |b.stack|
  }

  /** Where `x` sits in `s`: the first index holding it, or `|s|` when it is absent. */
  function Position(s: seq<nat>, x: nat): (r: nat)
    ensures r <= |s|
    ensures r < |s| ==> s[r] == x
    ensures r == |s| ==> forall k :: 0 <= k < |s| ==> s[k] != x
    decreases |s|
  {
    if |s| == 0 then 0
    else if s[0] == x then 0
    else 1 + Position(s[1..], x)
  }

  /** Every section is attached to its nearest shallower predecessor. */
  ghost predicate ParentsNearest(es: seq<Entry>) {
    forall j :: 0 <= j < |es| ==> HasNearestParent(es, j)
  }

  /** Entry `j` is attached to its nearest shallower predecessor. */
  ghost predicate HasNearestParent(es: seq<Entry>, j: nat)
    requires j < |es|
  {
    es[j].parent == NearestShallower(es, es[j].level, j)
  }

  /** The levels of the open sections strictly increase from the bottom of the stack to the top. */
  lemma StackLevelsIncrease(b: Builder)
    requires StackAscending(b) && StackHoldsOpen(b)
    ensures forall k, m :: 0 <= k < m < |b.stack| ==> b.entries[b.stack[k]].level < b.entries[b.stack[m]].level
  {
    forall k, m | 0 <= k < m < |b.stack|
      ensures b.entries[b.stack[k]].level < b.entries[b.stack[m]].level
    {
      assert IsOpen(b.entries, b.stack[k]);
      assert b.stack[k] < b.stack[m] < |b.entries|;
    }
  }

  /** Every section comes after its parent and has a strictly greater level. */
  lemma ParentIsShallower(b: Builder, j: nat)
    requires Valid(b) && j < |b.entries| && b.entries[j].parent.Some?
    ensures b.entries[j].parent.value < j
    ensures b.entries[b.entries[j].parent.value].level < b.entries[j].level
  {
    assert HasNearestParent(b.entries, j);
  }

  /**
    The `while (stack.Count > 0 && stack.Peek().level >= level) stack.Pop()` loop: what is
    kept is a prefix of the stack whose top is shallower than `level`, and everything popped
    is at `level` or deeper.
   */
  function Pop(es: seq<Entry>, stack: seq<nat>, level: int): (kept: seq<nat>)
    requires forall k :: 0 <= k < |stack| ==> stack[k] < |es|
    ensures |kept| <= |stack| && kept == stack[..|kept|]
    ensures |kept| > 0 ==> es[kept[|kept| - 1]].level < level
    ensures forall k :: |kept| <= k < |stack| ==> es[stack[k]].level >= level
    decreases |stack|
  {
    if |stack| > 0 && es[stack[|stack| - 1]].level >= level then Pop(es, stack[..|stack| - 1], level)
    else stack
  }

  /** Every section the pops leave open is shallower than the new heading. */
  lemma KeptAreShallower(b: Builder, level: int)
    requires StackAscending(b) && StackHoldsOpen(b)
    ensures var kept := Pop(b.entries, b.stack, level);
            forall k :: 0 <= k < |kept| ==> b.entries[kept[k]].level < level
  {
    var es := b.entries;
    var kept := Pop(es, b.stack, level);
    StackLevelsIncrease(b);
    forall k | 0 <= k < |kept|
      ensures es[kept[k]].level < level
    {
      var t := |kept| - 1;
      assert kept[k] == b.stack[k] && kept[t] == b.stack[t];
      assert es[kept[t]].level < level;
      if k < t {
        assert es[b.stack[k]].level < es[b.stack[t]].level;
      }
    }
  }

  /** The innermost section the pops leave open is the nearest shallower heading. */
  lemma PopFindsParent(b: Builder, level: int)
    requires StackAscending(b) && OpenOnStack(b)
    requires var kept := Pop(b.entries, b.stack, level);
             forall k :: 0 <= k < |kept| ==> b.entries[kept[k]].level < level
    ensures Innermost(Pop(b.entries, b.stack, level)) == NearestShallower(b.entries, level, |b.entries|)
  {
    var es := b.entries;
    var ns := NearestShallower(es, level, |es|);
    if ns.Some? {
      var i := ns.value;
      assert IsOpen(es, i) by {
        forall k | i < k < |es| ensures es[k].level > es[i].level {
        }
      }
      var m := Position(b.stack, i);
      PopKeepsNearest(b, level, m);
    } else {
      PopKeepsNothing(b, level);
    }
  }

  /** When the nearest shallower heading is on the stack, the pops stop right at it. */
  lemma PopKeepsNearest(b: Builder, level: int, m: nat)
    requires StackAscending(b)
    requires m < |b.stack|
    requires NearestShallower(b.entries, level, |b.entries|) == Some(b.stack[m])
    ensures Innermost(Pop(b.entries, b.stack, level)) == Some(b.stack[m])
  {
    var es := b.entries;
    var kept := Pop(es, b.stack, level);
    var i := b.stack[m];
    assert m < |kept|;
    var top := kept[|kept| - 1];
    assert top == b.stack[|kept| - 1];
    assert top <= i;
  }

  /** When no earlier heading is shallower, every section is popped. */
  lemma PopKeepsNothing(b: Builder, level: int)
    requires StackAscending(b)
    requires NearestShallower(b.entries, level, |b.entries|).None?
    ensures Pop(b.entries, b.stack, level) == []
  {
  }

  /** The builder `Push` returns, before anything is known about it. */
  function Pushed(b: Builder, id: string, text: string, level: int): Builder
    requires StackAscending(b)
  {
    var kept := Pop(b.entries, b.stack, level);
    Builder(b.entries + [Entry(id, text, level, Innermost(kept))], kept + [|b.entries|])
  }

  /**
    One heading: pop, attach to the innermost open section (or the root list), push.
    Exactly one section is added, nothing recorded before changes, the new section's
    parent is its nearest shallower predecessor, and the invariant is kept.
   */
  function Push(b: Builder, id: string, text: string, level: int): (r: Builder)
    requires Valid(b)
    ensures Valid(r)
    ensures r.entries == b.entries + [Entry(id, text, level, NearestShallower(b.entries, level, |b.entries|))]
    ensures r.stack == Pop(b.entries, b.stack, level) + [|b.entries|]
    ensures forall k, m :: 0 <= k < m < |r.stack| ==> r.entries[r.stack[k]].level < r.entries[r.stack[m]].level
  {
    var r := Pushed(b, id, text, level);
    KeptAreShallower(b, level);
    PopFindsParent(b, level);
    PushKeepsValid(b, id, text, level);
    StackLevelsIncrease(r);
    r
  }

  lemma PushKeepsValid(b: Builder, id: string, text: string, level: int)
    requires Valid(b)
    ensures Valid(Pushed(b, id, text, level))
  {
    KeptAreShallower(b, level);
    PopFindsParent(b, level);
    PushedHoldsOpen(b, id, text, level);
    PushedOpenOnStack(b, id, text, level);
    PushedParentsNearest(b, id, text, level);
  }

  lemma PushedHoldsOpen(b: Builder, id: string, text: string, level: int)
    requires StackAscending(b) && StackHoldsOpen(b)
    requires var kept := Pop(b.entries, b.stack, level);
             forall k :: 0 <= k < |kept| ==> b.entries[kept[k]].level < level
    ensures StackAscending(Pushed(b, id, text, level))
    ensures StackHoldsOpen(Pushed(b, id, text, level))
  {
    PushedAscending(b, id, text, level);
    var es := b.entries;
    var kept := Pop(es, b.stack, level);
    var e := Entry(id, text, level, Innermost(kept));
    var r := Pushed(b, id, text, level);
    assert r.entries == es + [e];
    forall k | 0 <= k < |r.stack|
      ensures IsOpen(r.entries, r.stack[k])
    {
      if k < |kept| {
        assert r.stack[k] == b.stack[k];
        OpenStaysOpen(es, e, kept[k]);
      }
    }
  }

  lemma PushedAscending(b: Builder, id: string, text: string, level: int)
    requires StackAscending(b)
    ensures StackAscending(Pushed(b, id, text, level))
  {
  }

  /** A section stays open when a deeper heading follows. */
  lemma OpenStaysOpen(es: seq<Entry>, e: Entry, i: nat)
    requires i < |es| && IsOpen(es, i) && e.level > es[i].level
    ensures IsOpen(es + [e], i)
  {
    var es' := es + [e];
    forall k | i < k < |es'| ensures es'[k].level > es'[i].level {
      if k < |es| {
        assert es'[k] == es[k];
      }
    }
  }

  lemma PushedOpenOnStack(b: Builder, id: string, text: string, level: int)
    requires StackAscending(b) && OpenOnStack(b)
    ensures OpenOnStack(Pushed(b, id, text, level))
  {
    var es := b.entries;
    var n := |es|;
    var kept := Pop(es, b.stack, level);
    var r := Pushed(b, id, text, level);
    var es' := r.entries;
    forall i | 0 <= i < |es'| && IsOpen(es', i)
      ensures Position(r.stack, i) < |r.stack|
    {
      if i < n {
        assert IsOpen(es, i) by {
          forall k | i < k < n ensures es[k].level > es[i].level {
            assert es'[k] == es[k];
          }
        }
        var m := Position(b.stack, i);
        assert es'[n].level > es[i].level;
        assert m < |kept|;
        assert r.stack[m] == i;
      } else {
        assert r.stack[|kept|] == i;
      }
    }
  }

  lemma PushedParentsNearest(b: Builder, id: string, text: string, level: int)
    requires StackAscending(b) && ParentsNearest(b.entries)
    requires Innermost(Pop(b.entries, b.stack, level)) == NearestShallower(b.entries, level, |b.entries|)
    ensures ParentsNearest(Pushed(b, id, text, level).entries)
  {
    var es := b.entries;
    var n := |es|;
    var es' := Pushed(b, id, text, level).entries;
    forall j | 0 <= j < |es'|
      ensures HasNearestParent(es', j)
    {
      NearestShallowerExtend(es, es'[n], es'[j].level, j);
      if j < n {
        assert HasNearestParent(es, j);
      }
    }
  }

  /** The section at arena index `i`, with its children rebuilt from the parent references. */
  function Tree(es: seq<Entry>, i: nat): Section
    requires i < |es|
    decreases |es| - i, 0
  {
    Section(es[i].id, es[i].text, ChildrenOf(es, Some(i), i + 1))
  }

  /** The sections from index `from` on attached to `parent` (`None`: the root list), in creation order. */
  function ChildrenOf(es: seq<Entry>, parent: Option<nat>, from: nat): seq<Section>
    decreases |es| - from, 1
  {
    if from >= |es| then []
    else (if es[from].parent == parent then [Tree(es, from)] else []) + ChildrenOf(es, parent, from + 1)
  }

  /** The root list (`_sections` / `rootDocumentSections`) with every section's children filled in. */
  function Forest(es: seq<Entry>): seq<Section> {
    ChildrenOf(es, None, 0)
  }

  /** The serialized order of a list of sections: each section, then its children, then the rest. */
  function Preorder(ss: seq<Section>): seq<(string, string)>
    decreases ss
  {
    if |ss| == 0 then []
    else
      assert ss[0] in ss;
      [(ss[0].id, ss[0].text)] + Preorder(ss[0].children) + Preorder(ss[1..])
  }

  lemma {:induction false} PreorderAppend(a: seq<Section>, b: seq<Section>)
    ensures Preorder(a + b) == Preorder(a) + Preorder(b)
    decreases |a|
  {
    if |a| == 0 {
      assert a + b == b;
    } else {
      assert (a + b)[0] == a[0] && (a + b)[1..] == a[1..] + b;
      PreorderAppend(a[1..], b);
    }
  }

  /** The (id, text) of the entries from `a` up to `b`, in creation order. */
  function Labels(es: seq<Entry>, a: nat, b: nat): (ls: seq<(string, string)>)
    requires a <= b <= |es|
    ensures |ls| == b - a && forall k :: 0 <= k < b - a ==> ls[k] == (es[a + k].id, es[a + k].text)
  {
    seq(b - a, k requires 0 <= k < b - a => (es[a + k].id, es[a + k].text))
  }

  lemma LabelsSplit(es: seq<Entry>, a: nat, m: nat, b: nat)
    requires a <= m <= b <= |es|
    ensures Labels(es, a, m) + Labels(es, m, b) == Labels(es, a, b)
  {
  }

  /**
    Where the section opened by entry `i` ends: the first later entry at its level or
    shallower (the heading that pops it), or the end of the arena.  Every entry in between
    is deeper.
   */
  function SubtreeEnd(es: seq<Entry>, i: nat, k: nat): (r: nat)
    requires i < k <= |es|
    requires forall m :: i < m < k ==> es[m].level > es[i].level
    ensures k <= r <= |es|
    ensures forall m :: i < m < r ==> es[m].level > es[i].level
    ensures r < |es| ==> es[r].level <= es[i].level
    decreases |es| - k
  {
    if k == |es| || es[k].level <= es[i].level then k else SubtreeEnd(es, i, k + 1)
  }

  function End(es: seq<Entry>, i: nat): (r: nat)
    requires i < |es|
    ensures i < r <= |es|
    ensures forall m :: i < m < r ==> es[m].level > es[i].level
    ensures r < |es| ==> es[r].level <= es[i].level
  {
    SubtreeEnd(es, i, i + 1)
  }

  /** Under nearest-shallower parents, `i` is the parent of `k` when it is the latest shallower entry before `k`. */
  lemma ParentIsSome(es: seq<Entry>, i: nat, k: nat)
    requires ParentsNearest(es) && i < k < |es|
    requires es[i].level < es[k].level && forall m :: i < m < k ==> es[m].level >= es[k].level
    ensures es[k].parent == Some(i)
  {
    assert HasNearestParent(es, k);
  }

  /** ... and a root when no earlier entry is shallower. */
  lemma ParentIsNone(es: seq<Entry>, k: nat)
    requires ParentsNearest(es) && k < |es|
    requires forall m :: 0 <= m < k ==> es[m].level >= es[k].level
    ensures es[k].parent == None
  {
    assert HasNearestParent(es, k);
  }

  /** An entry deeper than an earlier entry `f` hangs below `f`: its parent is `f` or later. */
  lemma ParentNotBefore(es: seq<Entry>, f: nat, m: nat)
    requires ParentsNearest(es) && f < m < |es| && es[f].level < es[m].level
    ensures es[m].parent.Some? && f <= es[m].parent.value
  {
    assert HasNearestParent(es, m);
  }

  /** A parent is followed only by its own subtree's entries: nothing from `End(i)` on hangs under `i`. */
  lemma NoChildAfterEnd(es: seq<Entry>, i: nat, k: nat)
    requires ParentsNearest(es) && i < |es| && End(es, i) <= k < |es|
    ensures es[k].parent != Some(i)
  {
    assert HasNearestParent(es, k);
  }

  lemma {:induction false} ChildrenSkip(es: seq<Entry>, parent: Option<nat>, a: nat, b: nat)
    requires a <= b <= |es|
    requires forall m :: a <= m < b ==> es[m].parent != parent
    ensures ChildrenOf(es, parent, a) == ChildrenOf(es, parent, b)
    decreases b - a
  {
    if a < b {
      ChildrenSkip(es, parent, a + 1, b);
    }
  }

  /** The children of `parent` found from `f + 1` on are those found from the end of `f`'s subtree on. */
  lemma SkipSubtree(es: seq<Entry>, parent: Option<nat>, f: nat)
    requires ParentsNearest(es) && f < |es|
    requires parent.Some? ==> parent.value < f
    ensures ChildrenOf(es, parent, f + 1) == ChildrenOf(es, parent, End(es, f))
  {
    forall m | f + 1 <= m < End(es, f)
      ensures es[m].parent != parent
    {
      ParentNotBefore(es, f, m);
    }
    ChildrenSkip(es, parent, f + 1, End(es, f));
  }

  /** A section's serialized subtree is exactly the entries from it up to the end of its subtree. */
  lemma {:induction false} TreePreorder(es: seq<Entry>, i: nat)
    requires ParentsNearest(es) && i < |es|
    ensures Preorder([Tree(es, i)]) == Labels(es, i, End(es, i))
    decreases |es| - i, 0
  {
    var e := End(es, i);
    if i + 1 < e {
      ParentIsSome(es, i, i + 1);
    }
    ChildrenPreorder(es, i, i + 1);
    assert [Tree(es, i)][1..] == [];
    LabelsSplit(es, i, i + 1, e);
  }

  /**
    The serialized children of `i` from a child boundary `f` on (the next child, or the end of
    `i`'s subtree) are exactly the entries from `f` up to the end of `i`'s subtree.
   */
  lemma {:induction false} ChildrenPreorder(es: seq<Entry>, i: nat, f: nat)
    requires ParentsNearest(es) && i < |es| && i < f <= End(es, i)
    requires f < End(es, i) ==> es[f].parent == Some(i)
    ensures Preorder(ChildrenOf(es, Some(i), f)) == Labels(es, f, End(es, i))
    decreases |es| - f, 1
  {
    var e := End(es, i);
    if f == e {
      forall k | e <= k < |es| ensures es[k].parent != Some(i) {
        NoChildAfterEnd(es, i, k);
      }
      ChildrenSkip(es, Some(i), e, |es|);
    } else {
      var g := End(es, f);
      assert HasNearestParent(es, f);
      TreePreorder(es, f);
      SkipSubtree(es, Some(i), f);
      if g < e {
        ParentIsSome(es, i, g);
      }
      ChildrenPreorder(es, i, g);
      PreorderAppend([Tree(es, f)], ChildrenOf(es, Some(i), g));
      LabelsSplit(es, f, g, e);
    }
  }

  /** The same for the root list, from a root boundary `f` on. */
  lemma {:induction false} RootsPreorder(es: seq<Entry>, f: nat)
    requires ParentsNearest(es) && f <= |es|
    requires forall m :: 0 <= m < f ==> f < |es| ==> es[m].level >= es[f].level
    ensures Preorder(ChildrenOf(es, None, f)) == Labels(es, f, |es|)
    decreases |es| - f
  {
    if f < |es| {
      var g := End(es, f);
      ParentIsNone(es, f);
      TreePreorder(es, f);
      SkipSubtree(es, None, f);
      if g < |es| {
        ParentIsNone(es, g);
      }
      RootsPreorder(es, g);
      PreorderAppend([Tree(es, f)], ChildrenOf(es, None, g));
      LabelsSplit(es, f, g, |es|);
    }
  }

  /**
    The serialized section tree lists every section exactly once, in the order the headings
    came: a section is followed by its whole subtree before its next sibling.
   */
  lemma ForestPreorder(es: seq<Entry>)
    requires ParentsNearest(es)
    ensures Preorder(Forest(es)) == Labels(es, 0, |es|)
  {
    RootsPreorder(es, 0);
  }

  /** The tree the markers carry lists every heading's id and text exactly once, in document order. */
  lemma ReferenceForest(hs: seq<HeadingInfo>)
    ensures var listed := Preorder(Forest(Reference(hs)));
            |listed| == |hs| && forall k :: 0 <= k < |hs| ==> listed[k] == (hs[k].id, hs[k].text)
  {
    ReferenceNearest(hs);
    ForestPreorder(Reference(hs));
  }

  /** The parent reference of every section, in creation order. */
  function Parents(es: seq<Entry>): (ps: seq<Option<nat>>)
    ensures |ps| == |es| && forall j :: 0 <= j < |es| ==> ps[j] == es[j].parent
  {
    seq(|es|, j requires 0 <= j < |es| => es[j].parent)
  }

  lemma ParentsAppend(es: seq<Entry>, e: Entry)
    ensures Parents(es + [e]) == Parents(es) + [e.parent]
  {
  }

  /** What one heading contributes to the section it opens: id, text and level. */
  datatype HeadingInfo = HeadingInfo(id: string, text: string, level: int)

  /**
    The sections a list of headings should yield, defined without any stack: each heading
    becomes a section attached to its nearest shallower predecessor.
   */
  function Reference(hs: seq<HeadingInfo>): (es: seq<Entry>)
    ensures |es| == |hs|
    decreases |hs|
  {
    if |hs| == 0 then []
    else
      var es := Reference(hs[..|hs| - 1]);
      var h := hs[|hs| - 1];
      es + [Entry(h.id, h.text, h.level, NearestShallower(es, h.level, |es|))]
  }

  /** Entry `k` records heading `k`: its id, its text and its level. */
  ghost predicate Records(hs: seq<HeadingInfo>, es: seq<Entry>) {
    && |es| == |hs|
    && forall k :: 0 <= k < |hs| ==>
         es[k].id == hs[k].id && es[k].text == hs[k].text && es[k].level == hs[k].level
  }

  /** The reference records the headings and attaches every entry to its nearest shallower predecessor. */
  lemma {:induction false} ReferenceNearest(hs: seq<HeadingInfo>)
    ensures Records(hs, Reference(hs))
    ensures ParentsNearest(Reference(hs))
    decreases |hs|
  {
    if |hs| > 0 {
      var m := |hs| - 1;
      var pre := Reference(hs[..m]);
      var es := Reference(hs);
      ReferenceNearest(hs[..m]);
      assert es[..m] == pre;
      forall j | 0 <= j < |es| ensures HasNearestParent(es, j) {
        NearestShallowerExtend(pre, es[m], es[j].level, j);
        if j < m {
          assert HasNearestParent(pre, j);
        }
      }
    }
  }

  /** ... and it is the only arena that does. */
  lemma {:induction false} ReferenceUnique(hs: seq<HeadingInfo>, es: seq<Entry>)
    requires Records(hs, es)
    requires ParentsNearest(es)
    ensures Reference(hs) == es
    decreases |hs|
  {
    if |hs| > 0 {
      var m := |hs| - 1;
      var pre := es[..m];
      assert es == pre + [es[m]];
      forall j | 0 <= j < m ensures HasNearestParent(pre, j) {
        assert HasNearestParent(es, j);
        NearestShallowerExtend(pre, es[m], es[j].level, j);
      }
      ReferenceUnique(hs[..m], pre);
      assert HasNearestParent(es, m);
      NearestShallowerExtend(pre, es[m], es[m].level, m);
    }
  }
}
