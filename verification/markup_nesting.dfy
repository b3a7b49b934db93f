/**
  How a reader of the emitted markup sees its section structure: a left-to-right scan
  that matches every close tag with the innermost open tag still unclosed.  Open tags are
  numbered in the order they appear; the scan records, for each one, the open tag that
  encloses it.  Only the section tags the builders write themselves are scanned: heading
  text and copied HTML count as no tag.  Both section builders are proved to write section
  tags whose scan gives back exactly the parent relation of the sections they build.
 */
module MarkupNesting {
  import opened Wrappers

  /** What one piece of emitted markup does to the nesting: opens a section, closes one, or neither. */
  datatype Tag = OpenTag | CloseTag | NoTag

  /**
    The state of the scan: `open` lists the numbers of the still-unclosed open tags,
    outermost first; `parents[j]` is the open tag enclosing open tag number `j`.
   */
  datatype Nest = Nest(open: seq<nat>, parents: seq<Option<nat>>)

  /** The innermost (last) entry of a stack of open tags, if any. */
  function Innermost(open: seq<nat>): (r: Option<nat>)
    ensures r.Some? <==> |open| > 0
    ensures r.Some? ==> r.value == open[|open| - 1]
  {
    if |open| == 0 then None else Some(open[|open| - 1])
  }

  /** Number of occurrences of `t` in `tags`. */
  function Count(tags: seq<Tag>, t: Tag): nat
    decreases |tags|
  {
    if |tags| == 0 then 0
    else Count(tags[..|tags| - 1], t) + (if tags[|tags| - 1] == t then 1 else 0)
  }

  function Step(n: Nest, t: Tag): Option<Nest> {
    match t
    case OpenTag => Some(Nest(n.open + [|n.parents|], n.parents + [Innermost(n.open)]))
    case CloseTag => if |n.open| == 0 then None else Some(n.(open := n.open[..|n.open| - 1]))
    case NoTag => Some(n)
  }

  /** The scan of `tags`; `None` when some close tag has no open tag left to close. */
  function Nesting(tags: seq<Tag>): Option<Nest>
    decreases |tags|
  {
    if |tags| == 0 then Some(Nest([], []))
    else
      match Nesting(tags[..|tags| - 1])
      case None => None
      case Some(n) => Step(n, tags[|tags| - 1])
  }

  /** Every open tag gets a parent entry, and is either still open or matched by exactly one close tag. */
  lemma {:induction false} NestingCounts(tags: seq<Tag>)
    requires Nesting(tags).Some?
    ensures |Nesting(tags).value.parents| == Count(tags, OpenTag)
    ensures |Nesting(tags).value.open| + Count(tags, CloseTag) == Count(tags, OpenTag)
    decreases |tags|
  {
    if |tags| > 0 {
      NestingCounts(tags[..|tags| - 1]);
    }
  }

  /** Balanced markup: every close tag matches an earlier open tag and nothing is left open. */
  predicate Balanced(tags: seq<Tag>) {
    Nesting(tags).Some? && Nesting(tags).value.open == []
  }

  function Closes(k: nat): (tags: seq<Tag>)
    ensures |tags| == k && forall i :: 0 <= i < k ==> tags[i] == CloseTag
  {
    seq(k, i => CloseTag)
  }

  lemma NestingAppend(tags: seq<Tag>, t: Tag)
    ensures Nesting(tags + [t]) == (if Nesting(tags).None? then None else Step(Nesting(tags).value, t))
  {
    assert (tags + [t])[..|tags|] == tags;
  }

  /** Appending `k` close tags pops exactly the `k` innermost open tags, as long as that many are open. */
  lemma {:induction false} NestingCloses(tags: seq<Tag>, k: nat)
    requires Nesting(tags).Some? && k <= |Nesting(tags).value.open|
    ensures var n := Nesting(tags).value;
            Nesting(tags + Closes(k)) == Some(n.(open := n.open[..|n.open| - k]))
    decreases k
  {
    var n := Nesting(tags).value;
    if k == 0 {
      assert tags + Closes(0) == tags;
      assert n.open[..|n.open|] == n.open;
    } else {
      NestingCloses(tags, k - 1);
      var before := tags + Closes(k - 1);
      var open := n.open[..|n.open| - (k - 1)];
      assert Nesting(before) == Some(n.(open := open));
      assert tags + Closes(k) == before + [CloseTag];
      NestingAppend(before, CloseTag);
      assert open[..|open| - 1] == n.open[..|n.open| - k];
    }
  }

  /**
    One heading's markup: `|stack| - |kept|` closes pop down to `kept`, then an open tag nests
    the next section inside the innermost kept one, then tag-free content.
   */
  lemma NestingPopPush(tags: seq<Tag>, stack: seq<nat>, parents: seq<Option<nat>>, kept: seq<nat>)
    requires |kept| <= |stack| && kept == stack[..|kept|]
    requires Nesting(tags) == Some(Nest(stack, parents))
    ensures Nesting(tags + Closes(|stack| - |kept|) + [OpenTag] + [NoTag]) ==
            Some(Nest(kept + [|parents|], parents + [Innermost(kept)]))
  {
    var k := |stack| - |kept|;
    NestingCloses(tags, k);
    var t1 := tags + Closes(k);
    assert Nesting(t1) == Some(Nest(kept, parents));
    NestingAppend(t1, OpenTag);
    var t2 := t1 + [OpenTag];
    assert Nesting(t2) == Some(Nest(kept + [|parents|], parents + [Innermost(kept)]));
    NestingAppend(t2, NoTag);
  }

  /** Closing every open tag leaves nothing open and keeps the parents. */
  lemma NestingCloseAll(tags: seq<Tag>, stack: seq<nat>, parents: seq<Option<nat>>)
    requires Nesting(tags) == Some(Nest(stack, parents))
    ensures Nesting(tags + Closes(|stack|)) == Some(Nest([], parents))
  {
    NestingCloses(tags, |stack|);
    assert stack[..0] == [];
  }

  lemma {:induction false} CountAppend(a: seq<Tag>, b: seq<Tag>, t: Tag)
    ensures Count(a + b, t) == Count(a, t) + Count(b, t)
    decreases |b|
  {
    if |b| == 0 {
      assert a + b == a;
    } else {
      var m := |b| - 1;
      CountAppend(a, b[..m], t);
      assert (a + b)[..|a + b| - 1] == a + b[..m];
    }
  }

  /** Two tag sequences that agree on where `t` occurs hold it equally often. */
  lemma {:induction false} CountSamePlaces(a: seq<Tag>, b: seq<Tag>, t: Tag)
    requires |a| == |b| && forall k :: 0 <= k < |a| ==> (a[k] == t) == (b[k] == t)
    ensures Count(a, t) == Count(b, t)
    decreases |a|
  {
    if |a| > 0 {
      CountSamePlaces(a[..|a| - 1], b[..|b| - 1], t);
    }
  }

  lemma {:induction false} CountCloses(k: nat)
    ensures Count(Closes(k), CloseTag) == k
    decreases k
  {
    if k > 0 {
      assert Closes(k)[..k - 1] == Closes(k - 1);
      CountCloses(k - 1);
    }
  }
}
