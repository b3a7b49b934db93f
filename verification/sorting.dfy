/**
  Sorting by a caller-supplied order, for `OrderBy(p => p.Slug)` and
  `List.Sort((a, b) => a.SortOrder.CompareTo(b.SortOrder))`.  The contract is a sorted
  permutation and nothing more: among elements the order ranks equal, `List.Sort` promises
  no particular arrangement, so neither does the model.
 */
module Sorting {

  /** `le` is a total preorder: any two elements compare, and comparisons chain. */
  ghost predicate TotalPreorder<T(!new)>(le: (T, T) -> bool) {
    && (forall a, b :: le(a, b) || le(b, a))
    && (forall a, b, c :: le(a, b) && le(b, c) ==> le(a, c))
  }

  predicate SortedBy<T>(s: seq<T>, le: (T, T) -> bool) {
    forall i, j :: 0 <= i < j < |s| ==> le(s[i], s[j])
  }

  /** `x` placed into the sorted `s` before the first element it does not follow. */
  function InsertBy<T(!new)>(x: T, s: seq<T>, le: (T, T) -> bool): (r: seq<T>)
    requires TotalPreorder(le) && SortedBy(s, le)
    ensures SortedBy(r, le)
    ensures multiset(r) == multiset(s) + multiset{x}
    decreases |s|
  {
    if |s| == 0 then [x]
    else if le(x, s[0]) then
      assert forall j :: 0 <= j < |s| ==> le(s[0], s[j]) ==> le(x, s[j]);
      [x] + s
    else
      var rest := InsertBy(x, s[1..], le);
      HeadStaysFirst(x, s, rest, le);
      [s[0]] + rest
  }

  /** When `x` goes after the head of `s`, that head still precedes everything else. */
  lemma HeadStaysFirst<T(!new)>(x: T, s: seq<T>, rest: seq<T>, le: (T, T) -> bool)
    requires TotalPreorder(le) && SortedBy(s, le) && |s| > 0 && !le(x, s[0])
    requires SortedBy(rest, le) && multiset(rest) == multiset(s[1..]) + multiset{x}
    ensures SortedBy([s[0]] + rest, le)
    ensures multiset([s[0]] + rest) == multiset(s) + multiset{x}
  {
    assert le(s[0], x);
    forall j | 0 <= j < |rest|
      ensures le(s[0], rest[j])
    {
      assert rest[j] in multiset(rest);
      if rest[j] != x {
        var k := IndexOf(s[1..], rest[j]);
        assert s[k + 1] == rest[j];
      }
    }
    assert s == [s[0]] + s[1..];
  }

  function SortBy<T(!new)>(s: seq<T>, le: (T, T) -> bool): (r: seq<T>)
    requires TotalPreorder(le)
    ensures SortedBy(r, le)
    ensures multiset(r) == multiset(s)
    decreases |s|
  {
    if |s| == 0 then []
    else
      assert s == [s[0]] + s[1..];
      InsertBy(s[0], SortBy(s[1..], le), le)
  }

  /** Every element strictly precedes every later one: `s` is sorted and has no ties. */
  predicate StrictlySortedBy<T>(s: seq<T>, le: (T, T) -> bool) {
    forall i, j :: 0 <= i < j < |s| ==> !le(s[j], s[i])
  }

  /**
    A sequence without ties has only one sorted arrangement: any sorted permutation of it is
    the sequence itself, whether or not the sort that produced it is stable.
   */
  lemma {:induction false} SortedPermutationUnique<T(!new)>(s: seq<T>, t: seq<T>, le: (T, T) -> bool)
    requires TotalPreorder(le) && StrictlySortedBy(s, le)
    requires SortedBy(t, le) && multiset(t) == multiset(s)
    ensures t == s
    decreases |s|
  {
    if |s| > 0 {
      assert s[0] in multiset(t) && t[0] in multiset(s);
      var k := IndexOf(t, s[0]);
      var m := IndexOf(s, t[0]);
      SortedHeadFirst(t, le);
      assert le(t[0], t[k]);
      assert m == 0;
      assert s == [s[0]] + s[1..] && t == [t[0]] + t[1..];
      assert multiset(t[1..]) == multiset(t) - multiset{t[0]};
      assert multiset(s[1..]) == multiset(s) - multiset{s[0]};
      SortedPermutationUnique(s[1..], t[1..], le);
    }
  }

  /** The head of a sorted sequence precedes every element, itself included. */
  lemma SortedHeadFirst<T(!new)>(t: seq<T>, le: (T, T) -> bool)
    requires TotalPreorder(le) && SortedBy(t, le) && |t| > 0
    ensures forall j :: 0 <= j < |t| ==> le(t[0], t[j])
  {
    var h := t[0];
    assert le(h, h) || le(h, h);
  }

  /** Sorting a sequence that is already in order and has no ties leaves it as it is. */
  lemma SortSorted<T(!new)>(s: seq<T>, le: (T, T) -> bool)
    requires TotalPreorder(le) && StrictlySortedBy(s, le)
    ensures SortBy(s, le) == s
  {
    SortedPermutationUnique(s, SortBy(s, le), le);
  }

  /** Where `x` sits in `s`, given that it is there. */
  function IndexOf<T(==)>(s: seq<T>, x: T): (k: nat)
    requires x in s
    ensures k < |s| && s[k] == x
    decreases |s|
  {
    if s[0] == x then 0 else 1 + IndexOf(s[1..], x)
  }

  /** Nothing before the index `IndexOf` gives is `x`: it finds the first copy. */
  lemma IndexOfFirst<T>(s: seq<T>, x: T, j: nat)
    requires x in s && j < IndexOf(s, x)
    ensures s[j] != x
  {
    if j > 0 {
      IndexOfFirst(s[1..], x, j - 1);
    }
  }

  lemma RemoveAt<T>(t: seq<T>, k: nat)
    requires k < |t|
    ensures multiset(t[..k] + t[k + 1..]) == multiset(t) - multiset{t[k]}
  {
    assert t == t[..k] + [t[k]] + t[k + 1..];
  }

  /** Where the last element of `s` sits in its reordering `t`; without it, `t` is a reordering of the rest of `s`. */
  lemma RemoveMatching<T>(s: seq<T>, t: seq<T>) returns (k: nat)
    requires |s| > 0 && multiset(s) == multiset(t)
    ensures k < |t| && t[k] == s[|s| - 1]
    ensures multiset(t[..k] + t[k + 1..]) == multiset(s[..|s| - 1])
  {
    var m := |s| - 1;
    assert s[m] in multiset(t);
    k := IndexOf(t, s[m]);
    RemoveAt(t, k);
    RemoveAt(s, m);
    assert s[..m] + s[m + 1..] == s[..m];
  }
}
