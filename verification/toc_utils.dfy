/**
  The site-wide table of contents: a trie over the segments of the page slugs.  Pages are
  taken in slug order; each page walks down from a synthetic root, reusing the child whose
  id is the next segment and creating it when there is none; the children of the node the
  walk ends at are then sorted by sort order.  At the end the root's children are sorted
  once more and returned.
 */
module TocUtils {
  import opened Wrappers
  import opened Strings
  import opened Sorting
  import opened Sequences

  /** What the table of contents reads from a page: its slug, title and front-matter metadata. */
  datatype Page = Page(slug: string, title: string, metadata: map<string, string>)

  datatype TocNode = TocNode(id: string, text: string, slug: string, sortOrder: int, children: seq<TocNode>)

  /** Everything about a node except its children. */
  datatype Label = Label(id: string, text: string, slug: string, sortOrder: int)

  function LabelOf(n: TocNode): Label {
    Label(n.id, n.text, n.slug, n.sortOrder)
  }

  /** The synthetic root every page hangs under; it is never part of the result. */
  const Root := TocNode("root", "Root", "/", 0, [])

  const PageOrderKey := "pageOrder"

  /** A page's `pageOrder` metadata as a 32-bit integer; 0 when it is missing or does not parse. */
  function GetSortOrder(page: Page): (order: int)
    ensures MinInt32 <= order <= MaxInt32
    ensures PageOrderKey !in page.metadata ==> order == 0
    ensures PageOrderKey in page.metadata && ParseInt(page.metadata[PageOrderKey]).None? ==> order == 0
  {
    if PageOrderKey in page.metadata && ParseInt(page.metadata[PageOrderKey]).Some?
    then ParseInt(page.metadata[PageOrderKey]).value
    else 0
  }

  /** Any 32-bit number written into the metadata is the order read back. */
  lemma SortOrderOfWritten(page: Page, n: int)
    requires MinInt32 <= n <= MaxInt32
    requires PageOrderKey in page.metadata && page.metadata[PageOrderKey] == FormatInt(n)
    ensures GetSortOrder(page) == n
  {
    ParseFormatInt(n);
  }

  /** White space around the number and a leading sign are accepted. */
  lemma SortOrderPadded()
    ensures GetSortOrder(Page("/a", "A", map[PageOrderKey := " +7 "])) == 7
  {
    assert TrimStart(" +7 ", IsWhite) == "+7 ";
    assert TrimEnd("+7 ", IsWhite) == "+7";
    assert "+7"[1..] == "7";
    assert DigitsValue("7") == 7;
  }

  /** A value that starts with anything but white space, a sign or a digit is not a number: the order is 0. */
  lemma SortOrderNotANumber(page: Page)
    requires PageOrderKey in page.metadata
    requires var v := page.metadata[PageOrderKey];
             |v| > 0 && !IsWhite(v[0]) && v[0] != '-' && v[0] != '+' && !IsDigit(v[0])
    ensures GetSortOrder(page) == 0
  {
    var v := page.metadata[PageOrderKey];
    var t := Trim(v, IsWhite);
    assert TrimStart(v, IsWhite) == v;
    if |t| > 0 {
      assert t[0] == v[0];
    }
  }

  /** A number too large for 32 bits falls back to 0. */
  lemma SortOrderOutOfRange(page: Page, n: nat)
    requires n > MaxInt32
    requires PageOrderKey in page.metadata && page.metadata[PageOrderKey] == FormatNat(n)
    ensures GetSortOrder(page) == 0
  {
    var s := FormatNat(n);
    assert !IsWhite(s[0]) && !IsWhite(s[|s| - 1]);
    TrimUntouched(s, IsWhite);
    DigitsValueOfFormat(n);
  }

  // ----- ordering -----

  /** `List.Sort((a, b) => a.SortOrder.CompareTo(b.SortOrder))`. */
  predicate OrderLe(a: TocNode, b: TocNode) {
    a.sortOrder <= b.sortOrder
  }

  lemma OrderLeIsPreorder()
    ensures TotalPreorder(OrderLe)
  {
  }

  function SortByOrder(nodes: seq<TocNode>): (r: seq<TocNode>)
    ensures SortedBy(r, OrderLe)
    ensures multiset(r) == multiset(nodes)
  {
    OrderLeIsPreorder();
    SortBy(nodes, OrderLe)
  }

  /** Pages compared by slug under the string order `slugLe`. */
  function BySlug(slugLe: (string, string) -> bool): (Page, Page) -> bool {
    (a: Page, b: Page) => slugLe(a.slug, b.slug)
  }

  lemma BySlugIsPreorder(slugLe: (string, string) -> bool)
    requires TotalPreorder(slugLe)
    ensures TotalPreorder(BySlug(slugLe))
  {
    var le := BySlug(slugLe);
    forall a: Page, b: Page
      ensures le(a, b) || le(b, a)
    {
      assert slugLe(a.slug, b.slug) || slugLe(b.slug, a.slug);
    }
    forall a: Page, b: Page, c: Page | le(a, b) && le(b, c)
      ensures le(a, c)
    {
      assert slugLe(a.slug, b.slug) && slugLe(b.slug, c.slug);
    }
  }

  /** `pages.OrderBy(p => p.Slug)`: the same pages, in ascending slug order. */
  function SortPagesBySlug(pages: seq<Page>, slugLe: (string, string) -> bool): (r: seq<Page>)
    requires TotalPreorder(slugLe)
    ensures multiset(r) == multiset(pages)
    ensures forall i, j :: 0 <= i < j < |r| ==> slugLe(r[i].slug, r[j].slug)
  {
    BySlugIsPreorder(slugLe);
    SortBy(pages, BySlug(slugLe))
  }

  /** Ordinal string order is a total preorder, so it can stand for the slug order. */
  lemma StringLeIsPreorder()
    ensures TotalPreorder(StringLe)
  {
    forall a: string, b: string
      ensures StringLe(a, b) || StringLe(b, a)
    {
      StringLeTotal(a, b);
    }
    forall a: string, b: string, c: string | StringLe(a, b) && StringLe(b, c)
      ensures StringLe(a, c)
    {
      StringLeTransitive(a, b, c);
    }
  }

  // ----- slugs -----

  predicate IsSlash(c: char) {
    c == '/'
  }

  /** `slug.Trim('/').Split('/')`: empty interior segments are kept, and "/" gives one empty segment. */
  function SlugSegments(slug: string): (parts: seq<string>)
    ensures |parts| >= 1
    ensures forall k :: 0 <= k < |parts| ==> '/' !in parts[k]
    ensures Join(parts, '/') == Trim(slug, IsSlash)
  {
    Split(Trim(slug, IsSlash), '/')
  }

  /** The slug of the node at `path`: "/" followed by the segments joined with "/". */
  function JoinedSlug(path: seq<string>): (slug: string)
    ensures |slug| >= 1 && slug[0] == '/'
  {
    "/" + Join(path, '/')
  }

  /** A join starts with the first piece's first character and ends with the last piece's last one. */
  lemma {:induction false} JoinEnds(parts: seq<string>, sep: char)
    requires |parts| >= 1
    ensures |parts[0]| > 0 ==> |Join(parts, sep)| > 0 && Join(parts, sep)[0] == parts[0][0]
    ensures var last := parts[|parts| - 1];
            |last| > 0 ==> |Join(parts, sep)| > 0 && Join(parts, sep)[|Join(parts, sep)| - 1] == last[|last| - 1]
    decreases |parts|
  {
    if |parts| > 1 {
      JoinEnds(parts[1..], sep);
    }
  }

  /**
    A node's slug splits back into its path, as long as the path neither starts nor ends
    with an empty segment.
   */
  lemma SlugRoundTrip(path: seq<string>)
    requires |path| >= 1 && |path[0]| > 0 && |path[|path| - 1]| > 0
    requires forall k :: 0 <= k < |path| ==> '/' !in path[k]
    ensures SlugSegments(JoinedSlug(path)) == path
  {
    var j := Join(path, '/');
    JoinEnds(path, '/');
    assert JoinedSlug(path)[1..] == j;
    assert TrimStart(j, IsSlash) == j;
    TrimUntouched(j, IsSlash);
    assert Trim(JoinedSlug(path), IsSlash) == j;
    SplitJoin(path, '/');
  }

  /** The home page's slug gives one empty segment. */
  lemma HomeSlugSegments()
    ensures SlugSegments("/") == [""]
  {
    assert Trim("/", IsSlash) == "";
  }

  /** An empty interior segment is kept, not skipped. */
  lemma EmptySegmentKept()
    ensures SlugSegments("/a//b") == ["a", "", "b"]
  {
    var t := "a//b";
    assert TrimStart("/a//b", IsSlash) == t by {
      assert "/a//b"[1..] == t;
    }
    TrimUntouched(t, IsSlash);
    assert t == "a" + ['/'] + ("" + ['/'] + "b");
    SplitAfterFirst("a", "" + ['/'] + "b", '/');
    SplitAfterFirst("", "b", '/');
    SplitWithoutSeparator("b", '/');
  }

  // ----- the trie -----

  /** `Children.FirstOrDefault(c => c.Id == id)`: the index of the first child with that id, or `|nodes|`. */
  function FindChild(nodes: seq<TocNode>, id: string): (k: nat)
    ensures k <= |nodes|
    ensures k < |nodes| ==> nodes[k].id == id
    ensures forall j :: 0 <= j < k ==> nodes[j].id != id
  {
    FirstIndex(nodes, (n: TocNode) => n.id == id)
  }

  /** The node reached from `nodes` by following `path` one segment at a time. */
  function Lookup(nodes: seq<TocNode>, path: seq<string>): (r: Option<TocNode>)
    ensures r.Some? ==> |path| > 0 && r.value.id == path[|path| - 1]
    decreases |path|
  {
    if |path| == 0 then None
    else
      var k := FindChild(nodes, path[0]);
      if k == |nodes| then None
      else if |path| == 1 then Some(nodes[k])
      else Lookup(nodes[k].children, path[1..])
  }

  /** `path` is a non-empty leading part of the segments of `page`'s slug. */
  predicate OnPath(path: seq<string>, page: Page) {
    var segments := SlugSegments(page.slug);
    0 < |path| <= |segments| && path == segments[..|path|]
  }

  /** `page` is in `pages`, and no page before its first copy has a path that equals or extends `page`'s. */
  predicate FirstOwner(page: Page, pages: seq<Page>) {
    page in pages && forall j :: 0 <= j < IndexOf(pages, page) ==> !OnPath(SlugSegments(page.slug), pages[j])
  }

  /**
    Every other page whose path equals or extends `page`'s sorts strictly after it by slug, so
    `page` is the first of them to be added.  An index page such as "/guide" is this for its
    child pages "/guide/…" under ordinal order.
   */
  predicate FirstInSlugOrder(page: Page, pages: seq<Page>, slugLe: (string, string) -> bool) {
    forall q :: q in pages && q != page && OnPath(SlugSegments(page.slug), q) ==> !slugLe(q.slug, page.slug)
  }

  /** No page of `pages` has `path` as its own path. */
  predicate NoPageAt(pages: seq<Page>, path: seq<string>) {
    forall p :: p in pages ==> SlugSegments(p.slug) != path
  }

  /** The label of a node that is no page's own: its last segment as text, and order 0. */
  predicate Intermediate(found: Option<TocNode>, path: seq<string>) {
    found.Some? ==> |path| > 0 && found.value.text == path[|path| - 1] && found.value.sortOrder == 0
  }

  /**
    One page's walk, from the list `nodes` of children of the node at `prefix`, along the
    remaining segments `rest`.  A missing child is created: the last segment's node gets the
    page's title and order, an intermediate one its segment and 0.  The node the walk ends at
    has its children sorted.
   */
  function AddPath(nodes: seq<TocNode>, prefix: seq<string>, rest: seq<string>, title: string, order: int): (r: seq<TocNode>)
    requires |rest| >= 1
    ensures FindChild(nodes, rest[0]) < |nodes| ==> |r| == |nodes|
    ensures FindChild(nodes, rest[0]) == |nodes| ==> |r| == |nodes| + 1 && r[|nodes|].id == rest[0]
    ensures forall j :: 0 <= j < |nodes| ==> LabelOf(r[j]) == LabelOf(nodes[j])
    ensures forall j :: 0 <= j < |nodes| && j != FindChild(nodes, rest[0]) ==> r[j] == nodes[j]
    decreases |rest|
  {
    var seg := rest[0];
    var leaf := |rest| == 1;
    var k := FindChild(nodes, seg);
    var child :=
      if k < |nodes| then nodes[k]
      else TocNode(seg, if leaf then title else seg, JoinedSlug(prefix + [seg]), if leaf then order else 0, []);
    var child' :=
      if leaf then child.(children := SortByOrder(child.children))
      else child.(children := AddPath(child.children, prefix + [seg], rest[1..], title, order));
    if k < |nodes| then nodes[k := child'] else nodes + [child']
  }

  /** The root after one page: the page's path is added below it, and its own sort order is overwritten. */
  function AddPage(root: TocNode, page: Page): (r: TocNode)
    ensures LabelOf(r) == LabelOf(root).(sortOrder := GetSortOrder(page))
  {
    var order := GetSortOrder(page);
    root.(sortOrder := order, children := AddPath(root.children, [], SlugSegments(page.slug), page.title, order))
  }

  /**
    The `foreach` over the pages: each page's walk in turn.  The root keeps its id, text and
    slug; `AddPagesRootOrder` gives its sort order.
   */
  function AddPages(root: TocNode, pages: seq<Page>): (r: TocNode)
    ensures r.id == root.id && r.text == root.text && r.slug == root.slug
    decreases |pages|
  {
    if |pages| == 0 then root
    else
      var next := AddPage(root, pages[0]);
      assert LabelOf(next).text == root.text;
      AddPages(next, pages[1..])
  }

  /** Every page overwrites the root's sort order, so the last page's is the one that stays. */
  lemma {:induction false} AddPagesRootOrder(root: TocNode, pages: seq<Page>)
    ensures AddPages(root, pages).sortOrder ==
            if |pages| == 0 then root.sortOrder else GetSortOrder(pages[|pages| - 1])
    decreases |pages|
  {
    if |pages| == 1 {
      AddOnePage(root, pages[0]);
      assert pages == [pages[0]];
    } else if |pages| > 1 {
      var next := AddPage(root, pages[0]);
      assert AddPages(root, pages) == AddPages(next, pages[1..]);
      AddPagesRootOrder(next, pages[1..]);
      assert pages[1..][|pages| - 2] == pages[|pages| - 1];
    }
  }

  lemma AddOnePage(root: TocNode, page: Page)
    ensures AddPages(root, [page]).sortOrder == GetSortOrder(page)
  {
    assert AddPages(root, [page]) == AddPages(AddPage(root, page), []);
    assert LabelOf(AddPage(root, page)).sortOrder == GetSortOrder(page);
  }

  /** `BuildSiteTocNodes`: the root's children once every page, in slug order, has been added. */
  function BuildSiteTocNodes(pages: seq<Page>, slugLe: (string, string) -> bool): (toc: seq<TocNode>)
    requires TotalPreorder(slugLe)
    ensures SortedBy(toc, OrderLe)
    ensures WellFormed(toc, [])
    ensures forall p :: p in pages ==> Lookup(toc, SlugSegments(p.slug)).Some?
    ensures forall path :: Lookup(toc, path).Some? ==> exists p :: p in pages && OnPath(path, p)
    ensures forall p :: p in pages && FirstInSlugOrder(p, pages, slugLe) ==>
              && Lookup(toc, SlugSegments(p.slug)).Some?
              && Lookup(toc, SlugSegments(p.slug)).value.text == p.title
              && Lookup(toc, SlugSegments(p.slug)).value.sortOrder == GetSortOrder(p)
    ensures forall path :: NoPageAt(pages, path) ==> Intermediate(Lookup(toc, path), path)
  {
    var sorted := SortPagesBySlug(pages, slugLe);
    var root := AddPages(Root, sorted);
    AddPagesWellFormed(Root, sorted);
    AddPagesReach(Root, sorted);
    var toc := SortByOrder(root.children);
    PermutationWellFormed(root.children, toc, []);
    forall p | p in pages
      ensures Lookup(toc, SlugSegments(p.slug)).Some?
    {
      assert p in multiset(sorted);
      LookupPermutation(root.children, toc, SlugSegments(p.slug));
    }
    TocOnlyPagePaths(pages, sorted, toc);
    TocLabels(pages, sorted, slugLe, toc);
    TocIntermediates(pages, sorted, toc);
    toc
  }

  // ----- well-formedness -----

  predicate DistinctIds(nodes: seq<TocNode>) {
    forall i, j :: 0 <= i < j < |nodes| ==> nodes[i].id != nodes[j].id
  }

  /**
    The trie's invariant below the node at `path`: sibling ids are distinct, and every node's
    slug is "/" followed by its own path joined with "/".
   */
  predicate WellFormed(nodes: seq<TocNode>, path: seq<string>)
    decreases nodes
  {
    && DistinctIds(nodes)
    && forall i :: 0 <= i < |nodes| ==>
         && nodes[i].slug == JoinedSlug(path + [nodes[i].id])
         && WellFormed(nodes[i].children, path + [nodes[i].id])
  }

  /** One node of a well-formed list, under the node at `path`. */
  predicate WellFormedNode(n: TocNode, path: seq<string>) {
    n.slug == JoinedSlug(path + [n.id]) && WellFormed(n.children, path + [n.id])
  }

  lemma WellFormedNodes(nodes: seq<TocNode>, path: seq<string>)
    ensures WellFormed(nodes, path) <==>
            DistinctIds(nodes) && forall i :: 0 <= i < |nodes| ==> WellFormedNode(nodes[i], path)
  {
  }

  /** Distinct ids stay distinct when an element whose id is new is put anywhere. */
  lemma DistinctInsert(a: seq<TocNode>, x: TocNode, b: seq<TocNode>)
    requires DistinctIds(a + b)
    requires forall j :: 0 <= j < |a + b| ==> (a + b)[j].id != x.id
    ensures DistinctIds(a + [x] + b)
  {
    var s := a + [x] + b;
    forall i, j | 0 <= i < j < |s|
      ensures s[i].id != s[j].id
    {
      var ab := a + b;
      if j < |a| {
        assert s[i] == ab[i] && s[j] == ab[j];
      } else if j == |a| {
        assert s[i] == ab[i] && s[j] == x;
      } else if i < |a| {
        assert s[i] == ab[i] && s[j] == ab[j - 1];
      } else if i == |a| {
        assert s[i] == x && s[j] == ab[j - 1];
      } else {
        assert s[i] == ab[i - 1] && s[j] == ab[j - 1];
      }
    }
  }

  /** Reordering children keeps their ids distinct. */
  lemma {:induction false} DistinctPermutation(s: seq<TocNode>, t: seq<TocNode>)
    requires multiset(s) == multiset(t) && DistinctIds(s)
    ensures DistinctIds(t)
    decreases |s|
  {
    if |s| == 0 {
      assert |t| == |multiset(t)| == 0;
    } else {
      var m := |s| - 1;
      var k := RemoveMatching(s, t);
      var t' := t[..k] + t[k + 1..];
      assert DistinctIds(s[..m]);
      DistinctPermutation(s[..m], t');
      LastIdFresh(s, t');
      assert t == t[..k] + [s[m]] + t[k + 1..];
      DistinctInsert(t[..k], s[m], t[k + 1..]);
    }
  }

  /** The last id of a list with distinct ids occurs nowhere in a reordering of the rest. */
  lemma LastIdFresh(s: seq<TocNode>, u: seq<TocNode>)
    requires |s| > 0 && DistinctIds(s) && multiset(u) == multiset(s[..|s| - 1])
    ensures forall j :: 0 <= j < |u| ==> u[j].id != s[|s| - 1].id
  {
    forall j | 0 <= j < |u|
      ensures u[j].id != s[|s| - 1].id
    {
      assert u[j] in multiset(s[..|s| - 1]);
      var p := IndexOf(s[..|s| - 1], u[j]);
      assert s[p] == u[j];
    }
  }

  /** Reordering a well-formed list of children keeps it well-formed. */
  lemma PermutationWellFormed(s: seq<TocNode>, t: seq<TocNode>, path: seq<string>)
    requires multiset(s) == multiset(t) && WellFormed(s, path)
    ensures WellFormed(t, path)
  {
    DistinctPermutation(s, t);
    WellFormedNodes(s, path);
    forall i | 0 <= i < |t|
      ensures WellFormedNode(t[i], path)
    {
      assert t[i] in multiset(s);
      var p := IndexOf(s, t[i]);
    }
    WellFormedNodes(t, path);
  }

  /** When a list's ids are distinct, a reordering of it finds the very same child for every id. */
  lemma FoundInPermutation(s: seq<TocNode>, t: seq<TocNode>, id: string)
    requires multiset(s) == multiset(t) && DistinctIds(t)
    requires FindChild(s, id) < |s|
    ensures FindChild(t, id) < |t| && t[FindChild(t, id)] == s[FindChild(s, id)]
  {
    var x := s[FindChild(s, id)];
    assert x in multiset(t);
    var m := IndexOf(t, x);
    assert t[m].id == id;
  }

  lemma FindPermutation(s: seq<TocNode>, t: seq<TocNode>, id: string)
    requires multiset(s) == multiset(t) && DistinctIds(s)
    ensures (FindChild(s, id) < |s|) == (FindChild(t, id) < |t|)
    ensures FindChild(s, id) < |s| ==> s[FindChild(s, id)] == t[FindChild(t, id)]
  {
    DistinctPermutation(s, t);
    if FindChild(s, id) < |s| {
      FoundInPermutation(s, t, id);
    }
    if FindChild(t, id) < |t| {
      FoundInPermutation(t, s, id);
    }
  }

  /** Sorting a list of children with distinct ids changes no lookup below it. */
  lemma LookupPermutation(s: seq<TocNode>, t: seq<TocNode>, path: seq<string>)
    requires multiset(s) == multiset(t) && DistinctIds(s)
    ensures Lookup(s, path) == Lookup(t, path)
  {
    if |path| > 0 {
      FindPermutation(s, t, path[0]);
    }
  }

  /** Adding a page keeps the trie well-formed. */
  lemma {:induction false} AddPathWellFormed(nodes: seq<TocNode>, prefix: seq<string>, rest: seq<string>, title: string, order: int)
    requires |rest| >= 1 && WellFormed(nodes, prefix)
    ensures WellFormed(AddPath(nodes, prefix, rest, title, order), prefix)
    decreases |rest|
  {
    var seg := rest[0];
    var k := FindChild(nodes, seg);
    var r := AddPath(nodes, prefix, rest, title, order);
    var below := Below(nodes, seg);
    BelowWellFormed(nodes, prefix, seg);
    AddPathFinds(nodes, prefix, rest, title, order, seg);
    if |rest| == 1 {
      AddPathBelowLeaf(nodes, prefix, title, order, seg);
      PermutationWellFormed(below, Below(r, seg), prefix + [seg]);
    } else {
      AddPathBelow(nodes, prefix, rest, title, order);
      AddPathWellFormed(below, prefix + [seg], rest[1..], title, order);
    }
    if k == |nodes| {
      AddPathNewLabel(nodes, prefix, rest, title, order);
    }
    assert WellFormedNode(r[k], prefix);
    if k < |nodes| {
      assert r == nodes[k := r[k]];
      UpdateWellFormed(nodes, k, r[k], prefix);
    } else {
      assert r == nodes + [r[k]];
      AppendWellFormed(nodes, r[k], prefix);
    }
  }

  /** The children of a well-formed list's child are well-formed below that child. */
  lemma BelowWellFormed(nodes: seq<TocNode>, prefix: seq<string>, id: string)
    requires WellFormed(nodes, prefix)
    ensures WellFormed(Below(nodes, id), prefix + [id])
  {
  }

  lemma UpdateWellFormed(nodes: seq<TocNode>, k: nat, c: TocNode, prefix: seq<string>)
    requires WellFormed(nodes, prefix) && k < |nodes| && c.id == nodes[k].id && WellFormedNode(c, prefix)
    ensures WellFormed(nodes[k := c], prefix)
  {
    WellFormedNodes(nodes, prefix);
    WellFormedNodes(nodes[k := c], prefix);
  }

  lemma AppendWellFormed(nodes: seq<TocNode>, c: TocNode, prefix: seq<string>)
    requires WellFormed(nodes, prefix) && WellFormedNode(c, prefix)
    requires forall j :: 0 <= j < |nodes| ==> nodes[j].id != c.id
    ensures WellFormed(nodes + [c], prefix)
  {
    DistinctInsert(nodes, c, []);
    assert nodes + [c] + [] == nodes + [c];
    WellFormedNodes(nodes, prefix);
    WellFormedNodes(nodes + [c], prefix);
  }

  // ----- what adding a page does to existing and new nodes -----

  lemma FindSameIds(s: seq<TocNode>, t: seq<TocNode>, id: string)
    requires |s| == |t| && forall j :: 0 <= j < |s| ==> s[j].id == t[j].id
    ensures FindChild(s, id) == FindChild(t, id)
  {
  }

  lemma {:induction false} FindAppend(s: seq<TocNode>, c: TocNode, id: string)
    ensures FindChild(s + [c], id) ==
            if FindChild(s, id) < |s| then FindChild(s, id) else if c.id == id then |s| else |s| + 1
    decreases |s|
  {
    if |s| > 0 && s[0].id != id {
      assert (s + [c])[1..] == s[1..] + [c];
      FindAppend(s[1..], c, id);
    }
  }

  /** Below the first segment, a lookup continues in that child's children, or finds nothing when there is no such child. */
  lemma LookupBelow(nodes: seq<TocNode>, path: seq<string>)
    requires |path| > 1
    ensures Lookup(nodes, path) == Lookup(Below(nodes, path[0]), path[1..])
  {
  }

  /** The children of `id` in `nodes`, or none when there is no such child. */
  function Below(nodes: seq<TocNode>, id: string): seq<TocNode> {
    var k := FindChild(nodes, id);
    if k < |nodes| then nodes[k].children else []
  }

  /** The child for the first segment sits where it sat, or at the end when it is new. */
  lemma AddPathFinds(nodes: seq<TocNode>, prefix: seq<string>, rest: seq<string>, title: string, order: int, id: string)
    requires |rest| >= 1 && (id == rest[0] || FindChild(nodes, id) < |nodes|)
    ensures var r := AddPath(nodes, prefix, rest, title, order);
            FindChild(r, id) == FindChild(nodes, id) < |r|
  {
    var r := AddPath(nodes, prefix, rest, title, order);
    if FindChild(nodes, rest[0]) < |nodes| {
      FindSameIds(r, nodes, id);
    } else {
      assert r == r[..|nodes|] + [r[|nodes|]];
      FindSameIds(r[..|nodes|], nodes, id);
      FindAppend(r[..|nodes|], r[|nodes|], id);
    }
  }

  /** A child the walk neither found nor created is still missing. */
  lemma AddPathMissing(nodes: seq<TocNode>, prefix: seq<string>, rest: seq<string>, title: string, order: int, id: string)
    requires |rest| >= 1 && id != rest[0] && FindChild(nodes, id) == |nodes|
    ensures var r := AddPath(nodes, prefix, rest, title, order);
            FindChild(r, id) == |r|
  {
    var r := AddPath(nodes, prefix, rest, title, order);
    if FindChild(nodes, rest[0]) < |nodes| {
      FindSameIds(r, nodes, id);
    } else {
      assert r == r[..|nodes|] + [r[|nodes|]];
      FindSameIds(r[..|nodes|], nodes, id);
      FindAppend(r[..|nodes|], r[|nodes|], id);
    }
  }

  /** A child the walk creates is labelled with the page's title and order when it is the last, with its segment and 0 otherwise. */
  lemma AddPathNewLabel(nodes: seq<TocNode>, prefix: seq<string>, rest: seq<string>, title: string, order: int)
    requires |rest| >= 1 && FindChild(nodes, rest[0]) == |nodes|
    ensures var r := AddPath(nodes, prefix, rest, title, order);
            var last := |rest| == 1;
            LabelOf(r[|nodes|]) ==
              Label(rest[0], if last then title else rest[0], JoinedSlug(prefix + [rest[0]]), if last then order else 0)
  {
  }

  /** Where the walk ends, the children are sorted by sort order. */
  lemma AddPathBelowLeaf(nodes: seq<TocNode>, prefix: seq<string>, title: string, order: int, seg: string)
    ensures var r := AddPath(nodes, prefix, [seg], title, order);
            Below(r, seg) == SortByOrder(Below(nodes, seg))
  {
    AddPathFinds(nodes, prefix, [seg], title, order, seg);
  }

  /** Before the walk ends, it continues among the children of the first segment's node. */
  lemma AddPathBelow(nodes: seq<TocNode>, prefix: seq<string>, rest: seq<string>, title: string, order: int)
    requires |rest| > 1
    ensures var r := AddPath(nodes, prefix, rest, title, order);
            Below(r, rest[0]) == AddPath(Below(nodes, rest[0]), prefix + [rest[0]], rest[1..], title, order)
  {
    AddPathFinds(nodes, prefix, rest, title, order, rest[0]);
  }

  /** Adding a page changes the label of no node that was already there. */
  lemma {:induction false} AddPathKeeps(nodes: seq<TocNode>, prefix: seq<string>, rest: seq<string>, title: string, order: int,
                                        path: seq<string>)
    requires |rest| >= 1 && WellFormed(nodes, prefix) && Lookup(nodes, path).Some?
    ensures var r := AddPath(nodes, prefix, rest, title, order);
            Lookup(r, path).Some? && LabelOf(Lookup(r, path).value) == LabelOf(Lookup(nodes, path).value)
    decreases |rest|
  {
    var r := AddPath(nodes, prefix, rest, title, order);
    var seg := rest[0];
    AddPathFinds(nodes, prefix, rest, title, order, path[0]);
    if |path| > 1 && path[0] == seg {
      var k := FindChild(nodes, seg);
      WellFormedNodes(nodes, prefix);
      assert WellFormedNode(nodes[k], prefix);
      LookupBelow(nodes, path);
      LookupBelow(r, path);
      if |rest| == 1 {
        AddPathBelowLeaf(nodes, prefix, title, order, seg);
        LookupPermutation(nodes[k].children, Below(r, seg), path[1..]);
      } else {
        AddPathBelow(nodes, prefix, rest, title, order);
        AddPathKeeps(nodes[k].children, prefix + [seg], rest[1..], title, order, path[1..]);
      }
    }
  }

  /**
    Every node the page's path lacked is created: the last with the page's title and order,
    the others with their segment and 0, each with the slug of its own path.
   */
  lemma {:induction false} AddPathCreates(nodes: seq<TocNode>, prefix: seq<string>, rest: seq<string>, title: string, order: int,
                                          j: nat)
    requires j < |rest| && Lookup(nodes, rest[..j + 1]).None?
    ensures var r := AddPath(nodes, prefix, rest, title, order);
            var last := j == |rest| - 1;
            Lookup(r, rest[..j + 1]).Some? &&
            LabelOf(Lookup(r, rest[..j + 1]).value) ==
              Label(rest[j], if last then title else rest[j], JoinedSlug(prefix + rest[..j + 1]), if last then order else 0)
    decreases |rest|, 1
  {
    var r := AddPath(nodes, prefix, rest, title, order);
    var seg := rest[0];
    if j == 0 {
      assert rest[..1] == [seg];
      AddPathCreatesFirst(nodes, prefix, rest, title, order);
    } else {
      AddPathCreatesDeeper(nodes, prefix, rest, title, order, j);
    }
  }

  lemma {:induction false} AddPathCreatesDeeper(nodes: seq<TocNode>, prefix: seq<string>, rest: seq<string>, title: string, order: int,
                                                j: nat)
    requires 0 < j < |rest| && Lookup(nodes, rest[..j + 1]).None?
    ensures var r := AddPath(nodes, prefix, rest, title, order);
            var last := j == |rest| - 1;
            Lookup(r, rest[..j + 1]).Some? &&
            LabelOf(Lookup(r, rest[..j + 1]).value) ==
              Label(rest[j], if last then title else rest[j], JoinedSlug(prefix + rest[..j + 1]), if last then order else 0)
    decreases |rest|, 0
  {
    var seg := rest[0];
    var below := Below(nodes, seg);
    var r := AddPath(nodes, prefix, rest, title, order);
    CreatedBelowMissing(nodes, rest, j);
    AddPathCreates(below, prefix + [seg], rest[1..], title, order, j - 1);
    AddPathBelow(nodes, prefix, rest, title, order);
    CreatedDeeper(r, AddPath(below, prefix + [seg], rest[1..], title, order), prefix, rest, title, order, j);
  }

  /** A path missing below the root of a step is missing below the first segment's node too. */
  lemma CreatedBelowMissing(nodes: seq<TocNode>, rest: seq<string>, j: nat)
    requires 0 < j < |rest| && Lookup(nodes, rest[..j + 1]).None?
    ensures Lookup(Below(nodes, rest[0]), rest[1..][..j]).None?
  {
    var path := rest[..j + 1];
    assert path[0] == rest[0] && path[1..] == rest[1..][..j];
    LookupBelow(nodes, path);
  }

  /** The label found one level down is the label the whole path finds. */
  lemma CreatedDeeper(r: seq<TocNode>, inner: seq<TocNode>, prefix: seq<string>, rest: seq<string>, title: string, order: int,
                      j: nat)
    requires 0 < j < |rest| && Below(r, rest[0]) == inner
    requires var last := j - 1 == |rest[1..]| - 1;
             Lookup(inner, rest[1..][..j]).Some? &&
             LabelOf(Lookup(inner, rest[1..][..j]).value) ==
               Label(rest[1..][j - 1], if last then title else rest[1..][j - 1],
                     JoinedSlug(prefix + [rest[0]] + rest[1..][..j]), if last then order else 0)
    ensures var last := j == |rest| - 1;
            Lookup(r, rest[..j + 1]).Some? &&
            LabelOf(Lookup(r, rest[..j + 1]).value) ==
              Label(rest[j], if last then title else rest[j], JoinedSlug(prefix + rest[..j + 1]), if last then order else 0)
  {
    var path := rest[..j + 1];
    assert path[0] == rest[0] && path[1..] == rest[1..][..j];
    assert prefix + [rest[0]] + rest[1..][..j] == prefix + path;
    LookupBelow(r, path);
  }

  /** The first segment's node, when it was missing, is there afterwards with its new label. */
  lemma AddPathCreatesFirst(nodes: seq<TocNode>, prefix: seq<string>, rest: seq<string>, title: string, order: int)
    requires |rest| >= 1 && FindChild(nodes, rest[0]) == |nodes|
    ensures var r := AddPath(nodes, prefix, rest, title, order);
            var last := |rest| == 1;
            Lookup(r, [rest[0]]).Some? &&
            LabelOf(Lookup(r, [rest[0]]).value) ==
              Label(rest[0], if last then title else rest[0], JoinedSlug(prefix + [rest[0]]), if last then order else 0)
  {
    AddPathFinds(nodes, prefix, rest, title, order, rest[0]);
    AddPathNewLabel(nodes, prefix, rest, title, order);
  }

  /** After adding a page its node is there, and that node's children are sorted by sort order. */
  lemma {:induction false} AddPathReaches(nodes: seq<TocNode>, prefix: seq<string>, rest: seq<string>, title: string, order: int)
    requires |rest| >= 1
    ensures var r := AddPath(nodes, prefix, rest, title, order);
            Lookup(r, rest).Some? && SortedBy(Lookup(r, rest).value.children, OrderLe)
    decreases |rest|
  {
    var seg := rest[0];
    if |rest| == 1 {
      AddPathBelowLeaf(nodes, prefix, title, order, seg);
      AddPathFinds(nodes, prefix, rest, title, order, seg);
    } else {
      LookupBelow(AddPath(nodes, prefix, rest, title, order), rest);
      AddPathBelow(nodes, prefix, rest, title, order);
      AddPathReaches(Below(nodes, seg), prefix + [seg], rest[1..], title, order);
    }
  }

  /** Every node after adding a page was there before, or lies on the page's own path. */
  lemma {:induction false} AddPathOnly(nodes: seq<TocNode>, prefix: seq<string>, rest: seq<string>, title: string, order: int,
                                       path: seq<string>)
    requires |rest| >= 1 && WellFormed(nodes, prefix)
    requires Lookup(AddPath(nodes, prefix, rest, title, order), path).Some?
    ensures Lookup(nodes, path).Some? || (|path| <= |rest| && path == rest[..|path|])
    decreases |rest|, 1
  {
    var seg := rest[0];
    if path[0] != seg {
      AddPathBeside(nodes, prefix, rest, title, order, path);
    } else if |path| > 1 {
      if |rest| == 1 {
        LookupBelow(nodes, path);
        BelowWellFormed(nodes, prefix, seg);
        AddPathOnlyLeaf(nodes, prefix, title, order, path);
      } else {
        AddPathOnlyDeeper(nodes, prefix, rest, title, order, path);
      }
    }
  }

  lemma {:induction false} AddPathOnlyDeeper(nodes: seq<TocNode>, prefix: seq<string>, rest: seq<string>, title: string,
                                             order: int, path: seq<string>)
    requires |rest| > 1 && |path| > 1 && path[0] == rest[0] && WellFormed(nodes, prefix)
    requires Lookup(AddPath(nodes, prefix, rest, title, order), path).Some?
    ensures Lookup(nodes, path).Some? || (|path| <= |rest| && path == rest[..|path|])
    decreases |rest|, 0
  {
    var seg := rest[0];
    var below := Below(nodes, seg);
    LookupBelow(nodes, path);
    BelowWellFormed(nodes, prefix, seg);
    LookupBelow(AddPath(nodes, prefix, rest, title, order), path);
    AddPathBelow(nodes, prefix, rest, title, order);
    AddPathOnly(below, prefix + [seg], rest[1..], title, order, path[1..]);
    if Lookup(below, path[1..]).None? {
      PrefixStep(path, rest);
    }
  }

  /** A path that starts like `rest` and continues like the rest of `rest` is a leading part of `rest`. */
  lemma PrefixStep(path: seq<string>, rest: seq<string>)
    requires |path| > 0 && |rest| > 0 && path[0] == rest[0]
    requires |path| - 1 <= |rest| - 1 && path[1..] == rest[1..][..|path| - 1]
    ensures |path| <= |rest| && path == rest[..|path|]
  {
    assert path == [path[0]] + path[1..];
    assert rest[..|path|] == [rest[0]] + rest[1..][..|path| - 1];
  }

  /** Off the page's first segment, nothing a lookup finds has changed. */
  lemma AddPathBeside(nodes: seq<TocNode>, prefix: seq<string>, rest: seq<string>, title: string, order: int,
                      path: seq<string>)
    requires |rest| >= 1 && |path| > 0 && path[0] != rest[0]
    ensures Lookup(AddPath(nodes, prefix, rest, title, order), path) == Lookup(nodes, path)
  {
    var r := AddPath(nodes, prefix, rest, title, order);
    var id := path[0];
    if FindChild(nodes, id) < |nodes| {
      AddPathFinds(nodes, prefix, rest, title, order, id);
      assert r[FindChild(nodes, id)] == nodes[FindChild(nodes, id)];
    } else {
      AddPathMissing(nodes, prefix, rest, title, order, id);
    }
  }

  /** Below the node a one-segment walk ends at, only the order of the children has changed. */
  lemma AddPathOnlyLeaf(nodes: seq<TocNode>, prefix: seq<string>, title: string, order: int, path: seq<string>)
    requires |path| > 1 && DistinctIds(Below(nodes, path[0]))
    ensures Lookup(AddPath(nodes, prefix, [path[0]], title, order), path) == Lookup(Below(nodes, path[0]), path[1..])
  {
    var seg := path[0];
    var r := AddPath(nodes, prefix, [seg], title, order);
    LookupBelow(r, path);
    AddPathBelowLeaf(nodes, prefix, title, order, seg);
    LookupPermutation(Below(nodes, seg), Below(r, seg), path[1..]);
  }

  // ----- all pages -----

  lemma {:induction false} AddPagesWellFormed(root: TocNode, pages: seq<Page>)
    requires WellFormed(root.children, [])
    ensures WellFormed(AddPages(root, pages).children, [])
    decreases |pages|
  {
    if |pages| > 0 {
      var page := pages[0];
      AddPathWellFormed(root.children, [], SlugSegments(page.slug), page.title, GetSortOrder(page));
      AddPagesWellFormed(AddPage(root, page), pages[1..]);
    }
  }

  /** Later pages change the label of no node an earlier page put in place. */
  lemma {:induction false} AddPagesKeeps(root: TocNode, pages: seq<Page>, path: seq<string>)
    requires WellFormed(root.children, []) && Lookup(root.children, path).Some?
    ensures var r := AddPages(root, pages);
            Lookup(r.children, path).Some? && LabelOf(Lookup(r.children, path).value) == LabelOf(Lookup(root.children, path).value)
    decreases |pages|
  {
    if |pages| > 0 {
      var page := pages[0];
      AddPathWellFormed(root.children, [], SlugSegments(page.slug), page.title, GetSortOrder(page));
      AddPathKeeps(root.children, [], SlugSegments(page.slug), page.title, GetSortOrder(page), path);
      AddPagesKeeps(AddPage(root, page), pages[1..], path);
    }
  }

  /** Every page added has a node at the end of its path. */
  lemma {:induction false} AddPagesReach(root: TocNode, pages: seq<Page>)
    requires WellFormed(root.children, [])
    ensures forall p :: p in pages ==> Lookup(AddPages(root, pages).children, SlugSegments(p.slug)).Some?
    decreases |pages|
  {
    if |pages| > 0 {
      var page := pages[0];
      var next := AddPage(root, page);
      AddPathWellFormed(root.children, [], SlugSegments(page.slug), page.title, GetSortOrder(page));
      AddPathReaches(root.children, [], SlugSegments(page.slug), page.title, GetSortOrder(page));
      AddPagesKeeps(next, pages[1..], SlugSegments(page.slug));
      AddPagesReach(next, pages[1..]);
      forall p | p in pages
        ensures Lookup(AddPages(root, pages).children, SlugSegments(p.slug)).Some?
      {
        if p != page {
          assert p in pages[1..];
        }
      }
    }
  }

  /** Every node after adding pages was there before, or lies on the path of one of the pages. */
  lemma {:induction false} AddPagesOnly(root: TocNode, pages: seq<Page>, path: seq<string>)
    requires WellFormed(root.children, []) && Lookup(AddPages(root, pages).children, path).Some?
    ensures Lookup(root.children, path).Some? || exists p :: p in pages && OnPath(path, p)
    decreases |pages|
  {
    if |pages| > 0 {
      var page := pages[0];
      var next := AddPage(root, page);
      var segments := SlugSegments(page.slug);
      AddPathWellFormed(root.children, [], segments, page.title, GetSortOrder(page));
      AddPagesOnly(next, pages[1..], path);
      if Lookup(next.children, path).Some? {
        AddPathOnly(root.children, [], segments, page.title, GetSortOrder(page), path);
        if Lookup(root.children, path).None? {
          assert OnPath(path, page);
        }
      } else {
        var p :| p in pages[1..] && OnPath(path, p);
        assert p in pages;
      }
    }
  }

  /** The table of contents holds nothing but the nodes on the paths of the pages. */
  lemma TocOnlyPagePaths(pages: seq<Page>, sorted: seq<Page>, toc: seq<TocNode>)
    requires multiset(sorted) == multiset(pages)
    requires multiset(toc) == multiset(AddPages(Root, sorted).children)
    ensures forall path :: Lookup(toc, path).Some? ==> exists p :: p in pages && OnPath(path, p)
  {
    var children := AddPages(Root, sorted).children;
    AddPagesWellFormed(Root, sorted);
    forall path | Lookup(toc, path).Some?
      ensures exists p :: p in pages && OnPath(path, p)
    {
      LookupPermutation(children, toc, path);
      AddPagesOnly(Root, sorted, path);
      var p :| p in sorted && OnPath(path, p);
      assert p in multiset(sorted);
    }
  }

  /**
    A page that is added before every other page whose path equals or extends its own creates
    the node at its path: that node carries the page's title and sort order.
   */
  lemma {:induction false} AddPagesLabel(root: TocNode, pages: seq<Page>, page: Page)
    requires WellFormed(root.children, [])
    requires FirstOwner(page, pages)
    requires Lookup(root.children, SlugSegments(page.slug)).None?
    ensures var found := Lookup(AddPages(root, pages).children, SlugSegments(page.slug));
            found.Some? && found.value.text == page.title && found.value.sortOrder == GetSortOrder(page)
    decreases |pages|
  {
    var path := SlugSegments(page.slug);
    var first := pages[0];
    var next := AddPage(root, first);
    AddPageWellFormed(root, first);
    if first == page {
      AddPageCreates(root, page);
      AddPagesKeeps(next, pages[1..], path);
    } else {
      FirstOwnerTail(page, pages);
      AddPageAvoids(root, first, path);
      AddPagesLabel(next, pages[1..], page);
    }
  }

  lemma FirstOwnerTail(page: Page, pages: seq<Page>)
    requires FirstOwner(page, pages) && pages[0] != page
    ensures FirstOwner(page, pages[1..]) && !OnPath(SlugSegments(page.slug), pages[0])
  {
    assert IndexOf(pages, page) == 1 + IndexOf(pages[1..], page);
    forall j | 0 <= j < IndexOf(pages[1..], page)
      ensures !OnPath(SlugSegments(page.slug), pages[1..][j])
    {
      assert pages[1..][j] == pages[j + 1];
    }
  }

  lemma AddPageWellFormed(root: TocNode, page: Page)
    requires WellFormed(root.children, [])
    ensures WellFormed(AddPage(root, page).children, [])
  {
    AddPathWellFormed(root.children, [], SlugSegments(page.slug), page.title, GetSortOrder(page));
  }

  /** A page whose node is missing creates it with its own title and sort order. */
  lemma AddPageCreates(root: TocNode, page: Page)
    requires Lookup(root.children, SlugSegments(page.slug)).None?
    ensures var found := Lookup(AddPage(root, page).children, SlugSegments(page.slug));
            found.Some? && found.value.text == page.title && found.value.sortOrder == GetSortOrder(page)
  {
    AddPathCreatesLeaf(root.children, SlugSegments(page.slug), page.title, GetSortOrder(page));
  }

  lemma AddPathCreatesLeaf(nodes: seq<TocNode>, path: seq<string>, title: string, order: int)
    requires |path| >= 1 && Lookup(nodes, path).None?
    ensures var found := Lookup(AddPath(nodes, [], path, title, order), path);
            found.Some? && found.value.text == title && found.value.sortOrder == order
  {
    assert path[..|path|] == path;
    AddPathCreates(nodes, [], path, title, order, |path| - 1);
  }

  /** A page creates no node at a path off its own. */
  lemma AddPageAvoids(root: TocNode, page: Page, path: seq<string>)
    requires WellFormed(root.children, []) && Lookup(root.children, path).None? && !OnPath(path, page)
    ensures Lookup(AddPage(root, page).children, path).None?
  {
    if Lookup(AddPage(root, page).children, path).Some? {
      AddPathOnly(root.children, [], SlugSegments(page.slug), page.title, GetSortOrder(page), path);
    }
  }

  /**
    Every page that sorts before every other page on or below its path is found at its path
    with its own title and sort order.
   */
  lemma TocLabels(pages: seq<Page>, sorted: seq<Page>, slugLe: (string, string) -> bool, toc: seq<TocNode>)
    requires multiset(sorted) == multiset(pages) && forall i, j :: 0 <= i < j < |sorted| ==> slugLe(sorted[i].slug, sorted[j].slug)
    requires multiset(toc) == multiset(AddPages(Root, sorted).children)
    ensures forall p :: p in pages && FirstInSlugOrder(p, pages, slugLe) ==>
              && Lookup(toc, SlugSegments(p.slug)).Some?
              && Lookup(toc, SlugSegments(p.slug)).value.text == p.title
              && Lookup(toc, SlugSegments(p.slug)).value.sortOrder == GetSortOrder(p)
  {
    forall p | p in pages && FirstInSlugOrder(p, pages, slugLe)
      ensures && Lookup(toc, SlugSegments(p.slug)).Some?
              && Lookup(toc, SlugSegments(p.slug)).value.text == p.title
              && Lookup(toc, SlugSegments(p.slug)).value.sortOrder == GetSortOrder(p)
    {
      TocLabel(pages, sorted, slugLe, toc, p);
    }
  }

  /** In the pages sorted by slug, a page that sorts before the others on its path comes before them. */
  lemma SortedFirstOwner(pages: seq<Page>, sorted: seq<Page>, slugLe: (string, string) -> bool, p: Page)
    requires multiset(sorted) == multiset(pages) && forall i, j :: 0 <= i < j < |sorted| ==> slugLe(sorted[i].slug, sorted[j].slug)
    requires p in pages && FirstInSlugOrder(p, pages, slugLe)
    ensures FirstOwner(p, sorted)
  {
    assert p in multiset(pages);
    assert p in sorted;
    var i := IndexOf(sorted, p);
    forall j | 0 <= j < i
      ensures !OnPath(SlugSegments(p.slug), sorted[j])
    {
      var q := sorted[j];
      assert slugLe(q.slug, p.slug);
      assert q in multiset(sorted);
      IndexOfFirst(sorted, p, j);
    }
  }

  lemma TocLabel(pages: seq<Page>, sorted: seq<Page>, slugLe: (string, string) -> bool, toc: seq<TocNode>, p: Page)
    requires multiset(sorted) == multiset(pages) && forall i, j :: 0 <= i < j < |sorted| ==> slugLe(sorted[i].slug, sorted[j].slug)
    requires multiset(toc) == multiset(AddPages(Root, sorted).children)
    requires p in pages && FirstInSlugOrder(p, pages, slugLe)
    ensures var found := Lookup(toc, SlugSegments(p.slug));
            found.Some? && found.value.text == p.title && found.value.sortOrder == GetSortOrder(p)
  {
    AddPagesWellFormed(Root, sorted);
    SortedFirstOwner(pages, sorted, slugLe, p);
    AddPagesLabel(Root, sorted, p);
    LookupPermutation(AddPages(Root, sorted).children, toc, SlugSegments(p.slug));
  }

  /** One page keeps the intermediate label at a path that is not its own. */
  lemma AddPageIntermediate(root: TocNode, page: Page, path: seq<string>)
    requires WellFormed(root.children, [])
    requires Intermediate(Lookup(root.children, path), path)
    requires SlugSegments(page.slug) != path
    ensures Intermediate(Lookup(AddPage(root, page).children, path), path)
  {
    var segments := SlugSegments(page.slug);
    var order := GetSortOrder(page);
    if Lookup(root.children, path).Some? {
      AddPathKeeps(root.children, [], segments, page.title, order, path);
    } else if Lookup(AddPage(root, page).children, path).Some? {
      AddPathOnly(root.children, [], segments, page.title, order, path);
      var j := |path| - 1;
      assert segments[..j + 1] == path;
      AddPathCreates(root.children, [], segments, page.title, order, j);
    }
  }

  /** A node at a path that is no page's own, created by any page's walk, keeps its segment and order 0. */
  lemma {:induction false} AddPagesIntermediate(root: TocNode, pages: seq<Page>, path: seq<string>)
    requires WellFormed(root.children, [])
    requires Intermediate(Lookup(root.children, path), path)
    requires NoPageAt(pages, path)
    ensures Intermediate(Lookup(AddPages(root, pages).children, path), path)
    decreases |pages|
  {
    if |pages| > 0 {
      AddPageWellFormed(root, pages[0]);
      AddPageIntermediate(root, pages[0], path);
      AddPagesIntermediate(AddPage(root, pages[0]), pages[1..], path);
    }
  }

  /** Every node of the table of contents at a path that is no page's own is an intermediate node. */
  lemma TocIntermediates(pages: seq<Page>, sorted: seq<Page>, toc: seq<TocNode>)
    requires multiset(sorted) == multiset(pages)
    requires multiset(toc) == multiset(AddPages(Root, sorted).children)
    ensures forall path :: NoPageAt(pages, path) ==> Intermediate(Lookup(toc, path), path)
  {
    forall path | NoPageAt(pages, path)
      ensures Intermediate(Lookup(toc, path), path)
    {
      TocIntermediate(pages, sorted, toc, path);
    }
  }

  lemma TocIntermediate(pages: seq<Page>, sorted: seq<Page>, toc: seq<TocNode>, path: seq<string>)
    requires multiset(sorted) == multiset(pages)
    requires multiset(toc) == multiset(AddPages(Root, sorted).children)
    requires NoPageAt(pages, path)
    ensures Intermediate(Lookup(toc, path), path)
  {
    forall p | p in sorted
      ensures SlugSegments(p.slug) != path
    {
      assert p in multiset(sorted);
    }
    AddPagesWellFormed(Root, sorted);
    AddPagesIntermediate(Root, sorted, path);
    LookupPermutation(AddPages(Root, sorted).children, toc, path);
  }
}
