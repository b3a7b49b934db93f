/**
  Worked examples of the table of contents: a parent page with two children, and an index
  page with a child page next to a page that has no index page.
 */
module TocExamples {
  import opened Strings
  import opened Sorting
  import opened TocUtils

  const PageA := Page("/a", "A", map[])
  const PageB := Page("/a/b", "B", map[PageOrderKey := "2"])
  const PageC := Page("/a/c", "C", map[PageOrderKey := "1"])
  const ExamplePages := [PageA, PageB, PageC]

  const NodeB := TocNode("b", "B", "/a/b", 2, [])
  const NodeC := TocNode("c", "C", "/a/c", 1, [])

  lemma SegmentsOfA()
    ensures SlugSegments(PageA.slug) == ["a"]
  {
    assert JoinedSlug(["a"]) == PageA.slug;
    SlugRoundTrip(["a"]);
  }

  lemma SegmentsOfB()
    ensures SlugSegments(PageB.slug) == ["a", "b"]
  {
    assert JoinedSlug(["a", "b"]) == PageB.slug;
    SlugRoundTrip(["a", "b"]);
  }

  lemma SegmentsOfC()
    ensures SlugSegments(PageC.slug) == ["a", "c"]
  {
    assert JoinedSlug(["a", "c"]) == PageC.slug;
    SlugRoundTrip(["a", "c"]);
  }

  lemma ExampleOrders()
    ensures GetSortOrder(PageA) == 0 && GetSortOrder(PageB) == 2 && GetSortOrder(PageC) == 1
  {
    assert FormatInt(2) == "2";
    SortOrderOfWritten(PageB, 2);
    assert FormatInt(1) == "1";
    SortOrderOfWritten(PageC, 1);
  }

  /** The example pages are already in ordinal slug order. */
  lemma ExampleInSlugOrder()
    ensures TotalPreorder(StringLe) && SortPagesBySlug(ExamplePages, StringLe) == ExamplePages
  {
    StringLeIsPreorder();
    BySlugIsPreorder(StringLe);
    ExampleSlugsAscending();
    SortSorted(ExamplePages, BySlug(StringLe));
  }

  lemma ExampleSlugsAscending()
    ensures StrictlySortedBy(ExamplePages, BySlug(StringLe))
  {
    PrefixBefore(PageB.slug, PageA.slug);
    PrefixBefore(PageC.slug, PageA.slug);
    assert !StringLe(PageC.slug, PageB.slug);
  }

  const A0 := TocNode("a", "A", "/a", 0, [])

  lemma FirstPath()
    ensures AddPath([], [], ["a"], "A", 0) == [A0]
  {
    assert JoinedSlug(["a"]) == "/a";
    assert SortByOrder([]) == [];
  }

  lemma SecondPath()
    ensures AddPath([A0], [], ["a", "b"], "B", 2) == [A0.(children := [NodeB])]
  {
    assert ["a", "b"][1..] == ["b"];
    assert [] + ["a"] == ["a"];
    assert ["a"] + ["b"] == ["a", "b"];
    assert JoinedSlug(["a", "b"]) == "/a/b";
    assert SortByOrder([]) == [];
    assert AddPath([], ["a"], ["b"], "B", 2) == [NodeB];
  }

  lemma ThirdPath()
    ensures AddPath([A0.(children := [NodeB])], [], ["a", "c"], "C", 1) == [A0.(children := [NodeB, NodeC])]
  {
    assert ["a", "c"][1..] == ["c"];
    assert [] + ["a"] == ["a"];
    assert ["a"] + ["c"] == ["a", "c"];
    assert FindChild([A0.(children := [NodeB])], "a") == 0;
    ThirdLeaf();
  }

  lemma ThirdLeaf()
    ensures AddPath([NodeB], ["a"], ["c"], "C", 1) == [NodeB, NodeC]
  {
    assert ["a"] + ["c"] == ["a", "c"];
    assert JoinedSlug(["a", "c"]) == "/a/c";
    assert SortByOrder([]) == [];
    assert FindChild([NodeB], "c") == 1;
  }

  /** Adding a page is adding its segments, title and order below the root. */
  lemma PageStep(root: TocNode, page: Page, segments: seq<string>, order: int, children: seq<TocNode>)
    requires SlugSegments(page.slug) == segments && GetSortOrder(page) == order
    requires AddPath(root.children, [], segments, page.title, order) == children
    ensures AddPage(root, page).children == children
  {
  }

  lemma AddPagesStep(root: TocNode, pages: seq<Page>)
    requires |pages| > 0
    ensures AddPages(root, pages) == AddPages(AddPage(root, pages[0]), pages[1..])
  {
  }

  lemma ExampleFirstTwo()
    ensures AddPage(AddPage(Root, PageA), PageB).children == [A0.(children := [NodeB])]
  {
    ExampleOrders();
    SegmentsOfA();
    FirstPath();
    PageStep(Root, PageA, ["a"], 0, [A0]);
    SegmentsOfB();
    SecondPath();
    PageStep(AddPage(Root, PageA), PageB, ["a", "b"], 2, [A0.(children := [NodeB])]);
  }

  lemma ExampleTrie()
    ensures AddPages(Root, ExamplePages).children == [A0.(children := [NodeB, NodeC])]
  {
    var r2 := AddPage(AddPage(Root, PageA), PageB);
    ExampleFirstTwo();
    ExampleOrders();
    SegmentsOfC();
    ThirdPath();
    PageStep(r2, PageC, ["a", "c"], 1, [A0.(children := [NodeB, NodeC])]);
    AddPagesStep(Root, ExamplePages);
    assert ExamplePages[1..] == [PageB, PageC];
    AddPagesStep(AddPage(Root, PageA), [PageB, PageC]);
    assert [PageB, PageC][1..] == [PageC];
    AddPagesStep(r2, [PageC]);
    assert [PageC][1..] == [];
  }

  const Guide := Page("/guide", "Guide", map[PageOrderKey := "3"])
  const Install := Page("/guide/install", "Install", map[])
  const Types := Page("/api/types", "Types", map[])

  /**
    An index page "/guide" (order 3) added after its child page "/guide/install": the index
    page sorts first, so its node carries its own title and order.
   */
  lemma IndexPageExample()
    ensures TotalPreorder(StringLe)
    ensures var toc := BuildSiteTocNodes([Install, Guide], StringLe);
            && Lookup(toc, ["guide"]).Some? && Lookup(toc, ["guide"]).value.text == "Guide"
            && Lookup(toc, ["guide"]).value.sortOrder == 3
  {
    StringLeIsPreorder();
    SegmentsOfGuide();
    GuideFirstOnPath();
    assert FormatInt(3) == "3";
    SortOrderOfWritten(Guide, 3);
  }

  /** A page "/api/types" with no page "/api": the node "api" carries its segment and order 0. */
  lemma IntermediateExample()
    ensures TotalPreorder(StringLe)
    ensures var toc := BuildSiteTocNodes([Types], StringLe);
            && Lookup(toc, ["api"]).Some? && Lookup(toc, ["api"]).value.text == "api"
            && Lookup(toc, ["api"]).value.sortOrder == 0
  {
    StringLeIsPreorder();
    ApiIsNoPage();
    IntermediateAt([Types], StringLe, ["api"]);
    ApiIsPresent(BuildSiteTocNodes([Types], StringLe));
  }

  /** The intermediate-node clause of `BuildSiteTocNodes`, for one path. */
  lemma IntermediateAt(pages: seq<Page>, slugLe: (string, string) -> bool, path: seq<string>)
    requires TotalPreorder(slugLe) && NoPageAt(pages, path)
    ensures Intermediate(Lookup(BuildSiteTocNodes(pages, slugLe), path), path)
  {
  }

  lemma ApiIsNoPage()
    ensures NoPageAt([Types], ["api"])
  {
    SegmentsOfTypes();
  }

  /** The node "api" is there because the page "/api/types" below it is. */
  lemma ApiIsPresent(toc: seq<TocNode>)
    requires Lookup(toc, SlugSegments(Types.slug)).Some?
    ensures Lookup(toc, ["api"]).Some?
  {
    SegmentsOfTypes();
    assert Lookup(toc, ["api", "types"]).Some?;
  }

  lemma SegmentsOfGuide()
    ensures SlugSegments(Guide.slug) == ["guide"]
  {
    assert JoinedSlug(["guide"]) == Guide.slug;
    SlugRoundTrip(["guide"]);
  }

  lemma SegmentsOfTypes()
    ensures SlugSegments(Types.slug) == ["api", "types"]
  {
    assert JoinedSlug(["api", "types"]) == Types.slug;
    SlugRoundTrip(["api", "types"]);
  }

  /** The child page is the only other page on the index page's path, and it sorts after it. */
  lemma GuideFirstOnPath()
    ensures FirstInSlugOrder(Guide, [Install, Guide], StringLe)
  {
    InstallAfterGuide();
  }

  lemma InstallAfterGuide()
    ensures !StringLe(Install.slug, Guide.slug)
  {
    PrefixBefore(Install.slug, Guide.slug);
  }

  /**
    Pages "/a", "/a/b" with order 2 and "/a/c" with order 1: only the children of each
    page's own node are sorted, so "a" keeps its children in insertion order, b before c.
   */
  lemma ChildrenKeepInsertionOrder()
    ensures TotalPreorder(StringLe) &&
            BuildSiteTocNodes(ExamplePages, StringLe) == [TocNode("a", "A", "/a", 0, [NodeB, NodeC])]
  {
    ExampleInSlugOrder();
    ExampleTrie();
    var children := [A0.(children := [NodeB, NodeC])];
    assert SortByOrder(children) == children by {
      OrderLeIsPreorder();
      SortSorted(children, OrderLe);
    }
  }

  /**
    A list below the root is sorted when a page's walk ends at its owner: a page "/a" added
    after "/a/b" (order 2) and "/a/c" (order 1) puts c before b.
   */
  lemma WalkEndResorts()
    ensures AddPath([A0.(children := [NodeB, NodeC])], [], ["a"], "A", 0) == [A0.(children := [NodeC, NodeB])]
  {
    assert FindChild([A0.(children := [NodeB, NodeC])], "a") == 0;
    var r := SortByOrder([NodeB, NodeC]);
    assert multiset(r) == multiset{NodeB, NodeC};
    assert |r| == 2;
    assert r[0] in multiset(r) && r[1] in multiset(r);
    assert OrderLe(r[0], r[1]);
    assert r == [NodeC, NodeB];
  }
}
