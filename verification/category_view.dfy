/** views/CategoryPostListView.tsx: the posts under a selected category of the category tree,
    narrowed by a search, shown nine at a time. */
module CategoryView {
  import opened Strings
  import opened Seqs
  import opened Types
  import opened Listing
  import opened CategoryTree

  const PageStep: nat := 9

  /** `category` is the selection itself or lies below it in the `/`-separated tree. */
  predicate Under(category: string, selection: string) {
    category == selection || StartsWith(category, selection + "/")
  }

  /** The search looks at the title and the excerpt only. */
  predicate MatchesSearch(p: Post, query: string) {
    ContainsIgnoringCase(p.title, query) || ContainsIgnoringCase(p.excerpt, query)
  }

  predicate MatchesCategory(p: Post, selection: string) {
    selection == All || Under(p.category, selection)
  }

  predicate Shown(query: string, selection: string, p: Post) {
    MatchesSearch(p, query) && MatchesCategory(p, selection)
  }

  /** `filteredPosts`. */
  function FilteredPosts(posts: seq<Post>, query: string, selection: string): seq<Post> {
    Filter(posts, p => Shown(query, selection, p))
  }

  /** The list holds exactly the posts that match both the search and the selection, in
      their original order. */
  lemma FilteredPostsSpec(posts: seq<Post>, query: string, selection: string)
    ensures var r := FilteredPosts(posts, query, selection);
      && IsSubseq(r, posts)
      && (forall p :: p in r <==> (p in posts
           && (ContainsIgnoringCase(p.title, query) || ContainsIgnoringCase(p.excerpt, query))
           && (selection == All || p.category == selection || StartsWith(p.category, selection + "/"))))
      && (forall p :: multiset(r)[p] ==
           if (ContainsIgnoringCase(p.title, query) || ContainsIgnoringCase(p.excerpt, query))
           && (selection == All || p.category == selection || StartsWith(p.category, selection + "/"))
           then multiset(posts)[p] else 0)
  {
    FilterSpec(posts, p => Shown(query, selection, p));
  }

  /** "Design" selects "Design/UI" but not "Designer". */
  lemma UnderIsPathPrefix()
    ensures Under("Design/UI", "Design")
    ensures !Under("Designer", "Design")
  {
    assert ("Design/UI")[..7] == "Design/";
    assert ("Designer")[..7] != "Design/" by {
      assert ("Designer")[..7][6] == 'e';
    }
  }

  /** Being below is transitive: a category below a subcategory is below its parent. */
  lemma UnderTransitive(c: string, b: string, a: string)
    requires Under(c, b) && Under(b, a)
    ensures Under(c, a)
  {
    if c != b && b != a {
      assert c[..|a| + 1] == b[..|a| + 1];
    }
  }

  /** Selecting a subcategory never shows a post its parent does not. */
  lemma NarrowerSelection(posts: seq<Post>, query: string, parent: string, child: string)
    requires parent != All && child != All && Under(child, parent)
    ensures forall p :: p in FilteredPosts(posts, query, child) ==> p in FilteredPosts(posts, query, parent)
  {
    FilteredPostsSpec(posts, query, child);
    FilteredPostsSpec(posts, query, parent);
    forall p | p in FilteredPosts(posts, query, child)
      ensures p in FilteredPosts(posts, query, parent)
    {
      UnderTransitive(p.category, child, parent);
    }
  }

  /** `CategoryItem`'s `isSelected`: the selection is the node's path or lies below it, the
      post filter's relation with the roles exchanged. The component computes it and never
      reads it. */
  predicate InPath(selection: string, fullPath: string) {
    Under(selection, fullPath)
  }

  /** `isSelected` holds for a node's own path and the paths below it, and for such a node
      every post the selection lists is also one the node's path lists. */
  lemma InPathSpec(posts: seq<Post>, query: string, selection: string, fullPath: string)
    requires selection != All && fullPath != All
    ensures InPath(selection, fullPath) <==> selection == fullPath || StartsWith(selection, fullPath + "/")
    ensures InPath(selection, fullPath) ==>
      forall p :: p in FilteredPosts(posts, query, selection) ==> p in FilteredPosts(posts, query, fullPath)
  {
    if InPath(selection, fullPath) {
      NarrowerSelection(posts, query, fullPath, selection);
    }
  }

  /** The highlight the tree draws: the button's background and the icon colour compare the
      selection with the node's path and nothing else. */
  predicate Highlighted(selection: string, fullPath: string) {
    selection == fullPath
  }

  /** The paths of all nodes of a tree level and below, in display order, with every node
      expanded as it starts (`useState(true)`); collapsing only hides nodes. */
  function Paths(level: seq<CategoryNode>): seq<string>
    decreases level
  {
    if |level| == 0 then []
    else [level[0].fullPath] + Paths(level[0].children) + Paths(level[1..])
  }

  /** The highlighted nodes, in display order. */
  function HighlightedPaths(level: seq<CategoryNode>, selection: string): seq<string>
    decreases level
  {
    if |level| == 0 then []
    else
      (if Highlighted(selection, level[0].fullPath) then [level[0].fullPath] else [])
      + HighlightedPaths(level[0].children, selection) + HighlightedPaths(level[1..], selection)
  }

  /** Every highlighted node carries the selection as its path, so an ancestor of the
      selection is never highlighted; and a node is highlighted exactly as often as the
      selection occurs among the tree's paths. */
  lemma HighlightedPathsSpec(level: seq<CategoryNode>, selection: string)
    ensures forall x :: x in HighlightedPaths(level, selection) ==> x == selection
    ensures |HighlightedPaths(level, selection)| == multiset(Paths(level))[selection]
  {
    HighlightedAreSelection(level, selection);
    HighlightedCount(level, selection);
  }

  lemma {:induction false} HighlightedAreSelection(level: seq<CategoryNode>, selection: string)
    ensures forall x :: x in HighlightedPaths(level, selection) ==> x == selection
    decreases level
  {
    if |level| > 0 {
      HighlightedAreSelection(level[0].children, selection);
      HighlightedAreSelection(level[1..], selection);
    }
  }

  lemma {:induction false} HighlightedCount(level: seq<CategoryNode>, selection: string)
    ensures |HighlightedPaths(level, selection)| == multiset(Paths(level))[selection]
    decreases level
  {
    if |level| > 0 {
      var n := level[0];
      HighlightedCount(n.children, selection);
      HighlightedCount(level[1..], selection);
      var own := if n.fullPath == selection then 1 else 0;
      var a := if Highlighted(selection, n.fullPath) then [n.fullPath] else [];
      assert |a| == own;
      assert |HighlightedPaths(level, selection)|
        == |a| + |HighlightedPaths(n.children, selection)| + |HighlightedPaths(level[1..], selection)|;
      var p, q := Paths(n.children), Paths(level[1..]);
      assert Paths(level) == [n.fullPath] + p + q;
      assert multiset([n.fullPath] + p + q) == multiset([n.fullPath]) + multiset(p) + multiset(q);
      assert multiset([n.fullPath])[selection] == own;
    }
  }

  /** Selecting "Design/UI" highlights that node, while "Design", on the path to it and
      `isSelected`, stays plain. */
  lemma SubcategoryHighlightsOnlyItself()
    ensures Highlighted("Design/UI", "Design/UI")
    ensures InPath("Design/UI", "Design") && !Highlighted("Design/UI", "Design")
  {
    assert ("Design/UI")[..7] == "Design/";
  }

  /** `displayPosts` after `loads` presses of load-more, and whether the button shows. */
  function Displayed(filtered: seq<Post>, loads: nat): (r: seq<Post>)
    ensures |r| == if PageStep * (loads + 1) < |filtered| then PageStep * (loads + 1) else |filtered|
    ensures r == filtered[..|r|]
  {
    Page(filtered, PageStep * (loads + 1))
  }

  predicate ShowsLoadMore(filtered: seq<Post>, loads: nat) {
    |filtered| > PageStep * (loads + 1)
  }

  /** The button shows exactly while posts are hidden; each press shows nine more, and
      enough presses show them all. */
  lemma LoadMoreSpec(filtered: seq<Post>, loads: nat)
    ensures ShowsLoadMore(filtered, loads) <==> |Displayed(filtered, loads)| < |filtered|
    ensures Displayed(filtered, loads) == Displayed(filtered, loads + 1)[..|Displayed(filtered, loads)|]
    ensures ShowsLoadMore(filtered, loads) ==>
      (|Displayed(filtered, loads + 1)| == |Displayed(filtered, loads)| + PageStep || Displayed(filtered, loads + 1) == filtered)
    ensures PageStep * (loads + 1) >= |filtered| ==> Displayed(filtered, loads) == filtered
  {
    PageSpec(filtered, PageStep * (loads + 1), PageStep);
  }
}
