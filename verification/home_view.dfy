/** views/HomeView.tsx: a featured post followed by a grid of the next posts, six more per
    press of load-more. The component is not mounted by index.tsx; its rules are modelled
    all the same. */
module HomeView {
  import opened Wrappers
  import opened Strings
  import opened Seqs
  import opened Types
  import opened Listing
  import CategoryView

  const PageSize: nat := 6

  /** The search looks at the title, the excerpt and a non-empty author. */
  predicate MatchesSearch(p: Post, query: string) {
    ContainsIgnoringCase(p.title, query) || ContainsIgnoringCase(p.excerpt, query)
    || (p.author != "" && ContainsIgnoringCase(p.author, query))
  }

  /** The category must merely contain the selection as a substring. */
  predicate MatchesCategory(p: Post, selection: string) {
    selection == All || (p.category != "" && Includes(p.category, selection))
  }

  predicate Shown(query: string, selection: string, p: Post) {
    MatchesSearch(p, query) && MatchesCategory(p, selection)
  }

  function FilteredPosts(posts: seq<Post>, query: string, selection: string): seq<Post> {
    Filter(posts, p => Shown(query, selection, p))
  }

  lemma FilteredPostsSpec(posts: seq<Post>, query: string, selection: string)
    ensures var r := FilteredPosts(posts, query, selection);
      && IsSubseq(r, posts)
      && (forall p :: p in r <==> (p in posts
           && (ContainsIgnoringCase(p.title, query) || ContainsIgnoringCase(p.excerpt, query)
             || (p.author != "" && ContainsIgnoringCase(p.author, query)))
           && (selection == All || (p.category != "" && Includes(p.category, selection)))))
      && (forall p :: multiset(r)[p] ==
           if (ContainsIgnoringCase(p.title, query) || ContainsIgnoringCase(p.excerpt, query)
             || (p.author != "" && ContainsIgnoringCase(p.author, query)))
           && (selection == All || (p.category != "" && Includes(p.category, selection)))
           then multiset(posts)[p] else 0)
  {
    FilterSpec(posts, p => Shown(query, selection, p));
  }

  /** The substring rule admits every post the category view's prefix rule admits (given a
      non-empty category), and more: "Designer" passes for "Design" here but not there. */
  lemma WiderThanCategoryView(p: Post, selection: string)
    requires p.category != ""
    ensures CategoryView.MatchesCategory(p, selection) ==> MatchesCategory(p, selection)
    ensures var designer := p.(category := "Designer");
      MatchesCategory(designer, "Design") && !CategoryView.MatchesCategory(designer, "Design")
  {
    if CategoryView.MatchesCategory(p, selection) && selection != All {
      assert OccursAt(p.category, selection, 0);
      IncludesAt(p.category, selection, 0);
    }
    var designer := p.(category := "Designer");
    assert OccursAt("Designer", "Design", 0);
    IncludesAt("Designer", "Design", 0);
    CategoryView.UnderIsPathPrefix();
  }

  /** The page after `loads` presses: the featured post, the grid and whether more remain. */
  datatype HomePage = HomePage(featured: Option<Post>, grid: seq<Post>, hasMore: bool)

  function VisibleCount(loads: nat): nat {
    PageSize * (loads + 1)
  }

  function Layout(filtered: seq<Post>, loads: nat): HomePage {
    var visible := VisibleCount(loads);
    HomePage(
      if |filtered| > 0 then Some(filtered[0]) else None,
      if |filtered| > 1 then Page(filtered[1..], visible) else [],
      |filtered| > 1 + visible)
  }

  /** The featured post and the grid together are the first `1 + visibleCount` filtered
      posts, the featured one never repeated in the grid's positions; more remain exactly
      when posts are left over. */
  lemma LayoutSpec(filtered: seq<Post>, loads: nat)
    ensures var page := Layout(filtered, loads);
      var shown := (if page.featured.Some? then [page.featured.value] else []) + page.grid;
      && (page.featured.None? <==> |filtered| == 0)
      && shown == filtered[..|shown|]
      && |shown| == (if 1 + VisibleCount(loads) < |filtered| then 1 + VisibleCount(loads) else |filtered|)
      && (forall i :: 0 <= i < |page.grid| ==> page.grid[i] == filtered[i + 1])
      && (page.hasMore <==> |shown| < |filtered|)
  {
    var page := Layout(filtered, loads);
    if |filtered| > 1 {
      var g := Page(filtered[1..], VisibleCount(loads));
      assert [filtered[0]] + g == filtered[..1 + |g|];
    }
  }
}
