/** Listing rules the post views share: case-insensitive search, the category list of the
    navigation bar and the admin filter, and load-more paging. */
module Listing {
  import opened Strings
  import opened Seqs
  import opened Types

  /** `s.toLowerCase().includes(q.toLowerCase())`. */
  predicate ContainsIgnoringCase(s: string, q: string) {
    Includes(Lower(s), Lower(q))
  }

  const All: string := "All"
  const Uncategorized: string := "Uncategorized"

  /** `p.category || "Uncategorized"`. */
  function CategoryLabel(category: string): (r: string)
    ensures r != ""
    ensures category != "" ==> r == category
  {
    if category == "" then Uncategorized else category
  }

  function Labels(posts: seq<Post>): (r: seq<string>)
    ensures |r| == |posts|
    ensures forall i :: 0 <= i < |posts| ==> r[i] == CategoryLabel(posts[i].category)
  {
    seq(|posts|, i requires 0 <= i < |posts| => CategoryLabel(posts[i].category))
  }

  /** `["All", ...Array.from(new Set(posts.map(p => p.category || "Uncategorized")))]`. */
  function CategoryList(posts: seq<Post>): seq<string> {
    [All] + Dedup(Labels(posts))
  }

  /** "All" comes first; then each post's label once, in the order the labels first occur;
      no entry is empty. */
  lemma CategoryListSpec(posts: seq<Post>)
    ensures var r := CategoryList(posts);
      && |r| >= 1 && r[0] == All
      && (forall x :: x in r[1..] <==> x in Labels(posts))
      && NoDuplicates(r[1..])
      && r[1..] == FirstOccurrences(Labels(posts))
      && "" !in r
  {
    var r := CategoryList(posts);
    assert r[1..] == Dedup(Labels(posts));
    DedupFromSpec(Labels(posts), {});
    DedupIsFirstOccurrences(Labels(posts));
  }

  /** `xs.slice(0, n)`. */
  function Page<T>(xs: seq<T>, n: nat): (r: seq<T>)
    ensures |r| == if n < |xs| then n else |xs|
    ensures r == xs[..|r|]
  {
    if n < |xs| then xs[..n] else xs
  }

  /** The load-more button shows exactly while the page is shorter than the list, and a
      larger count shows a longer prefix of the same list. */
  lemma PageSpec<T>(xs: seq<T>, n: nat, step: nat)
    ensures |xs| > n <==> |Page(xs, n)| < |xs|
    ensures Page(xs, n) == Page(xs, n + step)[..|Page(xs, n)|]
    ensures |xs| <= n ==> Page(xs, n) == xs
  {
  }
}
