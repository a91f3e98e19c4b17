/** views/IndexView.tsx: the landing page's choice of a featured post and the latest posts,
    the weather icon for a WMO weather code, and the guard on the manual city search. The
    weather, quote and geocoding requests are not modelled. */
module IndexView {
  import opened Wrappers
  import opened Strings
  import opened Seqs
  import opened Types
  import opened Listing

  /** `posts.find(p => p.featured) || posts[0]`, `None` for an empty list. */
  function FeaturedPost(posts: seq<Post>): Option<Post> {
    FirstFeatured(posts, 0)
  }

  function FirstFeatured(posts: seq<Post>, i: nat): (r: Option<Post>)
    requires i <= |posts|
    decreases |posts| - i
  {
    if i == |posts| then (if |posts| > 0 then Some(posts[0]) else None)
    else if posts[i].featured then Some(posts[i])
    else FirstFeatured(posts, i + 1)
  }

  /** The featured post is the first post with the flag; with no flagged post it is the
      first post; there is none only for an empty list. */
  lemma FeaturedPostSpec(posts: seq<Post>)
    ensures FeaturedPost(posts).None? <==> posts == []
    ensures (exists i :: 0 <= i < |posts| && posts[i].featured) ==>
      exists i :: 0 <= i < |posts| && posts[i].featured && FeaturedPost(posts) == Some(posts[i])
        && forall j :: 0 <= j < i ==> !posts[j].featured
    ensures (forall i :: 0 <= i < |posts| ==> !posts[i].featured) && posts != [] ==>
      FeaturedPost(posts) == Some(posts[0])
  {
    FirstFeaturedSpec(posts, 0);
  }

  lemma {:induction false} FirstFeaturedSpec(posts: seq<Post>, i: nat)
    requires i <= |posts|
    ensures FirstFeatured(posts, i).None? <==> posts == []
    ensures (exists k :: i <= k < |posts| && posts[k].featured) ==>
      exists k :: i <= k < |posts| && posts[k].featured && FirstFeatured(posts, i) == Some(posts[k])
        && forall j :: i <= j < k ==> !posts[j].featured
    ensures (forall k :: i <= k < |posts| ==> !posts[k].featured) && posts != [] ==>
      FirstFeatured(posts, i) == Some(posts[0])
    decreases |posts| - i
  {
    if i < |posts| && !posts[i].featured {
      FirstFeaturedSpec(posts, i + 1);
    }
  }

  function NotId(id: string): Post -> bool {
    (p: Post) => p.id != id
  }

  /** `posts.filter(p => p.id !== featuredPost?.id).slice(0, 3)`; with no featured post the
      list is empty anyway. */
  function LatestPosts(posts: seq<Post>): seq<Post> {
    match FeaturedPost(posts)
    case None => Page(posts, 3)
    case Some(f) => Page(Filter(posts, NotId(f.id)), 3)
  }

  /** At most three posts, none sharing the featured post's id: the first three of the
      posts without that id, which keep their list order. */
  lemma LatestPostsSpec(posts: seq<Post>)
    ensures var r := LatestPosts(posts);
      && |r| <= 3
      && (FeaturedPost(posts).Some? ==>
        var others := Filter(posts, NotId(FeaturedPost(posts).value.id));
        && IsSubseq(others, posts)
        && (forall p :: p in others <==> p in posts && p.id != FeaturedPost(posts).value.id)
        && r == others[..|r|]
        && |r| == (if |others| < 3 then |others| else 3))
  {
    FeaturedPostSpec(posts);
    if FeaturedPost(posts).Some? {
      var keep := NotId(FeaturedPost(posts).value.id);
      FilterMembers(posts, keep);
      FilterSubseq(posts, keep);
    }
  }

  /** When ids are unique, the hero and the latest list never show the same post. */
  lemma FeaturedNotRepeated(posts: seq<Post>)
    requires forall i, j :: 0 <= i < j < |posts| ==> posts[i].id != posts[j].id
    ensures FeaturedPost(posts).Some? ==> FeaturedPost(posts).value !in LatestPosts(posts)
  {
    LatestPostsSpec(posts);
  }

  // ---------------------------------------------------------------------------------------
  // Weather

  /** The icon `getWeatherIcon` draws (the same table in views/HomeView.tsx); `PlainSun` is
      the uncoloured fallback. */
  datatype WeatherIcon = Sun | Cloud | Wind | Rain | Snow | Lightning | PlainSun

  function IconFor(code: int): WeatherIcon {
    if code == 0 then Sun
    else if 1 <= code <= 3 then Cloud
    else if 45 <= code <= 48 then Wind
    else if 51 <= code <= 67 then Rain
    else if 71 <= code <= 77 then Snow
    else if code >= 95 then Lightning
    else PlainSun
  }

  /** The WMO code bands as a table, each band with its icon. */
  const Bands: seq<(int, int, WeatherIcon)> := [(0, 0, Sun), (1, 3, Cloud), (45, 48, Wind), (51, 67, Rain), (71, 77, Snow)]

  /** The bands are disjoint, so the order of the tests does not matter: a code gets a
      band's icon exactly when it lies in the band, the lightning icon exactly from 95 up, and
      the fallback exactly for negative codes and the gaps 4–44, 49–50, 68–70 and 78–94. */
  lemma IconForBands(code: int)
    ensures forall b :: 0 <= b < |Bands| ==> (IconFor(code) == Bands[b].2 <==> Bands[b].0 <= code <= Bands[b].1)
    ensures IconFor(code) == Lightning <==> code >= 95
    ensures IconFor(code) == PlainSun <==>
      code < 0 || 4 <= code <= 44 || 49 <= code <= 50 || 68 <= code <= 70 || 78 <= code <= 94
  {
  }

  // ---------------------------------------------------------------------------------------
  // City search

  /** `handleManualLocationSearch`: the city name to look up, or `None` when the field is
      blank and nothing is requested. The name goes out as typed. */
  function CityQuery(city: string): (r: Option<string>)
    ensures r.Some? ==> r.value == city
  {
    if Trim(city) == "" then None else Some(city)
  }

  /** No request is made exactly when the field holds only white space. */
  lemma CityQueryBlank(city: string)
    ensures CityQuery(city).None? <==> forall i :: 0 <= i < |city| ==> IsJsSpace(city[i])
  {
    TrimEmptyIff(city);
  }
}
