/** views/AdminDashboard.tsx: the admin's post list with its category and search filters, and
    the form that adds a memo. */
module AdminDashboard {
  import opened Wrappers
  import opened Strings
  import opened Seqs
  import opened Types
  import opened Listing
  import LocalApi

  /** The title, or a non-empty author, contains the query. */
  predicate MatchesSearch(p: Post, query: string) {
    ContainsIgnoringCase(p.title, query) || (p.author != "" && ContainsIgnoringCase(p.author, query))
  }

  /** The raw category must equal the selection. */
  predicate MatchesCategory(p: Post, selection: string) {
    selection == All || p.category == selection
  }

  predicate Shown(query: string, selection: string, p: Post) {
    MatchesSearch(p, query) && MatchesCategory(p, selection)
  }

  function FilteredPosts(posts: seq<Post>, query: string, selection: string): seq<Post> {
    Filter(posts, p => Shown(query, selection, p))
  }

  /** The list holds exactly the posts matching both filters, in their original order. */
  lemma FilteredPostsSpec(posts: seq<Post>, query: string, selection: string)
    ensures var r := FilteredPosts(posts, query, selection);
      && IsSubseq(r, posts)
      && (forall p :: p in r <==> (p in posts
           && (ContainsIgnoringCase(p.title, query) || (p.author != "" && ContainsIgnoringCase(p.author, query)))
           && (selection == All || p.category == selection)))
      && (forall p :: multiset(r)[p] ==
           if (ContainsIgnoringCase(p.title, query) || (p.author != "" && ContainsIgnoringCase(p.author, query)))
           && (selection == All || p.category == selection)
           then multiset(posts)[p] else 0)
  {
    FilterSpec(posts, p => Shown(query, selection, p));
  }

  /** The category menu offers "Uncategorized" as soon as some post has no category, but
      choosing it never lists such a post: the menu shows a label, the filter compares the
      raw field. */
  lemma UncategorizedMissesEmpty(posts: seq<Post>, query: string)
    requires exists i :: 0 <= i < |posts| && posts[i].category == ""
    ensures Uncategorized in CategoryList(posts)
    ensures forall p :: p in FilteredPosts(posts, query, Uncategorized) ==> p.category != ""
  {
    var i :| 0 <= i < |posts| && posts[i].category == "";
    assert Labels(posts)[i] == Uncategorized;
    CategoryListSpec(posts);
    var r := CategoryList(posts);
    assert Uncategorized in r[1..];
    FilteredPostsSpec(posts, query, Uncategorized);
  }

  // ---------------------------------------------------------------------------------------
  // Adding a memo

  const FullWidthComma: char := '\U{FF0C}'

  /** `split(/[,，]/).map(t => t.trim()).filter(Boolean)`. */
  function MemoTags(text: string): seq<string> {
    SplitTrimNonEmpty(text, {',', FullWidthComma})
  }

  /** A tag as the form produces one: non-empty, trimmed, without either comma. */
  predicate IsTag(t: string) {
    t != "" && IsTrimmed(t) && ',' !in t && FullWidthComma !in t
  }

  /** Every tag the form yields is a proper tag, and the tags are exactly the non-empty
      trimmed pieces between commas. */
  lemma MemoTagsSpec(text: string)
    ensures forall k :: 0 <= k < |MemoTags(text)| ==> IsTag(MemoTags(text)[k])
    ensures forall t :: t in MemoTags(text) <==> t in TrimAll(Split(text, {',', FullWidthComma})) && t != ""
  {
    var pieces := Split(text, {',', FullWidthComma});
    forall k | 0 <= k < |pieces|
      ensures IsTag(TrimAll(pieces)[k]) || TrimAll(pieces)[k] == ""
    {
      TrimResult(pieces[k], ',');
      TrimResult(pieces[k], FullWidthComma);
    }
    var tags := MemoTags(text);
    forall k | 0 <= k < |tags|
      ensures IsTag(tags[k])
    {
      assert tags[k] in TrimAll(pieces);
    }
  }

  /** An empty tag field gives no tags: `"".split(...)` is `[""]`, which the filter drops. */
  lemma MemoTagsEmpty()
    ensures MemoTags("") == []
  {
    assert Split("", {',', FullWidthComma}) == [""];
    assert Trim("") == "";
    assert TrimAll([""]) == [""];
  }

  /** Tags written back as `tags.join(", ")` are read again unchanged; no tags give the
      empty text, which reads back as no tags. */
  lemma MemoTagsRoundTrip(tags: seq<string>)
    requires forall k :: 0 <= k < |tags| ==> IsTag(tags[k])
    ensures MemoTags(Join(tags, ", ")) == tags
  {
    if |tags| == 0 {
      assert Join(tags, ", ") == "";
      MemoTagsEmpty();
    } else {
      JoinedTagsRead(tags);
    }
  }

  lemma JoinedTagsRead(tags: seq<string>)
    requires |tags| >= 1
    requires forall k :: 0 <= k < |tags| ==> IsTag(tags[k])
    ensures MemoTags(Join(tags, ", ")) == tags
  {
    var text := Join(tags, ", ");
    JoinAvoids(tags, ", ", FullWidthComma);
    SplitUnusedSep(text, ',', FullWidthComma);
    CommaSpaceRoundTrip(tags);
    NonEmptyNoop(tags);
  }

  /** Reading the tag text is idempotent on its own output. */
  lemma MemoTagsIdempotent(text: string)
    ensures MemoTags(Join(MemoTags(text), ", ")) == MemoTags(text)
  {
    MemoTagsSpec(text);
    MemoTagsRoundTrip(MemoTags(text));
  }

  /** The memo form's three fields. */
  datatype MemoForm = MemoForm(content: string, image: string, tags: string)

  const EmptyMemoForm := MemoForm("", "", "")

  /** `handleAddMemo`: nothing happens for blank content; otherwise the memo is stored with
      the content as typed, an image list only for a non-empty URL and a tag list only when
      some tag remains, and the form is cleared. Returns the memo list and the form. */
  function HandleAddMemo(memos: seq<Memo>, form: MemoForm, freshId: string, now: string): (r: (seq<Memo>, MemoForm))
    ensures Trim(form.content) == "" ==> r == (memos, form)
    ensures Trim(form.content) != "" ==>
      && r.1 == EmptyMemoForm
      && |r.0| == |memos| + 1 && r.0[1..] == memos
      && r.0[0].id == freshId && r.0[0].content == form.content && r.0[0].date == now
      && (r.0[0].images.Some? <==> form.image != "")
      && (r.0[0].images.Some? ==> r.0[0].images.value == [form.image])
      && (r.0[0].tags.None? <==> MemoTags(form.tags) == [])
      && (r.0[0].tags.Some? ==> r.0[0].tags.value == MemoTags(form.tags))
  {
    if Trim(form.content) == "" then (memos, form)
    else
      var images := if form.image != "" then Some([form.image]) else None;
      var tags := MemoTags(form.tags);
      (LocalApi.AddMemo(memos, form.content, images, if |tags| > 0 then Some(tags) else None, freshId, now),
       EmptyMemoForm)
  }
}
