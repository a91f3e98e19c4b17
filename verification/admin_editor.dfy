/** views/AdminEditor.tsx: the editor form, filled from the post being edited or with
    defaults, and the post `handleSave` builds from it. `generateId()` and today's date are
    parameters. */
module AdminEditor {
  import opened Wrappers
  import opened Strings
  import opened Types
  import LocalApi

  const DefaultCover: string := "https://images.unsplash.com/photo-1506784983877-45594efa4cbe?q=80&w=1000&auto=format&fit=crop"
  const DefaultCategory: string := "Tech"
  const DefaultAuthor: string := "Admin"
  const ExcerptLength: nat := 100

  /** The form's fields; tags are one comma-separated text. */
  datatype EditorForm = EditorForm(
    title: string, content: string, excerpt: string, coverImage: string,
    tags: string, category: string, author: string, featured: bool)

  /** The form's initial state: the edited post's fields, each falling back to its default
      when empty, and its tags joined by ", "; all defaults for a new post. */
  function InitialForm(initial: Option<Post>): (f: EditorForm)
    ensures initial.None? ==> f == EditorForm("", "", "", DefaultCover, "", DefaultCategory, DefaultAuthor, false)
    ensures initial.Some? ==>
      && f.title == initial.value.title && f.content == initial.value.content
      && f.excerpt == initial.value.excerpt && f.featured == initial.value.featured
      && f.tags == Join(initial.value.tags, ", ")
      && f.coverImage == (if initial.value.coverImage != "" then initial.value.coverImage else DefaultCover)
      && f.category == (if initial.value.category != "" then initial.value.category else DefaultCategory)
      && f.author == (if initial.value.author != "" then initial.value.author else DefaultAuthor)
  {
    match initial
    case None => EditorForm("", "", "", DefaultCover, "", DefaultCategory, DefaultAuthor, false)
    case Some(p) =>
      EditorForm(p.title, p.content, p.excerpt, OrElse(p.coverImage, DefaultCover),
                 OrElse(Join(p.tags, ", "), ""), OrElse(p.category, DefaultCategory),
                 OrElse(p.author, DefaultAuthor), p.featured)
  }

  /** `content.substring(0, 100) + "..."`. */
  function DefaultExcerpt(content: string): (r: string)
    ensures |r| == (if |content| < ExcerptLength then |content| else ExcerptLength) + 3
    ensures r[..|r| - 3] == content[..|r| - 3] && r[|r| - 3..] == "..."
  {
    (if |content| < ExcerptLength then content else content[..ExcerptLength]) + "..."
  }

  /** `tags.split(",").map(t => t.trim()).filter(Boolean)`. */
  function FormTags(text: string): seq<string> {
    SplitTrimNonEmpty(text, {','})
  }

  /** A tag that survives being written into the text field and read back. */
  predicate IsTag(t: string) {
    t != "" && IsTrimmed(t) && ',' !in t
  }

  /** `handleSave` as written: no post without a title and content; otherwise the form's
      fields, the edited post's id and date (fresh ones for a new post, or when empty), a
      default excerpt, and the parsed tags. The literal leaves `comments` and `likes` out,
      so the post carries none. */
  function BuildPostAsWritten(initial: Option<Post>, form: EditorForm, freshId: string, today: string): Option<Post> {
    if form.title == "" || form.content == "" then None
    else
      var id := OrElse(if initial.Some? then initial.value.id else "", freshId);
      var date := OrElse(if initial.Some? then initial.value.date else "", today);
      Some(Post(id, form.title, OrElse(form.excerpt, DefaultExcerpt(form.content)), form.content,
                form.coverImage, date, FormTags(form.tags), form.category, form.author, [], form.featured, 0))
  }

  /** The post `handleSave` evidently means to build: the same, but an edited post keeps its
      comments and likes. */
  function BuildPost(initial: Option<Post>, form: EditorForm, freshId: string, today: string): Option<Post> {
    match BuildPostAsWritten(initial, form, freshId, today)
    case None => None
    case Some(p) =>
      if initial.Some? then Some(p.(comments := initial.value.comments, likes := initial.value.likes)) else Some(p)
  }

  /** Saving needs a title and content; the id and date of an edited post survive unless
      empty; an empty excerpt becomes the first hundred characters of the content and "...";
      the tags are trimmed, non-empty and comma-free; every other field is the form's. */
  lemma BuildPostSpec(initial: Option<Post>, form: EditorForm, freshId: string, today: string)
    ensures var r := BuildPost(initial, form, freshId, today);
      && (r.None? <==> form.title == "" || form.content == "")
      && (r.Some? ==>
        var p := r.value;
        && (initial.Some? && initial.value.id != "" ==> p.id == initial.value.id)
        && ((initial.None? || initial.value.id == "") ==> p.id == freshId)
        && (initial.Some? && initial.value.date != "" ==> p.date == initial.value.date)
        && ((initial.None? || initial.value.date == "") ==> p.date == today)
        && (form.excerpt == "" ==> p.excerpt == DefaultExcerpt(form.content))
        && (form.excerpt != "" ==> p.excerpt == form.excerpt)
        && (forall k :: 0 <= k < |p.tags| ==> IsTag(p.tags[k]))
        && p.title == form.title && p.content == form.content && p.coverImage == form.coverImage
        && p.category == form.category && p.author == form.author && p.featured == form.featured
        && (initial.Some? ==> p.comments == initial.value.comments && p.likes == initial.value.likes)
        && (initial.None? ==> p.comments == [] && p.likes == 0))
  {
    var pieces := Split(form.tags, {','});
    forall k | 0 <= k < |pieces|
      ensures TrimAll(pieces)[k] == "" || IsTag(TrimAll(pieces)[k])
    {
      TrimResult(pieces[k], ',');
    }
    var tags := FormTags(form.tags);
    forall k | 0 <= k < |tags|
      ensures IsTag(tags[k])
    {
      assert tags[k] in TrimAll(pieces);
    }
  }

  /** Tag text written as `tags.join(", ")` reads back as the same tags. */
  lemma FormTagsRoundTrip(tags: seq<string>)
    requires forall k :: 0 <= k < |tags| ==> IsTag(tags[k])
    ensures FormTags(Join(tags, ", ")) == tags
  {
    if |tags| == 0 {
      assert TrimAll([""]) == [""] by {
        TrimNoop("");
      }
    } else {
      CommaSpaceRoundTrip(tags);
      NonEmptyNoop(tags);
    }
  }

  /** The form as opened on a post, every field filled: the post the user started from. */
  predicate Complete(p: Post) {
    p.id != "" && p.title != "" && p.content != "" && p.excerpt != "" && p.coverImage != ""
    && p.category != "" && p.author != "" && p.date != ""
    && forall k :: 0 <= k < |p.tags| ==> IsTag(p.tags[k])
  }

  /** Opening a post and saving it without edits gives back the same post. */
  lemma SaveUnchangedIsIdentity(p: Post, freshId: string, today: string)
    requires Complete(p)
    ensures BuildPost(Some(p), InitialForm(Some(p)), freshId, today) == Some(p)
  {
    FormTagsRoundTrip(p.tags);
  }

  /** As written, opening a post that has comments or likes and saving it without edits
      builds a post with neither, and the local store then keeps that post in the original's
      place. */
  lemma SaveUnchangedWipesComments(posts: seq<Post>, p: Post, freshId: string, today: string)
    requires Complete(p) && (|p.comments| > 0 || p.likes != 0)
    ensures var r := BuildPostAsWritten(Some(p), InitialForm(Some(p)), freshId, today);
      && r.Some? && r.value.comments == [] && r.value.likes == 0 && r != Some(p)
      && var stored := LocalApi.AddOrUpdatePost(posts, r.value);
         var k := LocalApi.SavedAt(posts, p.id);
         k < |stored| && stored[k].id == p.id && stored[k].comments == [] && stored[k].likes == 0
  {
    var r := BuildPostAsWritten(Some(p), InitialForm(Some(p)), freshId, today);
    LocalApi.AddOrUpdatePostSpec(posts, r.value);
  }
}
