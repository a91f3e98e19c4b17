/** PostService.java: the backend's post operations over the repository, which is modelled as
    a map from post id to post. `UUID.randomUUID()` and `LocalDateTime.now()` are parameters. */
module PostService {
  import opened Wrappers
  import opened Types
  import opened CommentTree
  import LocalApi

  type Store = map<string, Post>

  /** Java's `Character.isWhitespace`: the space, line and paragraph separators except the
      no-break spaces, and the nine control characters U+0009–U+000D, U+001C–U+001F. */
  predicate IsJavaWhitespace(c: char) {
    ('\t' <= c <= '\r') || ('\U{001C}' <= c <= '\U{001F}') || c == ' '
    || c == '\U{1680}' || ('\U{2000}' <= c <= '\U{200A}' && c != '\U{2007}')
    || c == '\U{2028}' || c == '\U{2029}' || c == '\U{205F}' || c == '\U{3000}'
  }

  /** `StringUtils.hasText`: not null and some character is not whitespace. */
  predicate HasText(s: Option<string>) {
    s.Some? && exists i :: 0 <= i < |s.value| && !IsJavaWhitespace(s.value[i])
  }

  /** The id a saved post ends up with: a null or empty id is replaced by a fresh one. */
  function AssignId(id: Option<string>, freshId: string): (r: string)
    ensures id.Some? && id.value != "" ==> r == id.value
  {
    if id.None? || id.value == "" then freshId else id.value
  }

  /** `clearAllFeatured`: every stored post loses the flag. */
  function ClearAllFeatured(store: Store): (r: Store)
    ensures r.Keys == store.Keys
    ensures forall k :: k in r ==> !r[k].featured && r[k].(featured := store[k].featured) == store[k]
  {
    map k | k in store :: store[k].(featured := false)
  }

  /** `savePost`: the incoming post with its id settled; a featured post first clears the
      flag on every stored post. Returns the new store and the saved post. */
  function SavePost(store: Store, post: Post, id: Option<string>, freshId: string): (Store, Post) {
    var saved := post.(id := AssignId(id, freshId));
    var cleared := if post.featured then ClearAllFeatured(store) else store;
    (cleared[saved.id := saved], saved)
  }

  /** At most one stored post is featured. */
  predicate AtMostOneFeatured(store: Store) {
    forall a, b :: a in store && b in store && store[a].featured && store[b].featured ==> a == b
  }

  /** The saved post is stored under its id and nothing else is added; every other post is
      kept, without its flag when the saved post is featured. */
  lemma SavePostSpec(store: Store, post: Post, id: Option<string>, freshId: string)
    ensures var (r, saved) := SavePost(store, post, id, freshId);
      && saved == post.(id := saved.id)
      && (saved.id == freshId <==> id.None? || id.value == "" || id.value == freshId)
      && r.Keys == store.Keys + {saved.id}
      && r[saved.id] == saved
      && forall k :: k in store && k != saved.id ==>
           r[k] == (if post.featured then store[k].(featured := false) else store[k])
  {
  }

  /** Saving keeps at most one post featured, and a featured post is then the only one. */
  lemma SavePostKeepsOneFeatured(store: Store, post: Post, id: Option<string>, freshId: string)
    requires AtMostOneFeatured(store)
    ensures var (r, saved) := SavePost(store, post, id, freshId);
      && AtMostOneFeatured(r)
      && (saved.featured ==> forall k :: k in r && r[k].featured ==> k == saved.id)
  {
    SavePostSpec(store, post, id, freshId);
  }

  /** `deletePost`: `deleteById`. */
  function DeletePost(store: Store, id: string): (r: Store)
    ensures r.Keys == store.Keys - {id}
    ensures forall k :: k in r ==> r[k] == store[k]
  {
    store - {id}
  }

  /** Deleting a post saved under a fresh id restores the store when the post was not
      featured (a featured save has already cleared the other flags). */
  lemma DeleteSavedPost(store: Store, post: Post, freshId: string)
    requires freshId !in store && !post.featured
    ensures DeletePost(SavePost(store, post, None, freshId).0, freshId) == store
  {
  }

  /** The comment list after `addComment`: at the end without a parent id that has text;
      otherwise under the first comment with that id, and when none has it the list is
      unchanged (the return value of `addReplyRecursively` is ignored). */
  function BackendWithComment(comments: seq<Comment>, c: Comment, parentId: Option<string>): seq<Comment> {
    if !HasText(parentId) then comments + [c]
    else match Attach(comments, parentId.value, c)
      case Some(rs) => rs
      case None => comments
  }

  /** The comment as `addComment` stores it: a supplied id is kept, even an empty one, and
      only a missing (`null`) id is replaced by the fresh one; the date becomes `now`; every
      other field is the one received. */
  function Stamp(c: Comment, commentId: Option<string>, freshId: string, now: string): (d: Comment)
    ensures commentId.Some? ==> d.id == commentId.value
    ensures commentId.None? ==> d.id == freshId
    ensures d.date == now
    ensures d.(id := c.id, date := c.date) == c
  {
    c.(id := if commentId.None? then freshId else commentId.value, date := now)
  }

  /** `addComment`: `None` (the source's `null`) for an unknown post; otherwise only that
      post changes, only in its comments, which receive the stamped comment. */
  function AddComment(store: Store, postId: string, c: Comment, commentId: Option<string>, parentId: Option<string>,
                      freshId: string, now: string): (r: Option<(Store, Post)>)
    ensures r.None? <==> postId !in store
    ensures r.Some? ==> r.value.0 == store[postId := r.value.1]
    ensures r.Some? ==> r.value.1 == store[postId].(comments := r.value.1.comments)
    ensures r.Some? ==>
      r.value.1.comments == BackendWithComment(store[postId].comments, Stamp(c, commentId, freshId, now), parentId)
  {
    if postId !in store then None
    else
      var post := store[postId];
      var updated := post.(comments := BackendWithComment(post.comments, Stamp(c, commentId, freshId, now), parentId));
      Some((store[postId := updated], updated))
  }

  /** Where the comment goes: appended without a parent id, as the last reply of the first
      comment with the parent id in visiting order, nowhere when no comment has it. */
  lemma BackendWithCommentSpec(comments: seq<Comment>, c: Comment, parentId: Option<string>)
    ensures !HasText(parentId) ==> BackendWithComment(comments, c, parentId) == comments + [c]
    ensures HasText(parentId) && parentId.value in PreIds(comments) ==>
      BackendWithComment(comments, c, parentId) == AttachNth(comments, FirstIndex(PreIds(comments), parentId.value), c)
    ensures HasText(parentId) && parentId.value !in PreIds(comments) ==>
      BackendWithComment(comments, c, parentId) == comments
  {
    if HasText(parentId) {
      AttachFinds(comments, parentId.value, c);
      if parentId.value in PreIds(comments) {
        AttachIsFirstMatch(comments, parentId.value, c);
      }
    }
  }

  /** Where `addComment` puts the stamped comment in a known post: at the end without a
      parent id that has text, as the last reply of the first comment with the parent id in
      visiting order, and nowhere (the post comes back unchanged) when no comment has it. */
  lemma AddCommentPlaces(store: Store, postId: string, c: Comment, commentId: Option<string>, parentId: Option<string>,
                         freshId: string, now: string)
    requires postId in store
    ensures var post := store[postId];
      var d := Stamp(c, commentId, freshId, now);
      var updated := AddComment(store, postId, c, commentId, parentId, freshId, now).value.1;
      && (!HasText(parentId) ==> updated.comments == post.comments + [d])
      && (HasText(parentId) && parentId.value in PreIds(post.comments) ==>
            updated.comments == AttachNth(post.comments, FirstIndex(PreIds(post.comments), parentId.value), d))
      && (HasText(parentId) && parentId.value !in PreIds(post.comments) ==> updated == post)
  {
    BackendWithCommentSpec(store[postId].comments, Stamp(c, commentId, freshId, now), parentId);
  }

  /** The backend and the local fallback place a reply the same way when its parent exists,
      but a reply to a missing parent is dropped by the backend and appended at the top level
      by the fallback. */
  lemma BackendAndFallbackOnReplies(comments: seq<Comment>, c: Comment, p: string)
    requires exists i :: 0 <= i < |p| && !IsJavaWhitespace(p[i])
    ensures p in PreIds(comments) ==>
      BackendWithComment(comments, c, Some(p)) == LocalApi.WithComment(comments, c, Some(p))
    ensures p !in PreIds(comments) ==>
      && BackendWithComment(comments, c, Some(p)) == comments
      && LocalApi.WithComment(comments, c, Some(p)) == comments + [c]
  {
    BackendWithCommentSpec(comments, c, Some(p));
    LocalApi.WithCommentSpec(comments, c, Some(p));
  }

  // ---------------------------------------------------------------------------------------
  // Likes

  const MinInt: int := -0x8000_0000
  const MaxInt: int := 0x7FFF_FFFF

  /** Java `int` addition: wraps modulo 2^32 into [MinInt, MaxInt]. */
  function WrapInt(x: int): (r: int)
    ensures MinInt <= r <= MaxInt
    ensures (r - x) % 0x1_0000_0000 == 0
  {
    (x - MinInt) % 0x1_0000_0000 + MinInt
  }

  /** `likePost`: one more like on the stored post, as a Java `int`; `None` for an unknown id. */
  function LikePost(store: Store, id: string): (r: Option<(Store, Post)>)
    ensures r.None? <==> id !in store
    ensures r.Some? ==> r.value.0 == store[id := r.value.1] && r.value.1 == store[id].(likes := r.value.1.likes)
  {
    if id !in store then None
    else
      var post := store[id];
      var updated := post.(likes := WrapInt(post.likes + 1));
      Some((store[id := updated], updated))
  }

  /** A like adds one, except that the largest `int` count wraps to the smallest. */
  lemma LikePostCount(store: Store, id: string)
    requires id in store && MinInt <= store[id].likes <= MaxInt
    ensures var p := LikePost(store, id).value.1;
      && (store[id].likes < MaxInt ==> p.likes == store[id].likes + 1)
      && (store[id].likes == MaxInt ==> p.likes == MinInt)
  {
  }
}
