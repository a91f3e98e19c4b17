/** lib/api.ts: the list transformations the local-storage fallback applies when the backend
    cannot be reached. Reading and writing local storage is left to the caller: each
    operation takes the stored list and returns the list to store. Fresh ids and the current
    date are parameters. */
module LocalApi {
  import opened Wrappers
  import opened Seqs
  import opened Records
  import opened Types
  import opened CommentTree

  function PostId(p: Post): string { p.id }
  function MemoId(m: Memo): string { m.id }
  function TodoId(t: Todo): string { t.id }
  function ScheduleId(s: Schedule): string { s.id }
  function ScheduleTime(s: Schedule): string { s.time }

  // ---------------------------------------------------------------------------------------
  // Posts

  /** `posts.map(p => ({ ...p, featured: false }))`. */
  function ClearFeatured(posts: seq<Post>): (r: seq<Post>)
    ensures |r| == |posts|
    ensures forall i :: 0 <= i < |r| ==> !r[i].featured && r[i].(featured := posts[i].featured) == posts[i]
  {
    seq(|posts|, i requires 0 <= i < |posts| => posts[i].(featured := false))
  }

  /** `addOrUpdatePost`: a featured post first un-features every stored post; then the first
      post with the same id is replaced in place, or the post is put in front. */
  function AddOrUpdatePost(posts: seq<Post>, post: Post): seq<Post> {
    var ps := if post.featured then ClearFeatured(posts) else posts;
    match IndexOfId(ps, post.id, PostId)
    case Some(i) => ps[i := post]
    case None => [post] + ps
  }

  /** Where the saved post lands: in place of the first post with its id, else in front. */
  function SavedAt(posts: seq<Post>, id: string): nat {
    match IndexOfId(posts, id, PostId)
    case Some(i) => i
    case None => 0
  }

  /** The post is stored at `SavedAt`; every other position holds the post that was there
      (shifted by one when the post was put in front), un-featured when the saved post is
      featured. */
  lemma AddOrUpdatePostSpec(posts: seq<Post>, post: Post)
    ensures var r := AddOrUpdatePost(posts, post);
      var k := SavedAt(posts, post.id);
      var found := IndexOfId(posts, post.id, PostId).Some?;
      && |r| == (if found then |posts| else |posts| + 1)
      && k < |r| && r[k] == post
      && forall j :: 0 <= j < |r| && j != k ==>
          var prev := posts[if found then j else j - 1];
          r[j] == (if post.featured then prev.(featured := false) else prev)
  {
    var ps := if post.featured then ClearFeatured(posts) else posts;
    assert forall j :: 0 <= j < |ps| ==> ps[j].id == posts[j].id;
    assert IndexOfId(ps, post.id, PostId) == IndexOfId(posts, post.id, PostId) by {
      SameIds(ps, posts, post.id);
    }
  }

  lemma SameIds(a: seq<Post>, b: seq<Post>, id: string)
    requires |a| == |b| && forall j :: 0 <= j < |a| ==> a[j].id == b[j].id
    ensures IndexOfId(a, id, PostId) == IndexOfId(b, id, PostId)
  {
    var ia, ib := IndexOfId(a, id, PostId), IndexOfId(b, id, PostId);
    if ia.Some? && ib.Some? {
      assert !(ia.value < ib.value) && !(ib.value < ia.value);
    }
  }

  /** Saving a featured post leaves it the only featured post. */
  lemma AddOrUpdatePostOneFeatured(posts: seq<Post>, post: Post)
    requires post.featured
    ensures var r := AddOrUpdatePost(posts, post);
      forall j :: 0 <= j < |r| ==> (r[j].featured <==> j == SavedAt(posts, post.id))
  {
    AddOrUpdatePostSpec(posts, post);
  }

  /** `deletePost`. */
  function DeletePost(posts: seq<Post>, id: string): seq<Post> {
    RemoveId(posts, id, PostId)
  }

  /** `likePost`: the first post with the id gets one more like (an absent count reads as 0);
      `None` for an unknown id, in which case nothing is saved. */
  function LikePost(posts: seq<Post>, id: string): (r: Option<(seq<Post>, Post)>)
    ensures r.None? <==> forall j :: 0 <= j < |posts| ==> posts[j].id != id
    ensures r.Some? ==> exists i :: (0 <= i < |posts| && posts[i].id == id
      && (forall j :: 0 <= j < i ==> posts[j].id != id)
      && r.value.1 == posts[i].(likes := posts[i].likes + 1)
      && r.value.0 == posts[i := r.value.1])
  {
    match IndexOfId(posts, id, PostId)
    case Some(i) =>
      var updated := posts[i].(likes := posts[i].likes + 1);
      Some((posts[i := updated], updated))
    case None => None
  }

  // ---------------------------------------------------------------------------------------
  // Comments

  /** The fields the caller supplies; the id and date are added on submission. */
  datatype Draft = Draft(author: string, content: string, avatar: Option<string>)

  function NewComment(d: Draft, id: string, date: string): Comment {
    Comment(id, d.author, d.content, date, d.avatar, [])
  }

  /** JavaScript truthiness of an optional string. */
  predicate Truthy(s: Option<string>) {
    s.Some? && s.value != ""
  }

  /** The comment list after adding: under the parent when one is named and found, otherwise
      at the end of the top level. */
  function WithComment(comments: seq<Comment>, c: Comment, parentId: Option<string>): seq<Comment> {
    if Truthy(parentId) && Attach(comments, parentId.value, c).Some? then Attach(comments, parentId.value, c).value
    else comments + [c]
  }

  /** `addComment`: `None` for an unknown post, in which case nothing is saved; otherwise
      only the first post with the id changes, and only in its comments, which receive the
      new comment with the fresh id and today's date. */
  function AddComment(posts: seq<Post>, postId: string, d: Draft, parentId: Option<string>, freshId: string, today: string)
    : (r: Option<(seq<Post>, Post)>)
    ensures r.None? <==> forall j :: 0 <= j < |posts| ==> posts[j].id != postId
    ensures r.Some? ==> exists i :: (0 <= i < |posts| && posts[i].id == postId
      && (forall j :: 0 <= j < i ==> posts[j].id != postId)
      && r.value.1 == posts[i].(comments := WithComment(posts[i].comments, NewComment(d, freshId, today), parentId))
      && r.value.0 == posts[i := r.value.1])
  {
    match IndexOfId(posts, postId, PostId)
    case Some(i) =>
      var updated := posts[i].(comments := WithComment(posts[i].comments, NewComment(d, freshId, today), parentId));
      Some((posts[i := updated], updated))
    case None => None
  }

  /** The new comment is never lost: it goes under the first comment with the parent id in
      visiting order, and when no parent is named or none has that id, it is appended at the
      top level. */
  lemma WithCommentSpec(comments: seq<Comment>, c: Comment, parentId: Option<string>)
    ensures Size(WithComment(comments, c, parentId)) == Size(comments) + 1 + Size(c.replies)
    ensures Truthy(parentId) && parentId.value in PreIds(comments) ==>
      WithComment(comments, c, parentId) == AttachNth(comments, FirstIndex(PreIds(comments), parentId.value), c)
    ensures !(Truthy(parentId) && parentId.value in PreIds(comments)) ==>
      WithComment(comments, c, parentId) == comments + [c]
  {
    if Truthy(parentId) {
      AttachFinds(comments, parentId.value, c);
      if parentId.value in PreIds(comments) {
        AttachIsFirstMatch(comments, parentId.value, c);
        AttachNthSpec(comments, FirstIndex(PreIds(comments), parentId.value), c);
      } else {
        SizeAppend(comments, c);
      }
    } else {
      SizeAppend(comments, c);
    }
  }

  // ---------------------------------------------------------------------------------------
  // Memos, todos, schedules

  /** `addMemo`: the new memo goes in front. */
  function AddMemo(memos: seq<Memo>, content: string, images: Option<seq<string>>, tags: Option<seq<string>>,
                   freshId: string, now: string): seq<Memo> {
    [Memo(freshId, content, now, images, tags)] + memos
  }

  function DeleteMemo(memos: seq<Memo>, id: string): seq<Memo> {
    RemoveId(memos, id, MemoId)
  }

  /** Deleting a memo just added under a fresh id gives the old list back. */
  lemma DeleteAddedMemo(memos: seq<Memo>, content: string, images: Option<seq<string>>, tags: Option<seq<string>>,
                        freshId: string, now: string)
    requires forall j :: 0 <= j < |memos| ==> memos[j].id != freshId
    ensures DeleteMemo(AddMemo(memos, content, images, tags, freshId, now), freshId) == memos
  {
    RemoveIdSpec(memos, freshId, MemoId);
    FilterConcat([Memo(freshId, content, now, images, tags)], memos, OtherId(MemoId, freshId));
  }

  /** `addTodo`: the new, open todo goes last. */
  function AddTodo(todos: seq<Todo>, text: string, priority: Priority, date: string, freshId: string): seq<Todo> {
    todos + [Todo(freshId, text, false, priority, date)]
  }

  /** `toggleTodo`: every todo with the id has `completed` flipped. */
  function ToggleTodo(todos: seq<Todo>, id: string): (r: seq<Todo>)
    ensures |r| == |todos|
    ensures forall i :: 0 <= i < |r| ==>
      r[i].(completed := todos[i].completed) == todos[i]
      && (r[i].completed <==> (todos[i].completed != (todos[i].id == id)))
  {
    seq(|todos|, i requires 0 <= i < |todos| =>
      if todos[i].id == id then todos[i].(completed := !todos[i].completed) else todos[i])
  }

  /** Toggling twice restores the list. */
  lemma ToggleTodoTwice(todos: seq<Todo>, id: string)
    ensures ToggleTodo(ToggleTodo(todos, id), id) == todos
  {
    var r := ToggleTodo(ToggleTodo(todos, id), id);
    assert forall i :: 0 <= i < |r| ==> r[i] == todos[i];
  }

  function DeleteTodo(todos: seq<Todo>, id: string): seq<Todo> {
    RemoveId(todos, id, TodoId)
  }

  /** The added todo is open and last; deleting it under its fresh id gives the old list back. */
  lemma DeleteAddedTodo(todos: seq<Todo>, text: string, priority: Priority, date: string, freshId: string)
    requires forall j :: 0 <= j < |todos| ==> todos[j].id != freshId
    ensures !AddTodo(todos, text, priority, date, freshId)[|todos|].completed
    ensures DeleteTodo(AddTodo(todos, text, priority, date, freshId), freshId) == todos
  {
    RemoveIdSpec(todos, freshId, TodoId);
    FilterConcat(todos, [Todo(freshId, text, false, priority, date)], OtherId(TodoId, freshId));
  }

  /** `addSchedule`: append, then sort by `time` with a stable sort. `localeCompare` is
      modelled as code-unit order, which is how it orders the zero-padded `HH:MM` strings
      the forms produce. */
  function AddSchedule(schedules: seq<Schedule>, title: string, time: string, date: string,
                       description: Option<string>, freshId: string): seq<Schedule> {
    SortBy(schedules + [Schedule(freshId, title, time, date, description)], ScheduleTime)
  }

  /** The result is sorted by time, holds exactly the old schedules and the new one, and
      schedules at the same time keep their order, the new one after the old. */
  lemma AddScheduleSpec(schedules: seq<Schedule>, title: string, time: string, date: string,
                        description: Option<string>, freshId: string, t: string)
    ensures var r := AddSchedule(schedules, title, time, date, description, freshId);
      && SortedBy(r, ScheduleTime)
      && multiset(r) == multiset(schedules) + multiset{Schedule(freshId, title, time, date, description)}
      && Filter(r, HasKey(ScheduleTime, t))
         == Filter(schedules, HasKey(ScheduleTime, t)) + (if time == t then [Schedule(freshId, title, time, date, description)] else [])
  {
    var s := Schedule(freshId, title, time, date, description);
    SortBySorted(schedules + [s], ScheduleTime);
    SortByStable(schedules + [s], ScheduleTime, t);
    FilterConcat(schedules, [s], HasKey(ScheduleTime, t));
    FilterSingle(s, HasKey(ScheduleTime, t));
  }

  function DeleteSchedule(schedules: seq<Schedule>, id: string): seq<Schedule> {
    RemoveId(schedules, id, ScheduleId)
  }
}
