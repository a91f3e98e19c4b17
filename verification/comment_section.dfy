/** components/CommentSection.tsx: the comment count in the heading, the rendered comment
    tree with its reply forms, and the two submit paths. `onAddComment` is modelled as the
    submission the component hands to its parent. */
module CommentSection {
  import opened Wrappers
  import opened Strings
  import opened Types
  import opened CommentTree
  import LocalApi
  import PostService

  const Guest: string := "Guest"

  // ---------------------------------------------------------------------------------------
  // The count in the heading

  /** `comments.reduce((acc, c) => acc + 1 + (c.replies?.length || 0), 0)`. */
  function DisplayedCount(cs: seq<Comment>): nat {
    if |cs| == 0 then 0 else 1 + |cs[0].replies| + DisplayedCount(cs[1..])
  }

  /** A list of comments holds at least one comment per entry, and exactly one exactly when
      no entry has replies. */
  lemma {:induction false} SizeAtLeastLength(rs: seq<Comment>)
    ensures Size(rs) >= |rs|
    ensures Size(rs) == |rs| <==> forall j :: 0 <= j < |rs| ==> rs[j].replies == []
  {
    if |rs| > 0 {
      SizeAtLeastLength(rs[1..]);
      SizeAtLeastLength(rs[0].replies);
      assert forall j :: 1 <= j < |rs| ==> rs[j] == rs[1..][j - 1];
    }
  }

  /** The heading counts top-level comments and their direct replies only: never more than
      the comments in the tree, and all of them exactly when no reply has replies. */
  lemma {:induction false} CountVersusSize(cs: seq<Comment>)
    ensures DisplayedCount(cs) <= Size(cs)
    ensures DisplayedCount(cs) == Size(cs) <==>
      forall i, j :: 0 <= i < |cs| && 0 <= j < |cs[i].replies| ==> cs[i].replies[j].replies == []
  {
    if |cs| > 0 {
      CountVersusSize(cs[1..]);
      SizeAtLeastLength(cs[0].replies);
      assert forall i :: 1 <= i < |cs| ==> cs[i] == cs[1..][i - 1];
    }
  }

  // ---------------------------------------------------------------------------------------
  // Rendering

  /** The section's state: the main form's two fields and the comment whose reply form is
      open. */
  datatype SectionState = SectionState(newComment: string, authorName: string, replyingTo: Option<string>)

  const Initial := SectionState("", "", None)

  /** The rendered `CommentItem`s in document order, each with its `isReplying` flag:
      top-level items compare their id with the open target, nested items pass `false`. */
  function Rendered(cs: seq<Comment>, st: SectionState, nested: bool): seq<(string, bool)>
    decreases cs
  {
    if |cs| == 0 then []
    else
      [(cs[0].id, !nested && st.replyingTo == Some(cs[0].id))]
      + Rendered(cs[0].replies, st, true) + Rendered(cs[1..], st, nested)
  }

  /** Every comment of the tree is rendered once, in the order the reply search visits them;
      a reply form opens only on a top-level comment with the target id. */
  lemma {:induction false} RenderedSpec(cs: seq<Comment>, st: SectionState, nested: bool)
    ensures var r := Rendered(cs, st, nested);
      && |r| == Size(cs)
      && (forall k :: 0 <= k < |r| ==> r[k].0 == PreIds(cs)[k])
      && (forall k :: 0 <= k < |r| && r[k].1 ==>
            !nested && st.replyingTo == Some(r[k].0) && exists i :: 0 <= i < |cs| && cs[i].id == r[k].0)
    decreases cs
  {
    if |cs| > 0 {
      RenderedSpec(cs[0].replies, st, true);
      RenderedSpec(cs[1..], st, nested);
      var a := [(cs[0].id, !nested && st.replyingTo == Some(cs[0].id))];
      var b := Rendered(cs[0].replies, st, true);
      var c := Rendered(cs[1..], st, nested);
      var r := Rendered(cs, st, nested);
      assert r == a + b + c;
      assert PreIds(cs) == [cs[0].id] + PreIds(cs[0].replies) + PreIds(cs[1..]);
      forall k | 0 <= k < |r| && r[k].1
        ensures exists i :: 0 <= i < |cs| && cs[i].id == r[k].0
      {
        if k >= |a| + |b| {
          var i :| 0 <= i < |cs[1..]| && cs[1..][i].id == r[k].0;
          assert cs[i + 1].id == r[k].0;
        }
      }
    }
  }

  /** The reply button on a nested comment sets the target to an id no top-level comment has
      (ids being unique), so no reply form opens anywhere. */
  lemma NestedReplyOpensNothing(cs: seq<Comment>, st: SectionState)
    requires st.replyingTo.Some?
    requires forall i :: 0 <= i < |cs| ==> cs[i].id != st.replyingTo.value
    ensures forall k :: 0 <= k < |Rendered(cs, st, false)| ==> !Rendered(cs, st, false)[k].1
  {
    RenderedSpec(cs, st, false);
  }

  // ---------------------------------------------------------------------------------------
  // Submitting

  /** What `onAddComment` receives. */
  datatype Submission = Submission(content: string, author: string, parentId: Option<string>)

  /** `handleSubmit`: blank text submits nothing; otherwise the text as typed goes out with
      the name or "Guest", and the text field is cleared. */
  function SubmitComment(st: SectionState): (r: (SectionState, Option<Submission>))
    ensures r.1.None? <==> forall i :: 0 <= i < |st.newComment| ==> IsJsSpace(st.newComment[i])
    ensures r.1.None? ==> r.0 == st
    ensures r.1.Some? ==>
      && r.0 == st.(newComment := "")
      && r.1.value.content == st.newComment && r.1.value.parentId.None?
      && (r.1.value.author == Guest <==> st.authorName == "" || st.authorName == Guest)
      && (st.authorName != "" ==> r.1.value.author == st.authorName)
  {
    TrimEmptyIff(st.newComment);
    if Trim(st.newComment) == "" then (st, None)
    else (st.(newComment := ""), Some(Submission(st.newComment, OrElse(st.authorName, Guest), None)))
  }

  /** A comment item's reply form. */
  datatype ReplyForm = ReplyForm(content: string, author: string)

  /** `onReply`: the reply button of any item makes its id the target. */
  function OpenReply(st: SectionState, id: string): SectionState {
    st.(replyingTo := Some(id))
  }

  /** The item's `handleReplySubmit` followed by the section's: blank text submits nothing;
      otherwise the reply goes out under the item's id with the name or "Guest", the item's
      text is cleared (its name is kept) and no reply form stays open. */
  function SubmitReply(st: SectionState, form: ReplyForm, parent: Comment): (r: (SectionState, ReplyForm, Option<Submission>))
    ensures r.2.None? <==> forall i :: 0 <= i < |form.content| ==> IsJsSpace(form.content[i])
    ensures r.2.None? ==> r.0 == st && r.1 == form
    ensures r.2.Some? ==>
      && r.0 == st.(replyingTo := None) && r.1 == form.(content := "")
      && r.2.value.content == form.content && r.2.value.parentId == Some(parent.id)
      && (form.author != "" ==> r.2.value.author == form.author)
      && (form.author == "" ==> r.2.value.author == Guest)
  {
    TrimEmptyIff(form.content);
    if Trim(form.content) == "" then (st, form, None)
    else (st.(replyingTo := None), form.(content := ""),
          Some(Submission(form.content, OrElse(form.author, Guest), Some(parent.id))))
  }

  /** After a reply is submitted no item shows a reply form. */
  lemma SubmittedReplyClosesForms(cs: seq<Comment>, st: SectionState, form: ReplyForm, parent: Comment)
    requires SubmitReply(st, form, parent).2.Some?
    ensures var after := SubmitReply(st, form, parent).0;
      forall k :: 0 <= k < |Rendered(cs, after, false)| ==> !Rendered(cs, after, false)[k].1
  {
    RenderedSpec(cs, SubmitReply(st, form, parent).0, false);
  }

  lemma TopLevelInPreIds(cs: seq<Comment>, i: nat)
    requires i < |cs|
    ensures cs[i].id in PreIds(cs)
    decreases i
  {
    if i > 0 {
      TopLevelInPreIds(cs[1..], i - 1);
      assert cs[1..][i - 1] == cs[i];
    }
  }

  /** A reply can only be written in an open form, which belongs to a top-level comment; so
      its parent exists and the backend and the local fallback attach it in the same place. */
  lemma ReplyFromOpenFormAttaches(cs: seq<Comment>, st: SectionState, k: nat, c: Comment)
    requires k < |Rendered(cs, st, false)| && Rendered(cs, st, false)[k].1
    requires st.replyingTo.Some? && exists j :: 0 <= j < |st.replyingTo.value| && !PostService.IsJavaWhitespace(st.replyingTo.value[j])
    ensures st.replyingTo.value in PreIds(cs)
    ensures var p := st.replyingTo.value;
      PostService.BackendWithComment(cs, c, Some(p)) == LocalApi.WithComment(cs, c, Some(p))
  {
    RenderedSpec(cs, st, false);
    var i :| 0 <= i < |cs| && cs[i].id == Rendered(cs, st, false)[k].0;
    TopLevelInPreIds(cs, i);
    PostService.BackendAndFallbackOnReplies(cs, c, st.replyingTo.value);
  }
}
