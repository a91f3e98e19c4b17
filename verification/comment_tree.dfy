/** The reply tree of a post's comments and the insertion both copies of `addReplyRecursively`
    perform (lib/api.ts, PostService.java): the reply goes under the first comment with the
    parent id, visiting a comment before its replies and its replies before later siblings. */
module CommentTree {
  import opened Wrappers
  import opened Types

  /** Number of comments at any depth. */
  function Size(cs: seq<Comment>): nat
    decreases cs
  {
    if |cs| == 0 then 0 else 1 + Size(cs[0].replies) + Size(cs[1..])
  }

  /** Ids in the order the search visits them. */
  function PreIds(cs: seq<Comment>): (r: seq<string>)
    ensures |r| == Size(cs)
    decreases cs
  {
    if |cs| == 0 then [] else [cs[0].id] + PreIds(cs[0].replies) + PreIds(cs[1..])
  }

  /** `addReplyRecursively`: `None` when no comment has the parent id (the source returns
      `false`), otherwise the tree with the reply appended to that comment's replies. */
  function Attach(cs: seq<Comment>, parentId: string, reply: Comment): Option<seq<Comment>>
    decreases cs
  {
    if |cs| == 0 then None
    else if cs[0].id == parentId then Some([cs[0].(replies := cs[0].replies + [reply])] + cs[1..])
    else match Attach(cs[0].replies, parentId, reply)
      case Some(rs) => Some([cs[0].(replies := rs)] + cs[1..])
      case None =>
        match Attach(cs[1..], parentId, reply)
        case Some(rest) => Some([cs[0]] + rest)
        case None => None
  }

  /** Reference definition: append the reply under the comment at position `n` of the
      visiting order. */
  function AttachNth(cs: seq<Comment>, n: nat, reply: Comment): seq<Comment>
    requires n < Size(cs)
    decreases cs
  {
    if n == 0 then [cs[0].(replies := cs[0].replies + [reply])] + cs[1..]
    else if n - 1 < Size(cs[0].replies) then [cs[0].(replies := AttachNth(cs[0].replies, n - 1, reply))] + cs[1..]
    else [cs[0]] + AttachNth(cs[1..], n - 1 - Size(cs[0].replies), reply)
  }

  /** The comment at position `n` of the visiting order. */
  function NodeAt(cs: seq<Comment>, n: nat): Comment
    requires n < Size(cs)
    decreases cs
  {
    if n == 0 then cs[0]
    else if n - 1 < Size(cs[0].replies) then NodeAt(cs[0].replies, n - 1)
    else NodeAt(cs[1..], n - 1 - Size(cs[0].replies))
  }

  /** Position of the first `x`. */
  function FirstIndex(xs: seq<string>, x: string): (k: nat)
    requires x in xs
    ensures k < |xs| && xs[k] == x && forall j :: 0 <= j < k ==> xs[j] != x
  {
    if xs[0] == x then 0 else 1 + FirstIndex(xs[1..], x)
  }

  lemma ConcatAt(a: seq<string>, b: seq<string>, k: int)
    ensures 0 <= k < |a| ==> (a + b)[k] == a[k]
    ensures |a| <= k < |a| + |b| ==> (a + b)[k] == b[k - |a|]
  {
  }

  lemma FirstIndexConcat(a: seq<string>, b: seq<string>, x: string)
    requires x in a + b
    ensures x in a ==> FirstIndex(a + b, x) == FirstIndex(a, x)
    ensures x !in a ==> FirstIndex(a + b, x) == |a| + FirstIndex(b, x)
  {
    var k := FirstIndex(a + b, x);
    ConcatAt(a, b, k);
    if x in a {
      var m := FirstIndex(a, x);
      ConcatAt(a, b, m);
    } else {
      var m := FirstIndex(b, x);
      ConcatAt(a, b, |a| + m);
    }
  }

  /** The id list of the tree names the comment at each position. */
  lemma {:induction false} NodeAtId(cs: seq<Comment>, n: nat)
    requires n < Size(cs)
    ensures NodeAt(cs, n).id == PreIds(cs)[n]
    decreases cs
  {
    var a := PreIds(cs[0].replies);
    if n > 0 {
      if n - 1 < Size(cs[0].replies) {
        NodeAtId(cs[0].replies, n - 1);
        assert PreIds(cs)[n] == a[n - 1];
      } else {
        NodeAtId(cs[1..], n - 1 - |a|);
        assert PreIds(cs)[n] == PreIds(cs[1..])[n - 1 - |a|];
      }
    }
  }

  /** The search succeeds exactly when some comment has the parent id. */
  lemma {:induction false} AttachFinds(cs: seq<Comment>, parentId: string, reply: Comment)
    ensures Attach(cs, parentId, reply).None? <==> parentId !in PreIds(cs)
    decreases cs
  {
    if |cs| > 0 {
      AttachFinds(cs[0].replies, parentId, reply);
      AttachFinds(cs[1..], parentId, reply);
    }
  }

  /** When it succeeds, it attaches at the first comment of the visiting order that has the
      parent id. */
  lemma {:induction false} AttachIsFirstMatch(cs: seq<Comment>, parentId: string, reply: Comment)
    requires parentId in PreIds(cs)
    ensures Attach(cs, parentId, reply) == Some(AttachNth(cs, FirstIndex(PreIds(cs), parentId), reply))
    decreases cs
  {
    var a, b := PreIds(cs[0].replies), PreIds(cs[1..]);
    assert PreIds(cs) == [cs[0].id] + (a + b);
    if cs[0].id == parentId {
      assert FirstIndex(PreIds(cs), parentId) == 0;
    } else if parentId in a {
      AttachIsFirstMatch(cs[0].replies, parentId, reply);
      FirstInReplies(cs, parentId, reply);
    } else {
      AttachFinds(cs[0].replies, parentId, reply);
      AttachIsFirstMatch(cs[1..], parentId, reply);
      FirstInSiblings(cs, parentId, reply);
    }
  }

  lemma FirstInReplies(cs: seq<Comment>, parentId: string, reply: Comment)
    requires |cs| > 0 && cs[0].id != parentId && parentId in PreIds(cs[0].replies)
    requires Attach(cs[0].replies, parentId, reply)
      == Some(AttachNth(cs[0].replies, FirstIndex(PreIds(cs[0].replies), parentId), reply))
    ensures parentId in PreIds(cs)
    ensures Attach(cs, parentId, reply) == Some(AttachNth(cs, FirstIndex(PreIds(cs), parentId), reply))
  {
    var n := ReplyIndex(cs, parentId);
    assert AttachNth(cs, n, reply)
      == [cs[0].(replies := AttachNth(cs[0].replies, n - 1, reply))] + cs[1..];
  }

  lemma ReplyIndex(cs: seq<Comment>, parentId: string) returns (n: nat)
    requires |cs| > 0 && cs[0].id != parentId && parentId in PreIds(cs[0].replies)
    ensures parentId in PreIds(cs)
    ensures n == FirstIndex(PreIds(cs), parentId) == 1 + FirstIndex(PreIds(cs[0].replies), parentId)
  {
    var a, b := PreIds(cs[0].replies), PreIds(cs[1..]);
    assert PreIds(cs) == [cs[0].id] + (a + b);
    FirstIndexConcat([cs[0].id], a + b, parentId);
    FirstIndexConcat(a, b, parentId);
    n := 1 + FirstIndex(a, parentId);
  }

  lemma FirstInSiblings(cs: seq<Comment>, parentId: string, reply: Comment)
    requires |cs| > 0 && cs[0].id != parentId && parentId !in PreIds(cs[0].replies)
    requires parentId in PreIds(cs[1..])
    requires Attach(cs[0].replies, parentId, reply).None?
    requires Attach(cs[1..], parentId, reply)
      == Some(AttachNth(cs[1..], FirstIndex(PreIds(cs[1..]), parentId), reply))
    ensures parentId in PreIds(cs)
    ensures Attach(cs, parentId, reply) == Some(AttachNth(cs, FirstIndex(PreIds(cs), parentId), reply))
  {
    var fb := FirstIndex(PreIds(cs[1..]), parentId);
    var n := SiblingIndex(cs, parentId);
    assert n - 1 - Size(cs[0].replies) == fb;
    assert AttachNth(cs, n, reply) == [cs[0]] + AttachNth(cs[1..], fb, reply);
  }

  lemma SiblingIndex(cs: seq<Comment>, parentId: string) returns (n: nat)
    requires |cs| > 0 && cs[0].id != parentId && parentId !in PreIds(cs[0].replies)
    requires parentId in PreIds(cs[1..])
    ensures parentId in PreIds(cs)
    ensures n == FirstIndex(PreIds(cs), parentId) == 1 + Size(cs[0].replies) + FirstIndex(PreIds(cs[1..]), parentId)
  {
    var a, b := PreIds(cs[0].replies), PreIds(cs[1..]);
    assert PreIds(cs) == [cs[0].id] + (a + b);
    FirstIndexConcat([cs[0].id], a + b, parentId);
    FirstIndexConcat(a, b, parentId);
    n := 1 + |a| + FirstIndex(b, parentId);
  }

  /** The reference insertion adds one comment, as the last reply of the chosen comment. */
  lemma {:induction false} AttachNthSpec(cs: seq<Comment>, n: nat, reply: Comment)
    requires n < Size(cs)
    ensures Size(AttachNth(cs, n, reply)) == Size(cs) + 1 + Size(reply.replies)
    ensures n < Size(AttachNth(cs, n, reply))
    ensures NodeAt(AttachNth(cs, n, reply), n) == NodeAt(cs, n).(replies := NodeAt(cs, n).replies + [reply])
    decreases cs
  {
    var r := AttachNth(cs, n, reply);
    if n == 0 {
      SizeAppend(cs[0].replies, reply);
      assert r[1..] == cs[1..];
    } else if n - 1 < Size(cs[0].replies) {
      AttachNthSpec(cs[0].replies, n - 1, reply);
      assert r[1..] == cs[1..];
    } else {
      AttachNthSpec(cs[1..], n - 1 - Size(cs[0].replies), reply);
      assert r[1..] == AttachNth(cs[1..], n - 1 - Size(cs[0].replies), reply);
    }
  }

  lemma {:induction false} SizeAppend(cs: seq<Comment>, c: Comment)
    ensures Size(cs + [c]) == Size(cs) + 1 + Size(c.replies)
    decreases |cs|
  {
    if |cs| == 0 {
      assert [c][1..] == [];
    } else {
      assert (cs + [c])[1..] == cs[1..] + [c];
      SizeAppend(cs[1..], c);
    }
  }
}
