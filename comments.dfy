/** The comment list of `post_detail`: the post's comments that answer no
    other comment, newest (highest id) first. */
module Comments {
  import opened Records

  /** The comment `id` is a top-level comment of `post`. */
  predicate TopLevelOf(comments: map<CommentId, Comment>, post: PostId, id: CommentId)
  {
    id in comments && comments[id].post == post && comments[id].reply == None
  }

  /** The top-level comments of `post` with ids below `bound`, by
      descending id: `filter(post=post, reply=None).order_by('-id')`. */
  function TopLevel(comments: map<CommentId, Comment>, post: PostId, bound: nat): (r: seq<CommentId>)
    ensures forall k :: 0 <= k < |r| ==> TopLevelOf(comments, post, r[k]) && r[k] < bound
    ensures forall i, j :: 0 <= i < j < |r| ==> r[i] > r[j]
    ensures forall id: CommentId :: TopLevelOf(comments, post, id) && id < bound ==> id in r
  {
    if bound == 0 then []
    else (if TopLevelOf(comments, post, bound - 1) then [bound - 1] else []) + TopLevel(comments, post, bound - 1)
  }

  /** When every comment id lies below `bound` (ids are handed out in
      increasing order), the list is exactly the post's top-level comments. */
  lemma TopLevelExactly(comments: map<CommentId, Comment>, post: PostId, bound: nat)
    requires forall id: CommentId :: id in comments ==> id < bound
    ensures forall id: CommentId :: id in TopLevel(comments, post, bound) <==> TopLevelOf(comments, post, id)
  {
  }

  /** A new top-level comment, whose id exceeds every existing one, is listed
      first, ahead of the post's earlier top-level comments. */
  lemma {:induction false} NewTopLevelCommentFirst(comments: map<CommentId, Comment>, post: PostId, bound: nat, c: Comment)
    requires c.post == post && c.reply == None
    ensures TopLevel(comments[bound := c], post, bound + 1)
         == [bound] + TopLevel(comments, post, bound)
  {
    TopLevelUnchangedBelow(comments, post, bound, bound, c);
  }

  /** Adding a comment with id `newId` does not change the list of comments
      below `newId`. */
  lemma {:induction false} TopLevelUnchangedBelow(comments: map<CommentId, Comment>, post: PostId, bound: nat, newId: nat, c: Comment)
    requires bound <= newId
    ensures TopLevel(comments[newId := c], post, bound) == TopLevel(comments, post, bound)
  {
    if bound > 0 {
      TopLevelUnchangedBelow(comments, post, bound - 1, newId, c);
    }
  }
}
