/** The records the blog's views read and write, with the persistence layer
    reduced to plain values: a post, a comment, the outcome of a view. */
module Records {

  datatype Option<+T> = None | Some(value: T)

  type UserId = nat
  type PostId = nat
  type CommentId = nat
  type ImageId = nat

  datatype Status = Draft | Published

  /** A row of the Post table together with its two many-to-many relations
      to users (`likes` and `favourite`), which are sets of user ids. */
  datatype Post = Post(
    title: string,
    slug: string,
    body: string,
    author: UserId,
    status: Status,
    likes: set<UserId>,
    favourite: set<UserId>)

  /** A row of the Comment table; `reply` is the comment it answers, if any. */
  datatype Comment = Comment(
    post: PostId,
    user: UserId,
    content: string,
    reply: Option<CommentId>)

  /** What a view hands back to the framework. */
  datatype Response =
    | Rendered             // the page (or the form with its errors) is rendered
    | RedirectToList       // redirect('post_list')
    | RedirectToPost(id: PostId)
    | NotFound             // Http404, raised or returned
    | ServerError          // an uncaught exception from the ORM
}
