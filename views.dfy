/** The state-changing views of the blog, as methods of the store they act
    on: the post detail page with comment creation, the like and favourite
    toggles, and post creation, editing and deletion. The current user is a
    parameter; forms are records carrying their cleaned values and whether
    they validated. */
module Views {
  import opened Records
  import opened Membership
  import opened Comments
  import opened ImageStore

  /** The post form (`PostCreateForm` / `PostEditForm`): whether it
      validated, and the field values its `save()` writes. */
  datatype PostForm = PostForm(valid: bool, title: string, slug: string, body: string, status: Status)

  /** The comment form's validity, the posted `content`, and the posted
      `comment_id` (None when missing or empty). */
  datatype CommentForm = CommentForm(valid: bool, content: string, replyTo: Option<CommentId>)

  /** What the detail page shows besides the post itself. */
  datatype Detail = Detail(comments: seq<CommentId>, isLiked: bool, isFavourite: bool)

  datatype DetailOutcome =
    | NoSuchPost          // get_object_or_404 raised Http404
    | ReplyNotFound       // Comment.objects.get raised DoesNotExist
    | Shown(detail: Detail)

  /** The post after the edit form's `save()`: the form's fields replace the
      post's, its author and relations stay. */
  function ApplyForm(p: Post, form: PostForm): (r: Post)
    ensures r.author == p.author && r.likes == p.likes && r.favourite == p.favourite
    ensures r.title == form.title && r.slug == form.slug && r.body == form.body && r.status == form.status
  {
    p.(title := form.title, slug := form.slug, body := form.body, status := form.status)
  }

  /** The persistence store: the Post, Comment and Images tables and the
      next primary keys of the first two. */
  class Blog {
    var posts: map<PostId, Post>
    var nextPost: nat
    var comments: map<CommentId, Comment>
    var nextComment: nat
    var images: Table

    ghost predicate Valid()
      reads this
    {
      && (forall id :: id in posts ==> id < nextPost)
      && (forall id :: id in comments ==> id < nextComment)
      && ImageStore.Valid(images)
    }

    constructor ()
      ensures Valid()
      ensures posts == map[] && comments == map[] && images.rows == map[]
    {
      posts, nextPost := map[], 0;
      comments, nextComment := map[], 0;
      images := Table(map[], [], 0);
    }

    /** `post_detail`: look the post up by id and slug; on a valid comment
        form, create the comment (answering `comment_id` when one is
        posted); show the post's top-level comments newest first, read after
        the creation, and whether the user likes and favours the post. */
    method PostDetail(id: PostId, slug: string, user: UserId, submission: Option<CommentForm>)
      returns (out: DetailOutcome)
      requires Valid()
      modifies this`comments, this`nextComment
      ensures Valid()
      ensures !(id in posts && posts[id].slug == slug) ==>
        out == NoSuchPost && comments == old(comments) && nextComment == old(nextComment)
      ensures id in posts && posts[id].slug == slug ==>
        var adds := submission.Some? && submission.value.valid;
        var missing := adds && submission.value.replyTo.Some? && submission.value.replyTo.value !in old(comments);
        && (missing ==> out == ReplyNotFound)
        && (!adds || missing ==> comments == old(comments) && nextComment == old(nextComment))
        && (adds && !missing ==>
              old(nextComment) !in old(comments)
              && comments == old(comments)[old(nextComment) :=
                   Comment(id, user, submission.value.content, submission.value.replyTo)]
              && nextComment == old(nextComment) + 1)
        && (!missing ==>
              out == Shown(Detail(TopLevel(comments, id, nextComment),
                                  user in posts[id].likes, user in posts[id].favourite)))
    {
      if !(id in posts && posts[id].slug == slug) {
        return NoSuchPost;
      }
      var post := posts[id];
      var isLiked := user in post.likes;
      var isFavourite := user in post.favourite;
      if submission.Some? && submission.value.valid {
        var reply: Option<CommentId> := None;
        if submission.value.replyTo.Some? {
          if submission.value.replyTo.value !in comments {
            return ReplyNotFound;
          }
          reply := submission.value.replyTo;
        }
        comments := comments[nextComment := Comment(id, user, submission.value.content, reply)];
        nextComment := nextComment + 1;
      }
      out := Shown(Detail(TopLevel(comments, id, nextComment), isLiked, isFavourite));
    }

    /** `like_post`: flip the current user's membership of the post's likes. */
    method LikePost(id: PostId, user: UserId) returns (resp: Response, isLiked: bool)
      requires Valid()
      modifies this`posts
      ensures Valid()
      ensures id !in old(posts) ==> resp == NotFound && posts == old(posts)
      ensures id in old(posts) ==>
        && resp == RedirectToPost(id)
        && posts == old(posts)[id := old(posts)[id].(likes := Toggle(old(posts)[id].likes, user))]
        && isLiked == (user in posts[id].likes)
    {
      if id !in posts {
        return NotFound, false;
      }
      var post := posts[id];
      if user in post.likes {
        post := post.(likes := post.likes - {user});
        isLiked := false;
      } else {
        post := post.(likes := post.likes + {user});
        isLiked := true;
      }
      posts := posts[id := post];
      resp := RedirectToPost(id);
    }

    /** `favourite_post`: flip the current user's membership of the post's
        favourites. */
    method FavouritePost(id: PostId, user: UserId) returns (resp: Response, isFavourite: bool)
      requires Valid()
      modifies this`posts
      ensures Valid()
      ensures id !in old(posts) ==> resp == NotFound && posts == old(posts)
      ensures id in old(posts) ==>
        && resp == RedirectToPost(id)
        && posts == old(posts)[id := old(posts)[id].(favourite := Toggle(old(posts)[id].favourite, user))]
        && isFavourite == (user in posts[id].favourite)
    {
      if id !in posts {
        return NotFound, false;
      }
      var post := posts[id];
      if user in post.favourite {
        post := post.(favourite := post.favourite - {user});
        isFavourite := false;
      } else {
        post := post.(favourite := post.favourite + {user});
        isFavourite := true;
      }
      posts := posts[id := post];
      resp := RedirectToPost(id);
    }

    /** `post_create` on a POST: when the post form and the image formset
        both validate, save the post as the current user's, then save the
        images row by row, stopping at the first row that cannot be read or
        saved. Valid or not, the view redirects to the post list. */
    method PostCreate(user: UserId, form: PostForm, formsetValid: bool, rows: seq<CreateRow>)
      returns (resp: Response)
      requires Valid()
      modifies this`posts, this`nextPost, this`images
      ensures Valid()
      ensures resp == RedirectToList
      ensures !(form.valid && formsetValid) ==>
        posts == old(posts) && nextPost == old(nextPost) && images == old(images)
      ensures form.valid && formsetValid ==>
        && old(nextPost) !in old(posts)
        && posts == old(posts)[old(nextPost) := Post(form.title, form.slug, form.body, user, form.status, {}, {})]
        && nextPost == old(nextPost) + 1
        && images == CreateRows(old(images), old(nextPost), rows, 0)
    {
      if form.valid && formsetValid {
        var id := nextPost;
        assert id !in posts;
        posts := posts[id := Post(form.title, form.slug, form.body, user, form.status, {}, {})];
        nextPost := nextPost + 1;
        assert forall pid :: pid in posts ==> pid < nextPost;
        SaveImages(id, rows);
      }
      resp := RedirectToList;
    }

    /** The image loop of `post_create`: each row's image is saved for post
        `id`, in row order; the first row that cannot be read (a blank form)
        or saved ends the loop. */
    method SaveImages(id: PostId, rows: seq<CreateRow>)
      requires ImageStore.Valid(images)
      modifies this`images
      ensures ImageStore.Valid(images)
      ensures images == CreateRows(old(images), id, rows, 0)
    {
      var i := 0;
      while i < |rows|
        invariant 0 <= i <= |rows|
        invariant ImageStore.Valid(images)
        invariant CreateRows(images, id, rows, i) == CreateRows(old(images), id, rows, 0)
      {
        match rows[i]
        case Blank =>
          break;
        case Upload(img, saves) =>
          if !saves {
            break;
          }
          images := Insert(images, id, img);
        i := i + 1;
      }
    }

    /** `post_edit` on a POST: only the post's author may edit it; when the
        post form and the image formset both validate, save the form, then
        reconcile the image rows in order. A row that raises ends the view
        with a server error, keeping what the earlier rows did. */
    method PostEdit(id: PostId, user: UserId, form: PostForm, formsetValid: bool, rows: seq<EditRow>)
      returns (resp: Response)
      requires Valid()
      modifies this`posts, this`images
      ensures Valid()
      ensures id !in old(posts) || old(posts)[id].author != user ==>
        resp == NotFound && posts == old(posts) && images == old(images)
      ensures id in old(posts) && old(posts)[id].author == user && !(form.valid && formsetValid) ==>
        resp == Rendered && posts == old(posts) && images == old(images)
      ensures id in old(posts) && old(posts)[id].author == user && form.valid && formsetValid ==>
        var o := EditRows(old(images), id, rows, 0);
        && posts == old(posts)[id := ApplyForm(old(posts)[id], form)]
        && images == o.table
        && resp == (if o.failed then ServerError else RedirectToPost(id))
    {
      if id !in posts || posts[id].author != user {
        return NotFound;
      }
      if !(form.valid && formsetValid) {
        return Rendered;
      }
      posts := posts[id := ApplyForm(posts[id], form)];
      var index := 0;
      while index < |rows|
        invariant 0 <= index <= |rows|
        invariant posts == old(posts)[id := ApplyForm(old(posts)[id], form)]
        invariant ImageStore.Valid(images)
        invariant EditRows(images, id, rows, index) == EditRows(old(images), id, rows, 0)
      {
        match ApplyEditRow(images, id, index, rows[index])
        case None =>
          return ServerError;
        case Some(t) =>
          images := t;
        index := index + 1;
      }
      resp := RedirectToPost(id);
    }

    /** `post_delete`: only the post's author may delete it. */
    method PostDelete(id: PostId, user: UserId) returns (resp: Response)
      requires Valid()
      modifies this`posts
      ensures Valid()
      ensures id !in old(posts) || old(posts)[id].author != user ==>
        resp == NotFound && posts == old(posts)
      ensures id in old(posts) && old(posts)[id].author == user ==>
        resp == RedirectToList && posts == old(posts) - {id}
    {
      if id !in posts || user != posts[id].author {
        return NotFound;
      }
      posts := posts - {id};
      resp := RedirectToList;
    }
  }
}
