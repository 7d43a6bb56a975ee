# NHs-blog views, modelled in Dafny

A model of the view logic of a small Django blog (`blog/views.py`). The request, the ORM and the forms are replaced by plain values:

- the Post, Comment and Images tables are maps from ids to records, held by a store class, `Views.Blog`;
- the like and favourite relations of a post are sets of user ids;
- a form is a record holding its cleaned values and a flag saying whether it validated;
- the current user is a parameter.

Modules:

- `Records`: the records (`Post`, `Comment`) and the view outcomes (`Response`).
- `Pagination`: Django's paginator as `post_list` uses it (five posts per page, page count, page resolution), `proper_pagination`, and the slice `list(page_range)[start:end]`, with Python's slice clamping.
- `Listing`: the search filter of `post_list` (`title__icontains | author__username | body__icontains` over the published posts) and the whole list page.
- `Membership`: the like/favourite toggle.
- `Comments`: the detail page's comment list, which holds the post's top-level comments in descending id order.
- `ImageStore`: the Images table with the order the database returns its rows in. It also holds the row loops of `post_create` (save in order, stop at the first failing row) and `post_edit` (insert / delete by posted id / overwrite the `index`-th image of the live query).
- `Views`: the store class. Its methods are `post_detail`, `like_post`, `favourite_post`, `post_create`, `post_edit` and `post_delete`, with their 404 paths and author guards.

The model follows the code where its behaviour is easy to misread:

- A page number below 1 goes to the **last** page, not the first. Django's `get_page` treats "less than 1" as an empty page.
- With 5 pages and `page=5` the window shown is `[2, 3, 4, 5]`, not `[1..5]`. `proper_pagination` starts the slice at index `5 - 4 = 1`. See `Pagination.TwentyThreeObjectsExample`.
- In `post_create`, a failing image row ends the loop (`break`). The rows after it are not skipped over and saved.
- In `post_edit`, the overwrite branch indexes the live query `Images.objects.filter(post=post)`, which earlier rows of the same loop may have changed. It does not use a list fetched once before the loop, and it ignores the row's own id. See `ImageStore.OverwriteIsPositional`.
- In `post_edit`, the id of a cleared row is looked up with `Images.objects.get` over the whole Images table, not among the post's images. So editing one post can delete another post's image. See `ImageStore.ClearedRowDeletesAnyImage`.
- In `post_edit`, a cleared row that deletes the post's k-th image moves every later image of the post one place up in the live query. A later overwrite row at index j >= k therefore hits the image that stood at j + 1, and the last such row raises. See `ImageStore.ClearedRowShiftsOverwrite`.

The `except PageNotAnInteger` / `except EmptyPage` branches of `post_list` (blog/views.py:29-32) can never run, because `get_page` already recovers from both errors itself. They would map each error to the same page that `get_page` picks, so `Pagination.GetPage` models both.

## Model

| member | source | states |
|---|---|---|
| `Pagination.NumPages` | blog/views.py:25 | the page count is ceil(max(1, count) / 5): always at least 1, and the smallest number of 5-post pages that holds max(1, count) posts |
| `Pagination.ValidateNumber` | blog/views.py:28 | the paginator accepts exactly the integers in 1..numPages (1 also when there are no pages) and returns them unchanged; a missing or non-integer page raises PageNotAnInteger, any other integer raises EmptyPage |
| `Pagination.GetPage` | blog/views.py:26-32 | the resolved page lies in 1..numPages: a missing or non-integer page gives 1, an integer in range gives itself, any other integer (0 and negatives included) gives the last page |
| `Pagination.PageObjects` | blog/views.py:25-28 | page n holds exactly min(5, count - (n-1)*5) posts, at least one when there are any, and they are the posts at positions (n-1)*5 onward in list order; every post whose position divided by 5 is n-1 is on page n |
| `Pagination.ProperPagination` | blog/views.py:49-55 | the window's start index is max(0, number - index) and its end is 7 past the start, so (0, 7) when number <= 4 and (n-4, n+3) otherwise |
| `Pagination.DisplayedPages` | blog/views.py:34-40 | for any resolved page the shown page numbers are at most 7 consecutive ascending numbers, all inside 1..numPages |
| `Pagination.WindowIsRun` | blog/views.py:34-40 | for a page n in 1..P the shown page numbers are exactly the consecutive run from a start (n-3 if a page was asked for and n > 4, else 1) up to the smaller of start+6 and P |
| `Pagination.WindowProperties` | blog/views.py:34-40 | the shown page numbers are an ascending run of consecutive numbers, 1 to 7 of them, inside 1..P, containing n, starting at n-3 when a page was asked for and n > 4 and at 1 otherwise |
| `Pagination.NoPageParamShowsFirstPages` | blog/views.py:34-40 | with no `page` parameter the window is always pages 1..min(7, P) |
| `Pagination.TwentyThreeObjectsExample` | blog/views.py:25-40 | 23 posts make 5 pages; with no `page` parameter the window is [1..5]; page=5 and page=0 both show [2, 3, 4, 5] |
| `Listing.ContainsIff` | blog/views.py:20-22 | the substring test used for `icontains` holds exactly when the query occurs at some index of the text |
| `Listing.Matches` | blog/views.py:19-22 | a post matches the query exactly when the lower-cased query occurs at some index of the lower-cased title, or the author's username equals the query, or the lower-cased query occurs in the lower-cased body |
| `Listing.Filter` | blog/views.py:16-24 | each element occurs in the result as often as in the input when it satisfies the condition, and not at all otherwise; the result is no longer than the input |
| `Listing.FilterAppend` | blog/views.py:16-24 | filtering keeps the input order: the filter of two lists joined is the two filtered lists joined |
| `Listing.SearchPosts` | blog/views.py:16-24 | a missing or empty query lists exactly the published posts; otherwise a post is listed iff it is published and its title contains the query case-insensitively, or its author's username equals the query, or its body contains the query case-insensitively; the result is always among the published posts |
| `Listing.PostList` | blog/views.py:15-47 | the page count is that of the search result; the current page is the one the paginator resolves `page` to, inside 1..numPages; the page shows exactly the current page's slice of the search result, at most 5 published posts of the table, each matching a non-empty query; the window is the slice of the page range for that page |
| `Listing.PostListWindow` | blog/views.py:25-40 | the page-number window of the list page is a run of 1 to 7 consecutive numbers inside 1..numPages that contains the current page |
| `Membership.Toggle` | blog/views.py:118-124 | the user's membership flips, every other user's membership is unchanged, and the relation gains or loses exactly one member |
| `Membership.ToggleTwice` | blog/views.py:99-104 | two toggles by the same user restore the original relation |
| `Comments.TopLevel` | blog/views.py:60 | the listed comments are top-level comments of the post in strictly descending id order, and every top-level comment of the post below the id bound is listed |
| `Comments.TopLevelExactly` | blog/views.py:60 | when all comment ids are below the bound, the list holds exactly the post's comments with no `reply` |
| `Comments.NewTopLevelCommentFirst` | blog/views.py:60-78 | a new top-level comment, whose id is above all existing ids, heads the list and the earlier list follows unchanged |
| `ImageStore.Query` | blog/views.py:179 | the post's image query returns exactly the rows of that post, each once |
| `ImageStore.QueryConcat` | blog/views.py:179 | the query keeps table order: querying two runs of the order one after the other gives the two answers one after the other |
| `ImageStore.Insert` | blog/views.py:183-184 | saving a new image adds exactly one row, for the post, under the next id, which no row had; it keeps every other row, advances the next id by one, and keeps the table invariant |
| `ImageStore.InsertQuery` | blog/views.py:179-184 | the new image comes last in its post's image query, after the post's earlier images in their order; every other post's query is unchanged |
| `ImageStore.Delete` | blog/views.py:187-188 | deleting an image removes exactly that row, keeps every other row and the next id, and takes the image out of every post's query with the rest in the same order |
| `ImageStore.QueryWithout` | blog/views.py:179-188 | removing a row from the table and from the row order removes exactly that id from every post's image query and keeps the other images in their order |
| `ImageStore.DeleteShiftsQuery` | blog/views.py:179-188 | deleting the post's k-th image keeps the images before it in place and moves every later one a place up |
| `ImageStore.Overwrite` | blog/views.py:191-194 | overwriting sets the image of exactly one row, keeps its post, keeps every other row, and leaves every post's image query unchanged |
| `ImageStore.SavedCount` | blog/views.py:148-153 | the number of rows saved is the length of the longest prefix of rows that can be read and saved; the row right after it, if any, fails |
| `ImageStore.CreateRows` | blog/views.py:148-153 | the create loop keeps the table invariant: the order lists every row once and all ids are below the next id |
| `ImageStore.CreateRowsAppends` | blog/views.py:148-153 | the create loop appends to the table's row order the ids next, next+1, ..., one per saved row, in row order |
| `ImageStore.CreateRowsOrder` | blog/views.py:148-153 | the saved images come last in the post's image query, after its earlier images, in row order under consecutive fresh ids; every other post's query is unchanged |
| `ImageStore.CreateRowsSaved` | blog/views.py:148-153 | the create loop saves exactly the rows before the first failing one, in row order under consecutive fresh ids, with the post set; no later row is saved and existing images are untouched |
| `ImageStore.ApplyEditRow` | blog/views.py:181-194 | a row with empty cleaned data changes nothing; a row without id inserts an image for the post, last in its query; a cleared row deletes the image its id names, raising when none exists, and every post's query loses that image and keeps its order; both keep every other row; any other row overwrites the index-th image of the post's current query, raising when there is none, and no query changes; the table invariant is kept |
| `ImageStore.EditRows` | blog/views.py:180-194 | the edit loop keeps the table invariant, whether it ends normally or at a raising row |
| `ImageStore.EditRowsSplit` | blog/views.py:180-194 | the loop runs the rows in order: running the rows before k and then, unless one raised, the rest from k on is the whole loop; once a row raised no later row runs |
| `ImageStore.EditRowsFailIff` | blog/views.py:180-194 | the loop fails exactly when some row raises on the table the earlier rows left, and then the table is the one those earlier rows left |
| `ImageStore.EmptyRowsKeepTable` | blog/views.py:180-181 | a formset whose rows all have empty cleaned data leaves the Images table as it was |
| `ImageStore.ClearedRowShiftsOverwrite` | blog/views.py:179-194 | after a cleared row deletes the post's k-th image, an overwrite row at index j >= k writes its file into the image that stood at j + 1, whatever id it names, and raises when there is none |
| `ImageStore.OverwriteIsPositional` | blog/views.py:179-194 | with images 1, 2, 3, clearing 1 and then sending new files for 2 and 3 overwrites image 3 with the file meant for 2, and the last row raises |
| `ImageStore.ClearedRowDeletesAnyImage` | blog/views.py:175-188 | a cleared row naming another post's image deletes that image |
| `Views.ApplyForm` | blog/views.py:177 | the saved edit form replaces the post's title, slug, body and status, and keeps its author, likes and favourites |
| `Views.Blog.PostDetail` | blog/views.py:58-94 | a missing post or wrong slug gives 404 and changes nothing; a valid comment form adds one comment under a fresh id with `reply` None when no comment_id is posted and the referenced comment otherwise (a missing one raises and adds nothing); the page shows the post's top-level comments newest first, read after the creation, and whether the user is in `likes` and in `favourite` |
| `Views.Blog.LikePost` | blog/views.py:115-135 | a missing post gives 404 and changes nothing; otherwise only the post's `likes` changes, by the toggle, the flag equals the user's new membership, and the view redirects to the post |
| `Views.Blog.FavouritePost` | blog/views.py:97-105 | a missing post gives 404 and changes nothing; otherwise only the post's `favourite` changes, by the toggle, the flag equals the user's new membership, and the view redirects to the post |
| `Views.Blog.PostCreate` | blog/views.py:138-155 | nothing is saved unless both the form and the formset are valid; then the post is saved under a fresh id with the current user as author and no likes or favourites, and the images are those of the create loop; the response is always a redirect to the list |
| `Views.Blog.SaveImages` | blog/views.py:148-153 | the image loop of post creation leaves the table the create loop specifies |
| `Views.Blog.PostEdit` | blog/views.py:168-197 | a missing post or a non-author gives 404 and changes nothing; an invalid form or formset re-renders and changes nothing; otherwise the post takes the form's fields (author and relations kept) and the image table is the one the edit loop gives, ending in a server error when a row raised and a redirect to the post otherwise |
| `Views.Blog.PostDelete` | blog/views.py:211-217 | a missing post or a non-author gives 404 and deletes nothing; the author's request removes exactly that post and redirects to the list |

## Left out

- `user_login`, `user_logout`, `user_registration` and `edit_profile` are authentication, password hashing and plain form saves done by the framework. Registration creates one `Profile` per new user; that is not modelled.
- `favourite_post_list` is a single ORM read with no logic of its own.
- The GET branches of `post_detail`, `post_create` and `post_edit` only build empty forms and render them.
- Rendering, the AJAX/JSON response of `post_detail`, the `messages` calls, the `print` in `post_edit`, and URL reversal are I/O. A redirect is only named in `Response`.
- Requests from anonymous users are not modelled: the current user is always a user id. These views carry no `login_required`.
- `blog/models.py` and `blog/forms.py` are not part of this model. So the model does not cover:
  - how slugs and creation timestamps are made (a post form carries the slug its save writes);
  - `total_likes`;
  - the `published` manager's ordering (the list takes the Post table in that order as input);
  - cascading deletes when a post is deleted (`Views.Blog.PostDelete` removes only the post).
- Form and formset validation are inputs (`valid` flags). A formset row carries its cleaned `id`, which is taken to be the posted `form-N-id` that the delete branch reads.
- Whether a file can be read and stored is an input (`CreateRow.saves`).
- `Listing.SearchPosts`: `icontains` is modelled with ASCII lower-casing; Unicode case folding is not captured.
- The Images table's row order is a sequence the store keeps: inserts append, deletes remove, overwrites keep the position. A database that moves updated rows would order `data[index]` differently; that is not captured.
- No request runs in a transaction. A row that raises in `post_edit` leaves the form save and the earlier rows in place.
- A non-numeric `comment_id` (a `ValueError` in the ORM) is not modelled; a posted id is a natural number or absent.
- Non-numeric ids in URLs and posts are not modelled. The routes `<post_id>`, `<id>` and `<p_id>` (blog/urls.py:20-23) have no int converter, and `like_post` reads `post_id` as a raw POST string (blog/views.py:117). A non-numeric id makes the ORM lookup raise `ValueError`, a server error, where the model's natural-number ids give a not-found response.
- `Views.Blog.PostDelete`: returning an `Http404` instance instead of raising it is modelled as a not-found response. Whether the framework turns it into a 404 or a server error is not captured; nothing is deleted either way.
- Concurrent toggles and lost updates are left to the database.
