/** `post_list`: the published posts, narrowed by the optional search query
    `q`, cut into pages of five, with the window of page numbers to show. */
module Listing {
  import opened Records
  import opened Pagination

  /** ASCII lower-casing of one character. */
  function LowerChar(c: char): char
  {
    if 'A' <= c <= 'Z' then (c as int + 32) as char else c
  }

  function Lower(s: string): (r: string)
    ensures |r| == |s|
    ensures forall i :: 0 <= i < |s| ==> r[i] == LowerChar(s[i])
  {
    seq(|s|, i requires 0 <= i < |s| => LowerChar(s[i]))
  }

  /** Substring test: `t` occurs somewhere in `s`. */
  function Contains(s: string, t: string): bool
    decreases |s|
  {
    |t| <= |s| && (s[..|t|] == t || (|s| > 0 && Contains(s[1..], t)))
  }

  /** `t` occurs in `s` starting at index `i`. */
  predicate OccursAt(s: string, t: string, i: int)
  {
    0 <= i && i + |t| <= |s| && s[i..i + |t|] == t
  }

  /** `Contains` agrees with the direct definition of a substring. */
  lemma {:induction false} ContainsIff(s: string, t: string)
    ensures Contains(s, t) <==> exists i :: OccursAt(s, t, i)
    decreases |s|
  {
    if |t| <= |s| && s[..|t|] == t {
      assert OccursAt(s, t, 0);
    } else if |t| <= |s| && |s| > 0 {
      ContainsIff(s[1..], t);
      if exists i :: OccursAt(s, t, i) {
        var i :| OccursAt(s, t, i);
        assert i != 0;
        assert s[1..][i - 1..i - 1 + |t|] == s[i..i + |t|];
        assert OccursAt(s[1..], t, i - 1);
      }
      if Contains(s[1..], t) {
        var j :| OccursAt(s[1..], t, j);
        assert s[j + 1..j + 1 + |t|] == s[1..][j..j + |t|];
        assert OccursAt(s, t, j + 1);
      }
    }
  }

  /** Case-insensitive containment, the ORM's `icontains`. */
  predicate IContains(s: string, t: string)
  {
    Contains(Lower(s), Lower(t))
  }

  /** `icontains` holds when the lower-cased query occurs at some index of
      the lower-cased text. */
  ghost predicate IOccurs(s: string, t: string)
  {
    exists i :: OccursAt(Lower(s), Lower(t), i)
  }

  /** The search condition `title__icontains | author__username | body__icontains`;
      `usernames` maps user ids to their user names. */
  predicate Matches(p: Post, q: string, usernames: map<UserId, string>): (b: bool)
    ensures b <==> IOccurs(p.title, q) || (p.author in usernames && usernames[p.author] == q) || IOccurs(p.body, q)
  {
    ContainsIff(Lower(p.title), Lower(q));
    ContainsIff(Lower(p.body), Lower(q));
    IContains(p.title, q)
    || (p.author in usernames && usernames[p.author] == q)
    || IContains(p.body, q)
  }

  /** The elements of `s` that satisfy `keep`, in their order. */
  function Filter<T(!new)>(s: seq<T>, keep: T -> bool): (r: seq<T>)
    ensures |r| <= |s|
    ensures forall x :: x in r <==> x in s && keep(x)
    ensures forall x :: multiset(r)[x] == if keep(x) then multiset(s)[x] else 0
  {
    if s == [] then []
    else
      var rest := Filter(s[1..], keep);
      assert s == [s[0]] + s[1..];
      assert multiset(s) == multiset{s[0]} + multiset(s[1..]);
      if keep(s[0]) then [s[0]] + rest else rest
  }

  /** Filtering a non-empty list: its head, when kept, then the filtered tail. */
  lemma FilterCons<T(!new)>(x: T, s: seq<T>, keep: T -> bool)
    ensures Filter([x] + s, keep) == (if keep(x) then [x] else []) + Filter(s, keep)
  {
    assert ([x] + s)[0] == x && ([x] + s)[1..] == s;
  }

  lemma ConcatAssoc<T>(x: seq<T>, y: seq<T>, z: seq<T>)
    ensures x + (y + z) == (x + y) + z
  {
  }

  /** Filtering keeps the order: filtering two lists one after the other
      gives the two filtered lists one after the other. */
  lemma {:induction false} FilterAppend<T(!new)>(a: seq<T>, b: seq<T>, keep: T -> bool)
    ensures Filter(a + b, keep) == Filter(a, keep) + Filter(b, keep)
  {
    if a == [] {
      assert a + b == b;
    } else {
      var head := if keep(a[0]) then [a[0]] else [];
      assert a == [a[0]] + a[1..];
      assert a + b == [a[0]] + (a[1..] + b);
      FilterCons(a[0], a[1..] + b, keep);
      FilterCons(a[0], a[1..], keep);
      FilterAppend(a[1..], b, keep);
      ConcatAssoc(head, Filter(a[1..], keep), Filter(b, keep));
    }
  }

  /** `Post.published.all()` over the Post table `rows`. */
  function Published(rows: seq<Post>): seq<Post>
  {
    Filter(rows, (p: Post) => p.status == Status.Published)
  }

  /** The posts `post_list` paginates: all published posts when `q` is
      missing or empty, else the published posts that match `q`. */
  function SearchPosts(rows: seq<Post>, q: Option<string>, usernames: map<UserId, string>): (r: seq<Post>)
    ensures q == None || q == Some("") ==> r == Published(rows)
    ensures q.Some? && q.value != "" ==>
      forall p :: p in r <==> p in rows && p.status == Status.Published && Matches(p, q.value, usernames)
    ensures forall p :: p in r ==> p in Published(rows)
  {
    if q.None? || q.value == "" then Published(rows)
    else Filter(rows, (p: Post) => p.status == Status.Published && Matches(p, q.value, usernames))
  }

  /** What `post_list` renders: the posts of the current page, the page's
      number and the page numbers to link to. */
  datatype ListPage = ListPage(posts: seq<Post>, number: int, numPages: nat, pageRange: seq<int>)

  function PostList(rows: seq<Post>, usernames: map<UserId, string>, q: Option<string>, page: PageParam): (v: ListPage)
    ensures v.numPages == NumPages(|SearchPosts(rows, q, usernames)|)
    ensures v.number == GetPage(page, v.numPages)
    ensures 1 <= v.number <= v.numPages
    ensures v.posts == PageObjects(SearchPosts(rows, q, usernames), v.number)
    ensures v.pageRange == DisplayedPages(page, v.numPages, v.number)
    ensures |v.posts| <= PageSize
    ensures forall p :: p in v.posts ==> p in rows && p.status == Status.Published
    ensures q.Some? && q.value != "" ==> forall p :: p in v.posts ==> Matches(p, q.value, usernames)
  {
    var found := SearchPosts(rows, q, usernames);
    var numPages := NumPages(|found|);
    var number := GetPage(page, numPages);
    var posts := PageObjects(found, number);
    ListPage(posts, number, numPages, DisplayedPages(page, numPages, number))
  }

  /** The page-number window `post_list` shows is a run of consecutive
      numbers of length at most seven inside 1..numPages that contains the
      current page. */
  lemma PostListWindow(rows: seq<Post>, usernames: map<UserId, string>, q: Option<string>, page: PageParam)
    ensures var v := PostList(rows, usernames, q, page);
      && 0 < |v.pageRange| <= WindowWidth
      && (forall k :: 0 <= k < |v.pageRange| ==> 1 <= v.pageRange[k] <= v.numPages)
      && (forall k :: 0 < k < |v.pageRange| ==> v.pageRange[k] == v.pageRange[k - 1] + 1)
      && v.number in v.pageRange
  {
    var v := PostList(rows, usernames, q, page);
    WindowProperties(page, v.numPages, v.number);
  }
}
