/** Pagination of the post list: the framework paginator's page count and
    page resolution (as `post_list` uses them), `proper_pagination`, and the
    slice of page numbers the list page shows. */
module Pagination {

  /** Posts per page: `Paginator(post_list, 5)`. */
  const PageSize: nat := 5
  /** The `index` argument `post_list` passes to `proper_pagination`. */
  const WindowIndex: int := 4
  /** The initial `end_index` of the window. */
  const WindowWidth: int := 7

  /** The raw `page` query parameter: missing, not an integer, or an integer. */
  datatype PageParam = Absent | NotInteger | Integer(value: int)

  /** The two exceptions the paginator's number validation raises. */
  datatype PageError = PageNotAnInteger | EmptyPage

  datatype Validated = Valid(number: int) | Invalid(error: PageError)

  function Max(a: int, b: int): int { if a < b then b else a }
  function Min(a: int, b: int): int { if a < b then a else b }

  /** Number of pages for `count` objects with an allowed empty first page
      and no orphans: ceil(max(1, count) / PageSize). */
  function NumPages(count: nat): (p: nat)
    ensures p >= 1
    ensures (p - 1) * PageSize < Max(1, count) <= p * PageSize
  {
    (Max(1, count) + PageSize - 1) / PageSize
  }

  /** The paginator's validation of a requested page number. */
  function ValidateNumber(page: PageParam, numPages: nat): (v: Validated)
    ensures v.Valid? <==> page.Integer? && 1 <= page.value && (page.value <= numPages || page.value == 1)
    ensures v.Valid? ==> v.number == page.value
    ensures v.Invalid? && v.error == PageNotAnInteger <==> !page.Integer?
  {
    match page
    case Absent => Invalid(PageNotAnInteger)
    case NotInteger => Invalid(PageNotAnInteger)
    case Integer(n) =>
      if n < 1 then Invalid(EmptyPage)
      else if n > numPages then (if n == 1 then Valid(1) else Invalid(EmptyPage))
      else Valid(n)
  }

  /** The page `post_list` ends up showing: a non-integer (or missing) page
      gives the first page, a number out of range (below 1 included) gives
      the last page. */
  function GetPage(page: PageParam, numPages: nat): (n: int)
    requires numPages >= 1
    ensures 1 <= n <= numPages
    ensures !page.Integer? ==> n == 1
    ensures page.Integer? && 1 <= page.value <= numPages ==> n == page.value
    ensures page.Integer? && !(1 <= page.value <= numPages) ==> n == numPages
  {
    match ValidateNumber(page, numPages)
    case Valid(n) => n
    case Invalid(PageNotAnInteger) => 1
    case Invalid(EmptyPage) => numPages
  }

  /** The objects on page `number`: `object_list[bottom:top]` with the top
      cut at the object count. */
  function PageObjects<T>(items: seq<T>, number: int): (r: seq<T>)
    requires 1 <= number <= NumPages(|items|)
    ensures |r| == Min(PageSize, |items| - (number - 1) * PageSize)
    ensures |items| > 0 ==> |r| > 0
    ensures (number - 1) * PageSize + |r| <= |items|
    ensures forall k :: 0 <= k < |r| ==> r[k] == items[(number - 1) * PageSize + k]
    ensures forall i :: 0 <= i < |items| && i / PageSize == number - 1 ==> items[i] in r
  {
    var bottom := (number - 1) * PageSize;
    var top := if bottom + PageSize >= |items| then |items| else bottom + PageSize;
    items[bottom..top]
  }

  /** `proper_pagination(posts, index)`: the window starts `index` pages
      before the current one, and never before the first. */
  function ProperPagination(number: int, index: int): (r: (int, int))
    ensures r.0 == Max(0, number - index)
    ensures r.1 == r.0 + WindowWidth
  {
    var startIndex := 0;
    var endIndex := WindowWidth;
    if number > index then (number - index, number - index + endIndex) else (startIndex, endIndex)
  }

  /** The bounds `post_list` slices the page range with: (0, 7) when no page
      was asked for, `proper_pagination` otherwise. */
  function WindowBounds(page: PageParam, number: int): (int, int)
  {
    if page.Absent? then (0, WindowWidth) else ProperPagination(number, WindowIndex)
  }

  /** The run of consecutive integers lo, lo+1, ..., hi-1. */
  function Run(lo: int, hi: int): (r: seq<int>)
    requires lo <= hi
    ensures |r| == hi - lo
    ensures forall k :: 0 <= k < |r| ==> r[k] == lo + k
  {
    seq(hi - lo, k => lo + k)
  }

  /** The paginator's `page_range`, 1..numPages, as a list. */
  function PageRange(numPages: nat): seq<int>
  {
    Run(1, numPages + 1)
  }

  /** A Python slice bound, made non-negative and at most `len`. */
  function SliceBound(i: int, len: nat): (b: nat)
    ensures b <= len
    ensures 0 <= i <= len ==> b == i
    ensures i > len ==> b == len
  {
    if i < 0 then (if len + i < 0 then 0 else len + i)
    else if i > len then len
    else i
  }

  /** Python's `s[start:end]`. */
  function Slice<T>(s: seq<T>, start: int, end: int): (r: seq<T>)
    ensures |r| <= |s|
    ensures 0 <= start <= end ==> |r| <= end - start
    ensures SliceBound(start, |s|) + |r| <= |s|
    ensures forall k :: 0 <= k < |r| ==> r[k] == s[SliceBound(start, |s|) + k]
  {
    var a := SliceBound(start, |s|);
    var b := SliceBound(end, |s|);
    if a < b then s[a..b] else []
  }

  /** `list(paginator.page_range)[start_index:end_index]`. */
  function DisplayedPages(page: PageParam, numPages: nat, number: int): (r: seq<int>)
    ensures |r| <= WindowWidth
    ensures forall k :: 0 <= k < |r| ==> 1 <= r[k] <= numPages
    ensures forall k :: 0 < k < |r| ==> r[k] == r[k - 1] + 1
  {
    var (startIndex, endIndex) := WindowBounds(page, number);
    Slice(PageRange(numPages), startIndex, endIndex)
  }

  /** The first page number shown for current page `number`. */
  function WindowStart(page: PageParam, number: int): int
  {
    if page.Absent? || number <= WindowIndex then 1 else number - WindowIndex + 1
  }

  /** For a page number inside 1..numPages the window is exactly the run of
      at most seven page numbers that starts at `WindowStart` and stops at
      the last page. */
  lemma WindowIsRun(page: PageParam, numPages: nat, number: int)
    requires 1 <= number <= numPages
    ensures WindowStart(page, number) <= Min(WindowStart(page, number) + WindowWidth, numPages + 1)
    ensures DisplayedPages(page, numPages, number)
         == Run(WindowStart(page, number), Min(WindowStart(page, number) + WindowWidth, numPages + 1))
  {
  }

  /** The displayed page numbers for a resolved page `number` form an
      ascending run of consecutive numbers, at most seven of them, inside
      1..numPages, containing `number`; the run starts at `number - 3` when
      a page was asked for and `number` is past 4, and at 1 otherwise. */
  lemma {:induction false} WindowProperties(page: PageParam, numPages: nat, number: int)
    requires 1 <= number <= numPages
    requires page.Absent? ==> number == 1
    ensures var r := DisplayedPages(page, numPages, number);
      && 0 < |r| <= WindowWidth
      && (forall k :: 0 <= k < |r| ==> 1 <= r[k] <= numPages)
      && (forall k :: 0 < k < |r| ==> r[k] == r[k - 1] + 1)
      && number in r
      && r[0] == (if !page.Absent? && number > WindowIndex then number - 3 else 1)
  {
    WindowIsRun(page, numPages, number);
    var lo := WindowStart(page, number);
    var r := DisplayedPages(page, numPages, number);
    assert r[number - lo] == number;
  }

  /** With no `page` parameter the window is always the first seven pages
      (or all of them when there are fewer). */
  lemma NoPageParamShowsFirstPages(numPages: nat, number: int)
    requires 1 <= numPages
    ensures DisplayedPages(Absent, numPages, number) == Run(1, Min(1 + WindowWidth, numPages + 1))
  {
  }

  /** 23 objects make 5 pages; no `page` parameter shows pages 1..5 and
      `page=5` shows 2..5 (the window keeps at most three pages before the
      current one). */
  lemma TwentyThreeObjectsExample()
    ensures NumPages(23) == 5
    ensures DisplayedPages(Absent, 5, GetPage(Absent, 5)) == [1, 2, 3, 4, 5]
    ensures DisplayedPages(Integer(5), 5, GetPage(Integer(5), 5)) == [2, 3, 4, 5]
    ensures DisplayedPages(Integer(0), 5, GetPage(Integer(0), 5)) == [2, 3, 4, 5]
  {
  }
}
