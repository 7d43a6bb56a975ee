/** The Images table and what `post_create` and `post_edit` do to it, row by
    row, for the image formset they receive. */
module ImageStore {
  import opened Records

  /** The cleaned value of an image field: `False` when the clear box was
      ticked, otherwise a stored file. */
  datatype ImageValue = Cleared | File(name: string)

  datatype Image = Image(post: PostId, image: ImageValue)

  /** The Images table: its rows by id, the order in which the database
      happens to return them, and the next primary key to hand out. */
  datatype Table = Table(rows: map<ImageId, Image>, order: seq<ImageId>, next: nat)

  predicate Distinct(s: seq<ImageId>)
  {
    forall i, j :: 0 <= i < j < |s| ==> s[i] != s[j]
  }

  /** Every id the table holds or lists is below `next`. */
  predicate NextIsFresh(t: Table)
  {
    && (forall id :: id in t.rows ==> id < t.next)
    && (forall id :: id in t.order ==> id < t.next)
  }

  /** `order` lists every row exactly once, and every id is below `next`. */
  predicate Valid(t: Table)
  {
    && Distinct(t.order)
    && (forall id :: id in t.rows ==> id in t.order)
    && (forall id :: id in t.order ==> id in t.rows)
    && NextIsFresh(t)
  }

  /** The ids `Images.objects.filter(post=post)` returns, in table order. */
  function Query(rows: map<ImageId, Image>, order: seq<ImageId>, post: PostId): (r: seq<ImageId>)
    ensures |r| <= |order|
    ensures forall id :: id in r <==> id in order && id in rows && rows[id].post == post
    ensures Distinct(order) ==> Distinct(r)
  {
    if order == [] then []
    else
      var rest := Query(rows, order[1..], post);
      if order[0] in rows && rows[order[0]].post == post then
        assert Distinct(order) ==> order[0] !in order[1..];
        [order[0]] + rest
      else rest
  }

  function PostImages(t: Table, post: PostId): seq<ImageId>
  {
    Query(t.rows, t.order, post)
  }

  /** The query only looks at which post each listed row belongs to. */
  lemma {:induction false} QueryFrame(rows: map<ImageId, Image>, rows': map<ImageId, Image>, order: seq<ImageId>, post: PostId)
    requires forall id :: id in order ==> (id in rows <==> id in rows')
    requires forall id :: id in order && id in rows ==> rows[id].post == rows'[id].post
    ensures Query(rows, order, post) == Query(rows', order, post)
  {
    if order != [] {
      QueryFrame(rows, rows', order[1..], post);
    }
  }

  /** The query keeps table order: querying two runs of the order one after
      the other gives the two answers one after the other. */
  lemma {:induction false} QueryConcat(rows: map<ImageId, Image>, o1: seq<ImageId>, o2: seq<ImageId>, post: PostId)
    ensures Query(rows, o1 + o2, post) == Query(rows, o1, post) + Query(rows, o2, post)
  {
    if o1 == [] {
      assert o1 + o2 == o2;
    } else {
      assert (o1 + o2)[0] == o1[0];
      assert (o1 + o2)[1..] == o1[1..] + o2;
      QueryConcat(rows, o1[1..], o2, post);
    }
  }

  /** `s` without `x`, in the same order. */
  function Without(s: seq<ImageId>, x: ImageId): (r: seq<ImageId>)
    ensures forall y :: y in r <==> y in s && y != x
    ensures Distinct(s) ==> Distinct(r)
    ensures x !in s ==> r == s
  {
    if s == [] then []
    else
      var rest := Without(s[1..], x);
      if s[0] == x then rest
      else
        assert Distinct(s) ==> s[0] !in s[1..];
        [s[0]] + rest
  }

  /** Removing the head of a list without repeats leaves its tail. */
  lemma WithoutHead(s: seq<ImageId>)
    requires Distinct(s) && |s| > 0
    ensures Without(s, s[0]) == s[1..]
  {
    assert s[0] !in s[1..];
  }

  /** Dropping the `k`-th element of a list, seen from its tail. */
  lemma ConsDrop(s: seq<ImageId>, k: nat)
    requires 0 < k < |s|
    ensures [s[0]] + (s[1..][..k - 1] + s[1..][k..]) == s[..k] + s[k + 1..]
  {
    assert s[..k] == [s[0]] + s[1..][..k - 1];
    assert s[k + 1..] == s[1..][k..];
  }

  /** Removing the `k`-th element of a list without repeats closes the gap:
      the elements before it stay, the ones after it move one place up. */
  lemma {:induction false} WithoutAt(s: seq<ImageId>, k: nat)
    requires Distinct(s) && k < |s|
    ensures Without(s, s[k]) == s[..k] + s[k + 1..]
  {
    if k == 0 {
      WithoutHead(s);
    } else {
      var tail := s[1..];
      assert s[0] != s[k];
      assert Distinct(tail) && tail[k - 1] == s[k];
      WithoutAt(tail, k - 1);
      ConsDrop(s, k);
    }
  }

  /** Deleting a row and dropping it from the order takes it out of every
      post's query and keeps the rest of the query in order. */
  lemma {:induction false} QueryWithout(rows: map<ImageId, Image>, order: seq<ImageId>, x: ImageId, post: PostId)
    ensures Query(rows - {x}, Without(order, x), post) == Without(Query(rows, order, post), x)
  {
    if order != [] {
      QueryWithout(rows, order[1..], x, post);
      var a := order[0];
      var rest := Query(rows, order[1..], post);
      if a in rows && rows[a].post == post {
        assert Query(rows, order, post) == [a] + rest;
        assert ([a] + rest)[0] == a && ([a] + rest)[1..] == rest;
      }
      if a != x {
        var w := Without(order[1..], x);
        assert Without(order, x) == [a] + w;
        assert ([a] + w)[0] == a && ([a] + w)[1..] == w;
      }
    }
  }

  /** `Images(post=post, image=img).save()`: a new row with a fresh id,
      returned last by the post's image query. */
  function Insert(t: Table, post: PostId, img: ImageValue): (r: Table)
    requires NextIsFresh(t)
    ensures NextIsFresh(r)
    ensures Valid(t) ==> Valid(r)
    ensures t.next !in t.rows && r.rows.Keys == t.rows.Keys + {t.next}
    ensures r.rows[t.next] == Image(post, img)
    ensures forall id :: id in t.rows ==> r.rows[id] == t.rows[id]
    ensures r.next == t.next + 1
  {
    assert t.next !in t.order;
    assert forall i :: 0 <= i < |t.order| ==> (t.order + [t.next])[i] == t.order[i];
    Table(t.rows[t.next := Image(post, img)], t.order + [t.next], t.next + 1)
  }

  /** The new image comes last in its post's query, and no other post's
      query changes. */
  lemma InsertQuery(t: Table, post: PostId, img: ImageValue, p: PostId)
    requires NextIsFresh(t)
    ensures PostImages(Insert(t, post, img), p) == PostImages(t, p) + (if p == post then [t.next] else [])
  {
    var r := Insert(t, post, img);
    QueryFrame(t.rows, r.rows, t.order, p);
    QueryConcat(r.rows, t.order, [t.next], p);
    assert [t.next][1..] == [];
  }

  /** `Images.objects.get(id=id).delete()`. */
  function Delete(t: Table, id: ImageId): (r: Table)
    requires Valid(t) && id in t.rows
    ensures Valid(r)
    ensures r.rows.Keys == t.rows.Keys - {id}
    ensures forall other :: other in r.rows ==> r.rows[other] == t.rows[other]
    ensures r.next == t.next
    ensures forall p :: PostImages(r, p) == Without(PostImages(t, p), id)
  {
    var r := Table(t.rows - {id}, Without(t.order, id), t.next);
    forall p ensures PostImages(r, p) == Without(PostImages(t, p), id) {
      QueryWithout(t.rows, t.order, id, p);
    }
    r
  }

  /** Deleting the post's `k`-th image moves every later image of the post
      one place up in its query; the earlier ones keep their places. */
  lemma DeleteShiftsQuery(t: Table, post: PostId, k: nat)
    requires Valid(t) && k < |PostImages(t, post)|
    ensures var q := PostImages(t, post);
      q[k] in t.rows && PostImages(Delete(t, q[k]), post) == q[..k] + q[k + 1..]
  {
    var q := PostImages(t, post);
    assert q[k] in q;
    WithoutAt(q, k);
  }

  /** Setting the image of row `id` and saving it; the row keeps its post
      and its place in the table. */
  function Overwrite(t: Table, id: ImageId, img: ImageValue): (r: Table)
    requires Valid(t) && id in t.rows
    ensures Valid(r)
    ensures r.rows.Keys == t.rows.Keys
    ensures r.rows[id] == Image(t.rows[id].post, img)
    ensures forall other :: other in t.rows && other != id ==> r.rows[other] == t.rows[other]
    ensures forall p :: PostImages(r, p) == PostImages(t, p)
  {
    var r := Table(t.rows[id := t.rows[id].(image := img)], t.order, t.next);
    forall p ensures PostImages(r, p) == PostImages(t, p) {
      QueryFrame(t.rows, r.rows, t.order, p);
    }
    r
  }

  // ---------------------------------------------------------------------
  // post_create

  /** A row of the creation formset: a blank extra form (its cleaned data
      has no `image` key), or an image together with whether saving it
      succeeds. */
  datatype CreateRow = Blank | Upload(image: ImageValue, saves: bool)

  predicate Saves(row: CreateRow)
  {
    row.Upload? && row.saves
  }

  /** How many rows, from `i` on, are saved before the first one that fails. */
  function SavedCount(rows: seq<CreateRow>, i: nat): (n: nat)
    requires i <= |rows|
    ensures i + n <= |rows|
    ensures forall k :: i <= k < i + n ==> Saves(rows[k])
    ensures i + n < |rows| ==> !Saves(rows[i + n])
    decreases |rows| - i
  {
    if i == |rows| || !Saves(rows[i]) then 0 else 1 + SavedCount(rows, i + 1)
  }

  /** The loop of `post_create` from row `i` on: save each row's image for
      `post` until a row cannot be read or saved, then stop. */
  function CreateRows(t: Table, post: PostId, rows: seq<CreateRow>, i: nat): (r: Table)
    requires NextIsFresh(t) && i <= |rows|
    ensures NextIsFresh(r)
    ensures Valid(t) ==> Valid(r)
    decreases |rows| - i
  {
    if i == |rows| then t
    else match rows[i]
      case Blank => t
      case Upload(img, saves) =>
        if !saves then t else CreateRows(Insert(t, post, img), post, rows, i + 1)
  }

  /** The `n` consecutive ids from `from` on. */
  function Ids(from: nat, n: nat): (r: seq<ImageId>)
    ensures |r| == n
    ensures forall id :: id in r ==> from <= id < from + n
    decreases n
  {
    if n == 0 then [] else [from] + Ids(from + 1, n - 1)
  }

  /** One saved row: the loop inserts its image and goes on with the next. */
  lemma CreateRowsStep(t: Table, post: PostId, rows: seq<CreateRow>, i: nat)
    requires NextIsFresh(t) && i < |rows| && Saves(rows[i])
    ensures CreateRows(t, post, rows, i) == CreateRows(Insert(t, post, rows[i].image), post, rows, i + 1)
    ensures SavedCount(rows, i) == 1 + SavedCount(rows, i + 1)
  {
  }

  /** A row that is not saved ends the loop with the table unchanged. */
  lemma CreateRowsStop(t: Table, post: PostId, rows: seq<CreateRow>, i: nat)
    requires NextIsFresh(t) && i <= |rows| && !(i < |rows| && Saves(rows[i]))
    ensures CreateRows(t, post, rows, i) == t
    ensures SavedCount(rows, i) == 0
    ensures PostImages(t, post) + Ids(t.next, SavedCount(rows, i)) == PostImages(t, post)
  {
  }

  lemma AppendIds(s: seq<ImageId>, from: nat, n: nat)
    ensures (s + [from]) + Ids(from + 1, n) == s + Ids(from, n + 1)
  {
    assert Ids(from, n + 1) == [from] + Ids(from + 1, n);
  }

  /** The loop appends the saved rows' ids to the table order, in row order. */
  lemma {:induction false} CreateRowsAppends(t: Table, post: PostId, rows: seq<CreateRow>, i: nat)
    requires NextIsFresh(t) && i <= |rows|
    ensures CreateRows(t, post, rows, i).order == t.order + Ids(t.next, SavedCount(rows, i))
    decreases |rows| - i
  {
    if i < |rows| && Saves(rows[i]) {
      var t' := Insert(t, post, rows[i].image);
      var n := SavedCount(rows, i + 1);
      CreateRowsStep(t, post, rows, i);
      CreateRowsAppends(t', post, rows, i + 1);
      AppendIds(t.order, t.next, n);
    } else {
      CreateRowsStop(t, post, rows, i);
    }
  }

  /** Querying ids that all belong to `post` and are all in the table
      returns them as they are; querying them for another post returns
      nothing. */
  lemma {:induction false} QueryOwnRows(rows: map<ImageId, Image>, s: seq<ImageId>, post: PostId, p: PostId)
    requires forall id :: id in s ==> id in rows && rows[id].post == post
    ensures Query(rows, s, p) == if p == post then s else []
  {
    if s != [] {
      assert s[0] in s;
      QueryOwnRows(rows, s[1..], post, p);
    }
  }

  /** The rows listed before the loop answer the query as they did. */
  lemma CreateRowsKeepsOldQuery(t: Table, post: PostId, rows: seq<CreateRow>, i: nat, p: PostId)
    requires NextIsFresh(t) && i <= |rows|
    ensures Query(CreateRows(t, post, rows, i).rows, t.order, p) == Query(t.rows, t.order, p)
  {
    var r := CreateRows(t, post, rows, i);
    forall id | id in t.order ensures (id in t.rows <==> id in r.rows) && (id in t.rows ==> r.rows[id] == t.rows[id]) {
      CreateRowsKeys(t, post, rows, i, id);
    }
    QueryFrame(t.rows, r.rows, t.order, p);
  }

  /** The saved images come last in the post's image query, in row order;
      every other post's query is as it was. */
  lemma CreateRowsOrder(t: Table, post: PostId, rows: seq<CreateRow>, i: nat, p: PostId)
    requires NextIsFresh(t) && i <= |rows|
    ensures PostImages(CreateRows(t, post, rows, i), p)
         == PostImages(t, p) + (if p == post then Ids(t.next, SavedCount(rows, i)) else [])
  {
    var r := CreateRows(t, post, rows, i);
    var added := Ids(t.next, SavedCount(rows, i));
    CreateRowsAppends(t, post, rows, i);
    QueryConcat(r.rows, t.order, added, p);
    CreateRowsKeepsOldQuery(t, post, rows, i, p);
    forall id | id in added ensures id in r.rows && r.rows[id].post == post {
      CreateRowsImage(t, post, rows, i, id);
    }
    QueryOwnRows(r.rows, added, post, p);
  }

  /** The loop hands out one added id per saved row. */
  lemma {:induction false} CreateRowsNext(t: Table, post: PostId, rows: seq<CreateRow>, i: nat)
    requires NextIsFresh(t) && i <= |rows|
    ensures CreateRows(t, post, rows, i).next == t.next + SavedCount(rows, i)
    decreases |rows| - i
  {
    if i < |rows| && Saves(rows[i]) {
      CreateRowsStep(t, post, rows, i);
      CreateRowsNext(Insert(t, post, rows[i].image), post, rows, i + 1);
    } else {
      CreateRowsStop(t, post, rows, i);
    }
  }

  /** The loop keeps every existing row and adds exactly the ids
      `t.next .. t.next + n - 1` for the `n` saved rows. */
  lemma {:induction false} CreateRowsKeys(t: Table, post: PostId, rows: seq<CreateRow>, i: nat, id: ImageId)
    requires NextIsFresh(t) && i <= |rows|
    ensures var r := CreateRows(t, post, rows, i);
      && (id in r.rows <==> id in t.rows || t.next <= id < t.next + SavedCount(rows, i))
      && (id in t.rows ==> r.rows[id] == t.rows[id])
    decreases |rows| - i
  {
    if i < |rows| && Saves(rows[i]) {
      var t' := Insert(t, post, rows[i].image);
      CreateRowsStep(t, post, rows, i);
      CreateRowsKeys(t', post, rows, i + 1, id);
      assert id in t'.rows <==> id in t.rows || id == t.next;
    } else {
      CreateRowsStop(t, post, rows, i);
    }
  }

  /** The saved rows' images are stored for the post under consecutive
      ids from `t.next` on, in row order. */
  lemma {:induction false} CreateRowsImage(t: Table, post: PostId, rows: seq<CreateRow>, i: nat, id: ImageId)
    requires NextIsFresh(t) && i <= |rows| && t.next <= id < t.next + SavedCount(rows, i)
    ensures var r := CreateRows(t, post, rows, i);
      id in r.rows && r.rows[id] == Image(post, rows[i + (id - t.next)].image)
    decreases |rows| - i
  {
    var t' := Insert(t, post, rows[i].image);
    CreateRowsStep(t, post, rows, i);
    if id == t.next {
      CreateRowsKeys(t', post, rows, i + 1, id);
    } else {
      CreateRowsImage(t', post, rows, i + 1, id);
    }
  }

  /** The loop saves exactly the rows before the first failing one, in row
      order under consecutive fresh ids, and leaves every other row of the
      table as it was. */
  lemma CreateRowsSaved(t: Table, post: PostId, rows: seq<CreateRow>, i: nat)
    requires NextIsFresh(t) && i <= |rows|
    ensures var r := CreateRows(t, post, rows, i);
            var n := SavedCount(rows, i);
      && r.next == t.next + n
      && (forall id :: id in r.rows <==> id in t.rows || t.next <= id < t.next + n)
      && (forall id :: id in t.rows ==> r.rows[id] == t.rows[id])
      && (forall id :: t.next <= id < t.next + n ==> r.rows[id] == Image(post, rows[i + (id - t.next)].image))
  {
    var r := CreateRows(t, post, rows, i);
    var n := SavedCount(rows, i);
    CreateRowsNext(t, post, rows, i);
    forall id: ImageId
      ensures (id in r.rows <==> id in t.rows || t.next <= id < t.next + n)
           && (id in t.rows ==> r.rows[id] == t.rows[id])
    {
      CreateRowsKeys(t, post, rows, i, id);
    }
    forall id: ImageId | t.next <= id < t.next + n
      ensures r.rows[id] == Image(post, rows[i + (id - t.next)].image)
    {
      CreateRowsImage(t, post, rows, i, id);
    }
  }

  // ---------------------------------------------------------------------
  // post_edit

  /** A row of the edit formset: one with empty cleaned data (only an extra
      row the user left untouched has that; an untouched row of an existing
      image carries its id and current file), or one with the cleaned `id`
      (None for an extra row) and the cleaned `image`. */
  datatype EditRow = Empty | Row(id: Option<ImageId>, image: ImageValue)

  /** The body of the `post_edit` loop for row number `index`; None when the
      row raises (`Images.objects.get` finds nothing, or `data[index]` is out
      of range). */
  function ApplyEditRow(t: Table, post: PostId, index: nat, row: EditRow): (r: Option<Table>)
    requires Valid(t)
    ensures r.Some? ==> Valid(r.value)
    // a row with empty cleaned data changes nothing
    ensures row.Empty? ==> r == Some(t)
    // no id: a new image for the post
    ensures row.Row? && row.id.None? ==>
      r.Some? && t.next !in t.rows && r.value.rows.Keys == t.rows.Keys + {t.next}
      && r.value.rows[t.next] == Image(post, row.image)
      && (forall other :: other in t.rows ==> r.value.rows[other] == t.rows[other])
      && PostImages(r.value, post) == PostImages(t, post) + [t.next]
      && (forall p :: p != post ==> PostImages(r.value, p) == PostImages(t, p))
    // image cleared: the image the row names is deleted, or the row raises
    ensures row.Row? && row.id.Some? && row.image.Cleared? ==>
      (r.Some? <==> row.id.value in t.rows)
      && (r.Some? ==>
            r.value.rows.Keys == t.rows.Keys - {row.id.value}
            && (forall other :: other in r.value.rows ==> r.value.rows[other] == t.rows[other])
            && forall p :: PostImages(r.value, p) == Without(PostImages(t, p), row.id.value))
    // otherwise: the index-th image of the post's current query is overwritten
    ensures row.Row? && row.id.Some? && row.image.File? ==>
      (r.Some? <==> index < |PostImages(t, post)|)
      && (r.Some? ==>
            var target := PostImages(t, post)[index];
            r.value.rows.Keys == t.rows.Keys
            && r.value.rows[target] == Image(post, row.image)
            && (forall other :: other in t.rows && other != target ==> r.value.rows[other] == t.rows[other])
            && forall p :: PostImages(r.value, p) == PostImages(t, p))
  {
    match row
    case Empty => Some(t)
    case Row(None, img) =>
      assert forall p :: PostImages(Insert(t, post, img), p) == PostImages(t, p) + (if p == post then [t.next] else []) by {
        forall p { InsertQuery(t, post, img, p); }
      }
      Some(Insert(t, post, img))
    case Row(Some(id), Cleared) =>
      if id in t.rows then Some(Delete(t, id)) else None
    case Row(Some(_), File(name)) =>
      var data := PostImages(t, post);
      if index < |data| then Some(Overwrite(t, data[index], File(name))) else None
  }

  /** The state the loop leaves, and whether a row raised and ended it. */
  datatype EditOutcome = EditOutcome(table: Table, failed: bool)

  /** The loop of `post_edit` from row `i` on. */
  function EditRows(t: Table, post: PostId, rows: seq<EditRow>, i: nat): (o: EditOutcome)
    requires Valid(t) && i <= |rows|
    ensures Valid(o.table)
    decreases |rows| - i
  {
    if i == |rows| then EditOutcome(t, false)
    else match ApplyEditRow(t, post, i, rows[i])
      case None => EditOutcome(t, true)
      case Some(t') => EditRows(t', post, rows, i + 1)
  }

  /** Rows with empty cleaned data change nothing: a formset of only such
      rows leaves the table as it was. */
  lemma {:induction false} EmptyRowsKeepTable(t: Table, post: PostId, rows: seq<EditRow>, i: nat)
    requires Valid(t) && i <= |rows|
    requires forall k :: i <= k < |rows| ==> rows[k].Empty?
    ensures EditRows(t, post, rows, i) == EditOutcome(t, false)
    decreases |rows| - i
  {
    if i < |rows| {
      EmptyRowsKeepTable(t, post, rows, i + 1);
    }
  }

  /** The loop runs its rows in order and stops at the first row that
      raises: running rows `i` to `k - 1` and then, unless one of them
      raised, the rest from `k` on is the same as running all of them. */
  lemma {:induction false} EditRowsSplit(t: Table, post: PostId, rows: seq<EditRow>, i: nat, k: nat)
    requires Valid(t) && i <= k <= |rows|
    ensures var p := EditRows(t, post, rows[..k], i);
      EditRows(t, post, rows, i) == if p.failed then p else EditRows(p.table, post, rows, k)
    decreases k - i
  {
    if i < k {
      assert rows[..k][i] == rows[i];
      match ApplyEditRow(t, post, i, rows[i])
      case None =>
      case Some(t') =>
        EditRowsSplit(t', post, rows, i + 1, k);
    }
  }

  /** Row `k` raises on the table the rows from `i` up to it left behind. */
  predicate RaisesAt(t: Table, post: PostId, rows: seq<EditRow>, i: nat, k: nat)
    requires Valid(t) && i <= k < |rows|
  {
    var p := EditRows(t, post, rows[..k], i);
    !p.failed && ApplyEditRow(p.table, post, k, rows[k]).None?
  }

  /** Running the rows before `k` from row `i` on, when row `i` applies. */
  lemma EditPrefixStep(t: Table, post: PostId, rows: seq<EditRow>, i: nat, k: nat, t': Table)
    requires Valid(t) && i < k <= |rows|
    requires ApplyEditRow(t, post, i, rows[i]) == Some(t')
    ensures EditRows(t, post, rows[..k], i) == EditRows(t', post, rows[..k], i + 1)
  {
    assert rows[..k][i] == rows[i];
  }

  /** The loop fails exactly when some row raises on the table the earlier
      rows left, and then the table is the one those earlier rows left. */
  lemma {:induction false} EditRowsFailIff(t: Table, post: PostId, rows: seq<EditRow>, i: nat)
    requires Valid(t) && i <= |rows|
    ensures EditRows(t, post, rows, i).failed <==> exists k :: i <= k < |rows| && RaisesAt(t, post, rows, i, k)
    ensures forall k :: i <= k < |rows| && RaisesAt(t, post, rows, i, k) ==>
      EditRows(t, post, rows, i) == EditOutcome(EditRows(t, post, rows[..k], i).table, true)
    decreases |rows| - i
  {
    forall k | i <= k < |rows| && RaisesAt(t, post, rows, i, k)
      ensures EditRows(t, post, rows, i) == EditOutcome(EditRows(t, post, rows[..k], i).table, true)
    {
      EditRowsSplit(t, post, rows, i, k);
    }
    if i < |rows| {
      assert EditRows(t, post, rows[..i], i) == EditOutcome(t, false);
      match ApplyEditRow(t, post, i, rows[i])
      case None =>
        assert RaisesAt(t, post, rows, i, i);
      case Some(t') =>
        EditRowsFailIff(t', post, rows, i + 1);
        forall k | i < k < |rows|
          ensures RaisesAt(t, post, rows, i, k) == RaisesAt(t', post, rows, i + 1, k)
        {
          EditPrefixStep(t, post, rows, i, k, t');
        }
        assert !RaisesAt(t, post, rows, i, i);
        if EditRows(t, post, rows, i).failed {
          var k :| i + 1 <= k < |rows| && RaisesAt(t', post, rows, i + 1, k);
          assert RaisesAt(t, post, rows, i, k);
        }
        if exists k :: i <= k < |rows| && RaisesAt(t, post, rows, i, k) {
          var k :| i <= k < |rows| && RaisesAt(t, post, rows, i, k);
          assert RaisesAt(t', post, rows, i + 1, k);
        }
    }
  }

  /** A cleared row naming the post's `k`-th image applies, and the post's
      query loses exactly that image. */
  lemma ClearedRowDropsImage(t: Table, post: PostId, k: nat, i: nat)
    requires Valid(t) && k < |PostImages(t, post)|
    ensures var q := PostImages(t, post);
            var t1 := ApplyEditRow(t, post, i, Row(Some(q[k]), Cleared));
      t1.Some? && PostImages(t1.value, post) == q[..k] + q[k + 1..]
  {
    var q := PostImages(t, post);
    assert q[k] in q;
    WithoutAt(q, k);
  }

  /** In `q` with its `k`-th element removed, position `j >= k` holds what
      stood at `j + 1`. */
  lemma DropShifts(q: seq<ImageId>, k: nat, j: nat)
    requires k <= j && k < |q|
    ensures |q[..k] + q[k + 1..]| == |q| - 1
    ensures j + 1 < |q| ==> (q[..k] + q[k + 1..])[j] == q[j + 1]
  {
  }

  /** A cleared row that removes the post's `k`-th image shifts the target
      of every later overwrite row at an index `j >= k` to the image that
      stood one place further on, whatever id that row names; an overwrite
      row at the last index now raises. */
  lemma ClearedRowShiftsOverwrite(t: Table, post: PostId, k: nat, i: nat, j: nat, named: ImageId, name: string)
    requires Valid(t) && k < |PostImages(t, post)| && k <= j
    ensures var q := PostImages(t, post);
            var t1 := ApplyEditRow(t, post, i, Row(Some(q[k]), Cleared));
      && t1.Some?
      && var t2 := ApplyEditRow(t1.value, post, j, Row(Some(named), File(name)));
      && (t2.Some? <==> j + 1 < |q|)
      && (t2.Some? ==> t2.value.rows[q[j + 1]] == Image(post, File(name)))
  {
    var q := PostImages(t, post);
    ClearedRowDropsImage(t, post, k, i);
    DropShifts(q, k, j);
  }

  /** The overwrite is positional: with the post's images 1, 2, 3 in that
      order, clearing image 1 in row 0 shifts the query, so row 1 (which
      names image 2) overwrites image 3, and row 2 (which names image 3)
      finds no third image and raises. */
  lemma OverwriteIsPositional(f: ImageValue, g: ImageValue, h: ImageValue)
    requires f.File? && g.File?
    ensures var t := Table(map[1 := Image(7, h), 2 := Image(7, h), 3 := Image(7, h)], [1, 2, 3], 4);
            var rows := [Row(Some(1), Cleared), Row(Some(2), f), Row(Some(3), g)];
            var o := EditRows(t, 7, rows, 0);
      && o.failed
      && o.table.rows == map[2 := Image(7, h), 3 := Image(7, f)]
  {
    var t := Table(map[1 := Image(7, h), 2 := Image(7, h), 3 := Image(7, h)], [1, 2, 3], 4);
    var rows := [Row(Some(1), Cleared), Row(Some(2), f), Row(Some(3), g)];
    var t1 := Table(map[2 := Image(7, h), 3 := Image(7, h)], [2, 3], 4);
    var t2 := Table(map[2 := Image(7, h), 3 := Image(7, f)], [2, 3], 4);
    LastRowRaises(h, f, rows);
    OverwriteSecond(f, h);
    assert ApplyEditRow(t1, 7, 1, rows[1]) == Some(t2);
    assert EditRows(t1, 7, rows, 1) == EditOutcome(t2, true);
    DeleteFirst(h);
    assert ApplyEditRow(t, 7, 0, rows[0]) == Some(t1);
  }

  /** A third overwrite row finds only two images of the post and raises. */
  lemma LastRowRaises(x: ImageValue, y: ImageValue, rows: seq<EditRow>)
    requires |rows| == 3 && rows[2].Row? && rows[2].id.Some? && rows[2].image.File?
    ensures var t2 := Table(map[2 := Image(7, x), 3 := Image(7, y)], [2, 3], 4);
      Valid(t2) && EditRows(t2, 7, rows, 2) == EditOutcome(t2, true)
  {
    TwoImagesTable(x, y);
  }

  /** Clearing image 1 of the three leaves images 2 and 3 in that order. */
  lemma DeleteFirst(h: ImageValue)
    ensures var t := Table(map[1 := Image(7, h), 2 := Image(7, h), 3 := Image(7, h)], [1, 2, 3], 4);
      Valid(t) && 1 in t.rows && Delete(t, 1) == Table(map[2 := Image(7, h), 3 := Image(7, h)], [2, 3], 4)
  {
    assert Without([3], 1) == [3];
    assert Without([2, 3], 1) == [2, 3];
    assert Without([1, 2, 3], 1) == [2, 3];
    var t := Table(map[1 := Image(7, h), 2 := Image(7, h), 3 := Image(7, h)], [1, 2, 3], 4);
    assert t.rows - {1} == map[2 := Image(7, h), 3 := Image(7, h)];
  }

  /** The table left after clearing image 1: images 2 and 3 of post 7. */
  lemma TwoImagesTable(x: ImageValue, y: ImageValue)
    ensures var t := Table(map[2 := Image(7, x), 3 := Image(7, y)], [2, 3], 4);
      Valid(t) && PostImages(t, 7) == [2, 3]
  {
    var t := Table(map[2 := Image(7, x), 3 := Image(7, y)], [2, 3], 4);
    assert [2, 3][1..] == [3] && [3][1..] == [];
    assert Query(t.rows, [3], 7) == [3];
  }

  /** Overwriting the second image of the post's query. */
  lemma OverwriteSecond(f: ImageValue, h: ImageValue)
    ensures var t1 := Table(map[2 := Image(7, h), 3 := Image(7, h)], [2, 3], 4);
      Valid(t1) && PostImages(t1, 7) == [2, 3]
      && Overwrite(t1, 3, f) == Table(map[2 := Image(7, h), 3 := Image(7, f)], [2, 3], 4)
  {
    TwoImagesTable(h, h);
    var m := map[2 := Image(7, h), 3 := Image(7, h)];
    assert m[3 := m[3].(image := f)] == map[2 := Image(7, h), 3 := Image(7, f)];
  }

  /** The cleared row's id is looked up among all images, not only the
      edited post's: editing post 7 can delete an image of post 8. */
  lemma ClearedRowDeletesAnyImage(h: ImageValue)
    ensures var t := Table(map[1 := Image(8, h)], [1], 2);
            var o := EditRows(t, 7, [Row(Some(1), Cleared)], 0);
      && !o.failed && o.table.rows == map[]
  {
  }
}
