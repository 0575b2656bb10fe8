/** The table plumbing shared by frontend/src/Books.tsx and
    frontend/src/Users.tsx: the page request a table sends for its
    pagination state, and the optimistic cache transforms the create, update
    and delete mutations apply before the request goes out. Rows are generic:
    `idOf` reads a row's `_id`. */
module TableCache {
  import opened Common
  import MemberSearch

  /** The `offset` and `limit` query parameters of a page request. */
  datatype PageRequest = PageRequest(offset: nat, limit: nat)

  /** The request for page `pageIndex` of `pageSize` rows. */
  function RequestFor(pageIndex: nat, pageSize: nat): (r: PageRequest)
    ensures r.limit == pageSize
    ensures pageIndex == 0 ==> r.offset == 0
    ensures pageIndex > 0 ==> r.offset == RequestFor(pageIndex - 1, pageSize).offset + pageSize
  {
    assert pageIndex > 0 ==> pageIndex * pageSize == (pageIndex - 1) * pageSize + pageSize;
    PageRequest(pageIndex * pageSize, pageSize)
  }

  /** With the server paging a listing by skip and limit, the rows of page
      i followed by those of page i + 1 are the listing's rows from i *
      pageSize on, two pages' worth. */
  lemma ConsecutivePagesTile<T>(listing: seq<T>, i: nat, pageSize: nat)
    requires pageSize > 0
    ensures var a := RequestFor(i, pageSize);
            var b := RequestFor(i + 1, pageSize);
      MemberSearch.Page(listing, a.offset, a.limit) + MemberSearch.Page(listing, b.offset, b.limit)
        == MemberSearch.Page(listing, i * pageSize, 2 * pageSize)
  {
    MemberSearch.PagesTile(listing, i, pageSize);
  }

  /** Every row of the listing is shown on page j / pageSize, at row
      j % pageSize. */
  lemma EveryRowHasAPage<T>(listing: seq<T>, pageSize: nat, j: nat)
    requires pageSize > 0 && j < |listing|
    ensures var req := RequestFor(j / pageSize, pageSize);
      j % pageSize < |MemberSearch.Page(listing, req.offset, req.limit)|
      && MemberSearch.Page(listing, req.offset, req.limit)[j % pageSize] == listing[j]
  {
    MemberSearch.PageHoldsPosition(listing, pageSize, j);
  }

  // ---------------------------------------------------------------------
  // Optimistic cache transforms

  /** What the create transform leaves: the new cache entry, or the
      TypeError of spreading an absent entry. */
  datatype Outcome<T> = Entry(rows: seq<T>) | TypeError

  /** `[...prev, { ...row }]` */
  function AppendRow<T>(prev: Option<seq<T>>, row: T): (r: Outcome<T>)
    ensures r.TypeError? <==> prev.None?
    ensures r.Entry? ==>
      |r.rows| == |prev.value| + 1 && r.rows[..|prev.value|] == prev.value && r.rows[|prev.value|] == row
  {
    match prev
    case None => TypeError
    case Some(rows) => Entry(rows + [row])
  }

  /** `rows.map(r => r._id === row._id ? row : r)` */
  function ReplaceRows<T>(rows: seq<T>, row: T, idOf: T -> string): (r: seq<T>)
    ensures |r| == |rows|
    ensures forall k :: 0 <= k < |rows| ==>
      r[k] == (if idOf(rows[k]) == idOf(row) then row else rows[k])
  {
    if rows == [] then []
    else [if idOf(rows[0]) == idOf(row) then row else rows[0]] + ReplaceRows(rows[1..], row, idOf)
  }

  /** How many of `rows` carry the id `id`. */
  function CountWithId<T>(rows: seq<T>, id: string, idOf: T -> string): nat
  {
    if rows == [] then 0
    else (if idOf(rows[0]) == id then 1 else 0) + CountWithId(rows[1..], id, idOf)
  }

  /** `rows.filter(r => r._id !== id)` */
  function RemoveRows<T>(rows: seq<T>, id: string, idOf: T -> string): (r: seq<T>)
    ensures |r| <= |rows|
    ensures |r| == |rows| - CountWithId(rows, id, idOf)
    ensures forall k :: 0 <= k < |r| ==> idOf(r[k]) != id
    ensures forall k :: 0 <= k < |r| ==> r[k] in rows
    ensures forall k :: 0 <= k < |rows| && idOf(rows[k]) != id ==> rows[k] in r
  {
    if rows == [] then []
    else (if idOf(rows[0]) != id then [rows[0]] else []) + RemoveRows(rows[1..], id, idOf)
  }

  /** The update transform, `prev?.map(...)`: an absent entry stays absent. */
  function ReplaceCached<T>(prev: Option<seq<T>>, row: T, idOf: T -> string): (r: Option<seq<T>>)
    ensures r.Some? <==> prev.Some?
    ensures r.Some? ==> r.value == ReplaceRows(prev.value, row, idOf)
  {
    match prev
    case None => None
    case Some(rows) => Some(ReplaceRows(rows, row, idOf))
  }

  /** The delete transform, `prev?.filter(...)`: an absent entry stays
      absent. */
  function RemoveCached<T>(prev: Option<seq<T>>, id: string, idOf: T -> string): (r: Option<seq<T>>)
    ensures r.Some? <==> prev.Some?
    ensures r.Some? ==> r.value == RemoveRows(prev.value, id, idOf)
  {
    match prev
    case None => None
    case Some(rows) => Some(RemoveRows(rows, id, idOf))
  }

  /** Removal keeps the surviving rows in their order: it distributes over
      concatenation. */
  lemma {:induction false} RemoveConcat<T>(a: seq<T>, b: seq<T>, id: string, idOf: T -> string)
    ensures RemoveRows(a + b, id, idOf) == RemoveRows(a, id, idOf) + RemoveRows(b, id, idOf)
    decreases |a|
  {
    if a == [] {
      assert a + b == b;
    } else {
      assert (a + b)[1..] == a[1..] + b;
      RemoveConcat(a[1..], b, id, idOf);
    }
  }

  /** Deleting a row that was just appended leaves what deleting from the
      old rows leaves. */
  lemma AppendThenRemove<T>(rows: seq<T>, row: T, idOf: T -> string)
    ensures RemoveRows(rows + [row], idOf(row), idOf) == RemoveRows(rows, idOf(row), idOf)
  {
    RemoveConcat(rows, [row], idOf(row), idOf);
    assert RemoveRows([row], idOf(row), idOf) == [];
  }

  /** Deleting twice is deleting once. */
  lemma {:induction false} RemoveIdempotent<T>(rows: seq<T>, id: string, idOf: T -> string)
    ensures RemoveRows(RemoveRows(rows, id, idOf), id, idOf) == RemoveRows(rows, id, idOf)
    decreases |rows|
  {
    if rows != [] {
      RemoveIdempotent(rows[1..], id, idOf);
      if idOf(rows[0]) != id {
        var rest := RemoveRows(rows[1..], id, idOf);
        assert ([rows[0]] + rest)[1..] == rest;
      } else {
        assert RemoveRows(rows, id, idOf) == RemoveRows(rows[1..], id, idOf);
      }
    }
  }

  /** Deleting an id no row has changes nothing. */
  lemma {:induction false} RemoveAbsent<T>(rows: seq<T>, id: string, idOf: T -> string)
    requires forall k :: 0 <= k < |rows| ==> idOf(rows[k]) != id
    ensures RemoveRows(rows, id, idOf) == rows
    decreases |rows|
  {
    if rows != [] {
      RemoveAbsent(rows[1..], id, idOf);
      assert [rows[0]] + rows[1..] == rows;
    }
  }

  /** Updating twice with the same row is updating once. */
  lemma ReplaceIdempotent<T>(rows: seq<T>, row: T, idOf: T -> string)
    ensures ReplaceRows(ReplaceRows(rows, row, idOf), row, idOf) == ReplaceRows(rows, row, idOf)
  {
  }

  /** Deleting a row after an optimistic update of it is deleting it: the
      update touches only rows of that id. */
  lemma {:induction false} ReplaceThenRemove<T>(rows: seq<T>, row: T, idOf: T -> string)
    ensures RemoveRows(ReplaceRows(rows, row, idOf), idOf(row), idOf) == RemoveRows(rows, idOf(row), idOf)
    decreases |rows|
  {
    if rows != [] {
      var u := ReplaceRows(rows, row, idOf);
      assert u[1..] == ReplaceRows(rows[1..], row, idOf);
      ReplaceThenRemove(rows[1..], row, idOf);
    }
  }

  /** With unique ids, an update replaces at most one row and an update of
      an id not shown replaces none. */
  lemma ReplaceChangesOneRow<T>(rows: seq<T>, row: T, idOf: T -> string, k: nat)
    requires forall i, j :: 0 <= i < j < |rows| ==> idOf(rows[i]) != idOf(rows[j])
    requires k < |rows| && idOf(rows[k]) == idOf(row)
    ensures ReplaceRows(rows, row, idOf)[k] == row
    ensures forall i :: 0 <= i < |rows| && i != k ==> ReplaceRows(rows, row, idOf)[i] == rows[i]
  {
  }
}
