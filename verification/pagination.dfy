/**
 * Offset pagination as the list routes write it: `skip = (page - 1) * limit`,
 * `take = limit`, and `totalPages = Math.ceil(total / limit)`.
 */
module Pagination {
  import opened Wrappers

  /** The `page` and `limit` query parameters after `parseInt`; `None` when absent or empty. */
  datatype PageQuery = PageQuery(page: Option<int>, limit: Option<int>)

  function Skip(page: int, limit: int): int {
    (page - 1) * limit
  }

  /** From the first page on, the offset is never negative, and it is the size of the earlier pages. */
  lemma SkipNonNegative(page: int, limit: int)
    requires page >= 1 && limit >= 0
    ensures Skip(page, limit) >= 0
    ensures Skip(page + 1, limit) == Skip(page, limit) + limit
  {
    assert (page - 1) * limit >= 0 by {
      if page > 1 { assert (page - 1) * limit == limit * (page - 1); }
    }
  }

  /** `Math.ceil(total / limit)`: the fewest pages of `limit` rows that hold `total` rows. */
  function TotalPages(total: nat, limit: int): (n: nat)
    requires limit >= 1
    ensures n * limit >= total
    ensures n > 0 ==> (n - 1) * limit < total
  {
    var n := (total + limit - 1) / limit;
    assert n * limit <= total + limit - 1 < n * limit + limit;
    n
  }

  function Min(a: int, b: int): int {
    if a <= b then a else b
  }

  /** `findMany({ skip, take })` on rows already in order: up to `take` rows from position `skip`. */
  function Window<T>(rows: seq<T>, skip: nat, take: nat): (r: seq<T>)
    ensures |r| == if skip >= |rows| then 0 else Min(take, |rows| - skip)
    ensures forall i :: 0 <= i < |r| ==> r[i] == rows[skip + i]
  {
    if skip >= |rows| then [] else rows[skip..skip + Min(take, |rows| - skip)]
  }

  /** Page `page` (from 1) of `limit` rows. */
  function PageOf<T>(rows: seq<T>, page: int, limit: int): seq<T>
    requires page >= 1 && limit >= 1
  {
    SkipNonNegative(page, limit);
    Window(rows, Skip(page, limit), limit)
  }

  /** Pages 1 to `n`, one after the other. */
  function Pages<T>(rows: seq<T>, limit: int, n: nat): seq<T>
    requires limit >= 1
  {
    if n == 0 then [] else Pages(rows, limit, n - 1) + PageOf(rows, n, limit)
  }

  /** The first `n` pages are the first `n * limit` rows (or all of them). */
  lemma {:induction false} PagesArePrefix<T>(rows: seq<T>, limit: int, n: nat)
    requires limit >= 1
    ensures Pages(rows, limit, n) == rows[..Min(n * limit, |rows|)]
  {
    if n > 0 {
      PagesArePrefix(rows, limit, n - 1);
      SkipNonNegative(n, limit);
      assert Skip(n, limit) == (n - 1) * limit;
      assert n * limit == (n - 1) * limit + limit;
    }
  }

  /** Reading pages 1 to `totalPages` returns every row exactly once, in order. */
  lemma PagesCoverAll<T>(rows: seq<T>, limit: int)
    requires limit >= 1
    ensures Pages(rows, limit, TotalPages(|rows|, limit)) == rows
  {
    PagesArePrefix(rows, limit, TotalPages(|rows|, limit));
  }

  lemma MulMonotone(a: int, b: int, c: int)
    requires a <= b && c >= 0
    ensures a * c <= b * c
  {
    assert b * c - a * c == (b - a) * c;
  }

  /** Every page up to `totalPages` holds a row; every later page is empty. */
  lemma PageEmptyIffBeyondLast<T>(rows: seq<T>, page: int, limit: int)
    requires page >= 1 && limit >= 1
    ensures |PageOf(rows, page, limit)| == 0 <==> page > TotalPages(|rows|, limit)
  {
    var n := TotalPages(|rows|, limit);
    var skip := Skip(page, limit);
    SkipNonNegative(page, limit);
    assert |PageOf(rows, page, limit)| == 0 <==> skip >= |rows|;
    if page > n {
      MulMonotone(n, page - 1, limit);
    } else {
      MulMonotone(page - 1, n - 1, limit);
    }
  }
}
