/**
 * The arithmetic behind both listings: `parseInt(q) || fallback` for query
 * parameters, `Array.prototype.slice` for the page window and
 * `Math.ceil(total / limit)` for the page count.
 */
module Pagination {
  import opened Wrappers

  /** `parseInt(q) || fallback`: `None` stands for a missing or non-numeric parameter
      (NaN); 0 is falsy and falls back as well. A negative number passes through. */
  function QueryInt(parsed: Option<int>, fallback: int): (v: int)
    ensures v == 0 ==> fallback == 0
  {
    if parsed.Some? && parsed.value != 0 then parsed.value else fallback
  }

  function Min(a: int, b: int): int { if a <= b then a else b }
  function Max(a: int, b: int): int { if a >= b then a else b }

  /** How `slice` turns a relative index into a position: negative counts from the end,
      and the result is clamped to `0..len`. */
  function ClampIndex(k: int, len: nat): (r: nat)
    ensures r <= len
    ensures 0 <= k <= len ==> r == k
  {
    if k < 0 then Max(len + k, 0) else Min(k, len)
  }

  /** `s.slice(start, end)`. */
  function Slice<T>(s: seq<T>, start: int, end: int): seq<T>
  {
    var from, to := ClampIndex(start, |s|), ClampIndex(end, |s|);
    if from < to then s[from..to] else []
  }

  /** Every element of a slice is an element of the sequence it was cut from. */
  lemma SliceMembers<T>(s: seq<T>, start: int, end: int)
    ensures forall x :: x in Slice(s, start, end) ==> x in s
  {
  }

  /** For a window starting at a non-negative offset, `slice(skip, skip + limit)` holds the
      elements at positions `skip`, `skip + 1`, ... that exist, at most `limit` of them. */
  lemma SliceWindow<T>(s: seq<T>, skip: int, limit: int)
    requires skip >= 0 && limit >= 0
    ensures var w := Slice(s, skip, skip + limit);
      && |w| == Min(limit, Max(0, |s| - skip))
      && forall k :: 0 <= k < |w| ==> w[k] == s[skip + k]
  {
  }

  /** The size of such a window alone, for a sequence of `n` elements. */
  lemma SliceWindowSize<T>(s: seq<T>, n: nat, skip: int, limit: int, w: seq<T>)
    requires skip >= 0 && limit >= 0 && |s| == n && w == Slice(s, skip, skip + limit)
    ensures |w| == Min(limit, Max(0, n - skip))
  {
  }

  /** The `k`-th element of such a window, one position at a time. */
  lemma SliceWindowAt<T>(s: seq<T>, skip: int, limit: int, w: seq<T>, k: int)
    requires skip >= 0 && limit >= 0 && w == Slice(s, skip, skip + limit) && 0 <= k < |w|
    ensures skip + k < |s| && w[k] == s[skip + k]
  {
  }

  /** `Math.ceil(n / d)` for a count `n` and a non-zero divisor. */
  function CeilDiv(n: nat, d: int): (r: int)
    requires d != 0
    ensures d > 0 ==> r >= 0 && r * d >= n && (r - 1) * d < n
    ensures d < 0 ==> r <= 0 && r * d <= n && (r - 1) * d > n
  {
    if d > 0 then
      var q := n / d;
      if q * d == n then q else q + 1
    else
      var q := n / (-d);
      assert q * (-d) <= n < (q + 1) * (-d);
      -q
  }

  /** Offset of the first comment of `page`: `skip = (page - 1) * limit`. */
  function PageOffset(page: int, limit: int): (skip: int)
    ensures page >= 1 && limit >= 0 ==> skip >= 0
  {
    MulNonNegative(page - 1, limit);
    (page - 1) * limit
  }

  lemma MulNonNegative(a: int, b: int)
    ensures a >= 0 && b >= 0 ==> a * b >= 0
  {
    if a >= 0 && b >= 0 {
      MulMonotone(0, a, b);
    }
  }

  /** The `pagination` object of the root listing. */
  datatype PageInfo = PageInfo(
    page: int,
    limit: int,
    total: nat,
    pages: int,
    hasNextPage: bool,
    hasPrevPage: bool)

  function RootPageInfo(page: int, limit: int, total: nat): PageInfo
    requires limit != 0
  {
    var pages := CeilDiv(total, limit);
    PageInfo(page, limit, total, pages, page < pages, page > 1)
  }

  /** With a positive limit, `pages` is the least number of pages that holds every root
      comment, there is a next page exactly when this page ends before the last comment,
      and a previous page exactly when this is not the first page. */
  lemma RootPageInfoMeaning(page: int, limit: int, total: nat)
    requires limit >= 1
    ensures var info := RootPageInfo(page, limit, total);
      && info.pages * limit >= total && (info.pages - 1) * limit < total
      && (info.hasNextPage <==> page * limit < total)
      && (info.hasPrevPage <==> page > 1)
      && (total == 0 ==> info.pages == 0)
  {
    var pages := CeilDiv(total, limit);
    if page < pages {
      MulMonotone(page, pages - 1, limit);
    } else {
      MulMonotone(pages, page, limit);
    }
    if total == 0 && pages >= 1 {
      MulMonotone(0, pages - 1, limit);
    }
  }

  lemma MulMonotone(a: int, b: int, c: int)
    requires a <= b && c >= 0
    ensures a * c <= b * c
  {
    assert b * c - a * c == (b - a) * c;
  }

  /** The `pagination` object of a reply listing; `page` is only echoed back. */
  datatype ReplyInfo = ReplyInfo(
    page: int,
    limit: int,
    skip: int,
    total: nat,
    hasMore: bool)

  function ReplyPageInfo(page: int, limit: int, skip: int, total: nat): ReplyInfo
  {
    ReplyInfo(page, limit, skip, total, skip + limit < total)
  }
}
