/** LIMIT/OFFSET slices and the pagination metadata that describes them. */
module Paging {
  import opened Basics

  /** The rows LIMIT and OFFSET leave. */
  function Slice<T>(rows: seq<T>, limit: nat, offset: nat): seq<T>
  {
    rows[Min(offset, |rows|)..Min(offset + limit, |rows|)]
  }

  datatype Meta = Meta(page: int, perPage: int, total: nat, totalPages: int)

  function Abs(a: int): nat { if a < 0 then -a else a }

  /** Go's integer division and remainder: the quotient is truncated, the remainder has the sign of the
      dividend. */
  function Quotient(a: int, b: int): int
    requires b != 0
  {
    var q := Abs(a) / Abs(b);
    if (a < 0) == (b < 0) then q else -q
  }

  function Remainder(a: int, b: int): int
    requires b != 0
  {
    var r := Abs(a) % Abs(b);
    if a < 0 then -r else r
  }

  lemma Divided(a: nat, b: nat)
    requires b > 0
    ensures a == a / b * b + a % b && 0 <= a % b < b && a / b >= 0
  {
  }

  lemma QuotientAndRemainder(a: int, b: int)
    requires b != 0
    ensures a == Quotient(a, b) * b + Remainder(a, b)
    ensures Abs(Remainder(a, b)) < Abs(b) && (a > 0 ==> Remainder(a, b) >= 0) && (a < 0 ==> Remainder(a, b) <= 0)
  {
    var q, n := Abs(a) / Abs(b), Abs(b);
    Divided(Abs(a), n);
    Signs(q, n);
  }

  lemma Signs(q: int, n: int)
    ensures (-q) * n == -(q * n) && q * (-n) == -(q * n) && (-q) * (-n) == q * n
  {
  }

  /** Division by zero is the one thing the caller has to rule out; the limits the handlers pass on may be
      negative. The page count is at least one exactly for positive sizes and for negative ones that the
      total does not reach, or exceeds by less than as much again. */
  method Paginated(page: int, perPage: int, total: nat) returns (meta: Meta)
    requires perPage != 0
    ensures meta.page == page && meta.perPage == perPage && meta.total == total
    ensures meta.totalPages >= 1 <==> perPage > 0 || (total < -2 * perPage && total != -perPage)
    ensures perPage > 0 ==> (meta.totalPages - 1) * perPage < Max(1, total) <= meta.totalPages * perPage
    ensures perPage > 0 ==> meta.totalPages == TotalPages(perPage, total)
  {
    var totalPages := Quotient(total, perPage);
    if Remainder(total, perPage) > 0 {
      totalPages := totalPages + 1;
    }
    if totalPages == 0 {
      totalPages := 1;
    }
    if perPage > 0 {
      TotalPagesBounds(perPage, total);
    } else {
      var m: nat := -perPage;
      NegativeSize(m, total);
    }
    return Meta(page, perPage, total, totalPages);
  }

  lemma NegativeSize(m: nat, total: nat)
    requires m > 0
    ensures total / m == 0 <==> total < m
    ensures total / m <= 1 <==> total < 2 * m
    ensures total < 2 * m ==> (total % m == 0 <==> total == 0 || total == m)
  {
    var q := total / m;
    Divided(total, m);
    if q >= 2 {
      Monotone(2, q, m);
    } else if q == 1 {
      assert q * m == m;
    } else {
      assert q * m == 0;
    }
  }

  function TotalPages(perPage: nat, total: nat): nat
    requires perPage > 0
  {
    var full := total / perPage;
    Max(1, if total % perPage > 0 then full + 1 else full)
  }

  /** The page count is the one number of pages that is enough and none of which is superfluous. */
  lemma TotalPagesBounds(perPage: nat, total: nat)
    requires perPage > 0
    ensures var pages := TotalPages(perPage, total);
            pages >= 1 && (pages - 1) * perPage < Max(1, total) <= pages * perPage
  {
    var full, left := total / perPage, total % perPage;
    assert total == full * perPage + left;
    assert (full + 1) * perPage == full * perPage + perPage;
    if full == 0 {
      assert full * perPage == 0;
    } else if left == 0 {
      assert (full - 1) * perPage == full * perPage - perPage;
      assert full * perPage >= perPage by { Monotone(1, full, perPage); }
    } else {
      assert full * perPage >= perPage by { Monotone(1, full, perPage); }
    }
  }

  lemma Monotone(a: nat, b: nat, m: nat)
    requires a <= b
    ensures a * m <= b * m
  {
    assert (b - a) * m >= 0;
    assert b * m == a * m + (b - a) * m;
  }

  /** The first `n` pages, one after the other. */
  function Pages<T>(rows: seq<T>, limit: nat, n: nat): seq<T>
  {
    if n == 0 then [] else Pages(rows, limit, n - 1) + Slice(rows, limit, (n - 1) * limit)
  }

  lemma {:induction false} PagesArePrefix<T>(rows: seq<T>, limit: nat, n: nat)
    ensures Pages(rows, limit, n) == rows[..Min(n * limit, |rows|)]
  {
    if n > 0 {
      PagesArePrefix(rows, limit, n - 1);
      assert n * limit == (n - 1) * limit + limit;
      var a, b := Min((n - 1) * limit, |rows|), Min(n * limit, |rows|);
      assert rows[..b] == rows[..a] + rows[a..b];
    }
  }

  /** Reading all pages yields every row once and in order. */
  lemma PagesPartition<T>(rows: seq<T>, limit: nat)
    requires limit > 0
    ensures Pages(rows, limit, TotalPages(limit, |rows|)) == rows
  {
    var n := TotalPages(limit, |rows|);
    TotalPagesBounds(limit, |rows|);
    PagesArePrefix(rows, limit, n);
    assert rows[..|rows|] == rows;
  }

  lemma WithinPage(start: int, left: int, limit: int, offset: int)
    requires limit != 0 && offset == start + left && Abs(left) < Abs(limit)
    requires (offset > 0 ==> left >= 0) && (offset < 0 ==> left <= 0) && (offset == 0 ==> left == 0)
    ensures start <= offset < start + limit <==> limit > 0 && (offset >= 0 || left == 0)
  {
  }

  /** The page number the handlers report for an offset. */
  function PageOf(offset: int, limit: int): int
    requires limit != 0
  {
    Quotient(offset, limit) + 1
  }

  lemma NextStart(q: int, limit: int)
    ensures (q + 1) * limit == q * limit + limit
  {
  }

  lemma ZeroRemainder(limit: int)
    requires limit != 0
    ensures Remainder(0, limit) == 0
  {
  }

  /** It is the page holding the row at the offset exactly for a positive limit and an offset that is not
      negative or is a multiple of it. */
  lemma ReportedPageHoldsOffset(offset: int, limit: int)
    requires limit != 0
    ensures (PageOf(offset, limit) - 1) * limit <= offset < PageOf(offset, limit) * limit <==>
            limit > 0 && (offset >= 0 || Remainder(offset, limit) == 0)
  {
    var q := Quotient(offset, limit);
    QuotientAndRemainder(offset, limit);
    NextStart(q, limit);
    ZeroRemainder(limit);
    WithinPage(q * limit, Remainder(offset, limit), limit, offset);
  }

  lemma CountedPage(offset: nat, limit: nat, total: nat)
    requires limit > 0 && offset < total
    ensures offset / limit + 1 <= TotalPages(limit, total)
  {
    var q, pages := offset / limit, TotalPages(limit, total);
    Divided(offset, limit);
    TotalPagesBounds(limit, total);
    if q >= pages {
      Monotone(pages, q, limit);
    }
  }

  lemma PlainPage(offset: nat, limit: nat)
    requires limit > 0
    ensures PageOf(offset, limit) == offset / limit + 1
  {
  }

  /** For an offset inside the list it is one of the counted pages. */
  lemma ReportedPageIsCounted(offset: nat, limit: nat, total: nat)
    requires limit > 0 && offset < total
    ensures 1 <= PageOf(offset, limit) <= TotalPages(limit, total)
  {
    PlainPage(offset, limit);
    Divided(offset, limit);
    CountedPage(offset, limit, total);
  }
}
