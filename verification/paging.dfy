/** The page arithmetic of the user and server listings: Python's floor
    division and the ceiling-division page count built on it. */
module Paging {
  import opened Results

  /** Python's `a // b`: the quotient rounded toward negative infinity. */
  function FloorDiv(a: int, b: int): (q: int)
    requires b != 0
    ensures b > 0 ==> b * q <= a < b * q + b
    ensures b < 0 ==> b * q >= a > b * q + b
  {
    if b > 0 then a / b else (-a) / (-b)
  }

  /** `(total + limit - 1) // limit`; a zero limit raises. */
  function PageCount(total: nat, limit: int): (r: Result<int, Error>)
    ensures r.Failure? <==> limit == 0
    ensures r.Failure? ==> r.error == ZeroDivision
  {
    if limit == 0 then Failure(ZeroDivision) else Success(FloorDiv(total + limit - 1, limit))
  }

  /** For a positive limit the page count is the ceiling of total / limit:
      the fewest pages of `limit` items that hold `total` items. */
  lemma PageCountIsCeiling(total: nat, limit: int)
    requires limit > 0
    ensures PageCount(total, limit).Success?
    ensures var pages := PageCount(total, limit).value;
            0 <= pages && (pages - 1) * limit < total <= pages * limit
  {
    var pages := PageCount(total, limit).value;
    assert limit * pages <= total + limit - 1 < limit * pages + limit;
    assert (pages - 1) * limit == limit * pages - limit;
    assert pages * limit == limit * pages;
  }

  lemma MulMonotone(a: int, b: int, c: int)
    requires a <= b && 0 < c
    ensures a * c <= b * c
  {
    assert b * c - a * c == (b - a) * c;
  }

  /** The ceiling is the only page count with that property. */
  lemma CeilingUnique(total: nat, limit: int, p: int, q: int)
    requires limit > 0
    requires (p - 1) * limit < total <= p * limit
    requires (q - 1) * limit < total <= q * limit
    ensures p == q
  {
    if p < q {
      MulMonotone(p, q - 1, limit);
    } else if q < p {
      MulMonotone(q, p - 1, limit);
    }
  }

  /** The metadata a paginated listing reports next to its page of rows. */
  datatype PageInfo = PageInfo(page: int, limit: int, total: nat, totalPages: int)

  /** The listing of src/controller/controller.py: no clamp on `limit`. */
  function Listing(total: nat, limit: int, page: int): (r: Result<PageInfo, Error>)
    ensures r.Failure? <==> limit == 0
    ensures r.Success? ==> r.value.page == page && r.value.limit == limit && r.value.total == total
  {
    match PageCount(total, limit)
    case Failure(e) => Failure(e)
    case Success(pages) => Success(PageInfo(page, limit, total, pages))
  }

  /** The listing of src/controller/user.py: a limit of zero or below is
      replaced by 5 first. */
  function ClampedListing(total: nat, limit: int, page: int): (r: Result<PageInfo, Error>)
    ensures r.Success?
    ensures r.value.limit == (if limit <= 0 then 5 else limit)
  {
    Listing(total, if limit <= 0 then 5 else limit, page)
  }

  /** Whatever limit it is given, the clamped listing reports a positive
      limit and the ceiling of total over that limit. */
  lemma ClampedListingPages(total: nat, limit: int, page: int)
    ensures var info := ClampedListing(total, limit, page).value;
            && info.limit > 0 && info.total == total && info.page == page
            && 0 <= info.totalPages
            && (info.totalPages - 1) * info.limit < total <= info.totalPages * info.limit
  {
    PageCountIsCeiling(total, if limit <= 0 then 5 else limit);
  }

  /** A negative limit is not rejected by the unclamped listing: it is
      divided by like any other non-zero number. */
  lemma NegativeLimitAccepted()
    ensures Listing(0, -5, 0) == Success(PageInfo(0, -5, 0, 1))
    ensures Listing(10, -1, 0) == Success(PageInfo(0, -1, 10, -8))
  {
  }
}
