/**
 * `PaginationParams` (src/schemas/common.py) and the equivalent query
 * bounds that the book list route declares (src/api/v1/book.py).
 */
module Pagination {
  import opened Wrappers
  import opened Errors
  import opened Text

  const DEFAULT_LIMIT := 10
  const MAX_LIMIT := 100
  const DEFAULT_OFFSET := 0

  datatype PaginationParams = PaginationParams(limit: int, offset: int)

  /** A lower bound written `gt=bound` (exclusive) or `ge=bound` (inclusive). */
  datatype LowerBound = Gt(bound: int) | Ge(bound: int)

  predicate Above(x: int, lower: LowerBound) {
    match lower
    case Gt(b) => x > b
    case Ge(b) => x >= b
  }

  /** One integer field with a default, a lower bound and an optional upper bound (`le=`). */
  function Bounded(key: string, given: Option<int>, default: int, lower: LowerBound, upper: Option<int>)
    : (r: Result<int>)
    ensures r.Ok? <==> Above(given.GetOr(default), lower) && (upper.None? || given.GetOr(default) <= upper.value)
    ensures r.Ok? ==> r.value == given.GetOr(default)
    ensures r.Err? ==> r.error.RequestValidation? && |r.error.errors| == 1 && r.error.errors[0].loc == key
  {
    var x := given.GetOr(default);
    if !Above(x, lower) then
      var relation := if lower.Gt? then "greater than " else "greater than or equal to ";
      Err(RequestValidation([FieldError(key, "Input should be " + relation + IntToString(lower.bound))]))
    else if upper.Some? && x > upper.value then
      Err(RequestValidation([FieldError(key, "Input should be less than or equal to " + IntToString(upper.value))]))
    else
      Ok(x)
  }

  /** Some error of `errors` is located at the query parameter `loc`. */
  predicate Listed(errors: seq<FieldError>, loc: string) {
    exists i :: 0 <= i < |errors| && errors[i].loc == loc
  }

  function ErrorsIn(r: Result<int>): seq<FieldError> {
    if r.Err? && r.error.RequestValidation? then r.error.errors else []
  }

  /** With one error per failed field, each field is listed exactly when its own check failed. */
  lemma ListedPerField(limit: Result<int>, offset: Result<int>)
    requires limit.Err? ==> limit.error.RequestValidation? && |limit.error.errors| == 1
                            && limit.error.errors[0].loc == "limit"
    requires offset.Err? ==> offset.error.RequestValidation? && |offset.error.errors| == 1
                             && offset.error.errors[0].loc == "offset"
    ensures Listed(ErrorsIn(limit) + ErrorsIn(offset), "limit") <==> limit.Err?
    ensures Listed(ErrorsIn(limit) + ErrorsIn(offset), "offset") <==> offset.Err?
  {
    var errors := ErrorsIn(limit) + ErrorsIn(offset);
    if limit.Err? {
      assert errors[0].loc == "limit";
    }
    if offset.Err? {
      assert errors[|errors| - 1].loc == "offset";
    }
  }

  /**
   * Both fields are validated; the parameters are accepted exactly when both
   * fields are. On failure the errors of limit come before those of offset.
   */
  function Combine(limit: Result<int>, offset: Result<int>): (r: Result<PaginationParams>)
    ensures r.Ok? <==> limit.Ok? && offset.Ok?
    ensures r.Ok? ==> r.value == PaginationParams(limit.value, offset.value)
    ensures r.Err? ==> r.error.RequestValidation?
    ensures r.Err? ==> ErrorsIn(limit) <= r.error.errors
  {
    if limit.Ok? && offset.Ok? then Ok(PaginationParams(limit.value, offset.value))
    else Err(RequestValidation(ErrorsIn(limit) + ErrorsIn(offset)))
  }

  /** `PaginationParams(limit=…, offset=…)`: `limit` in (0, 100] with default 10, `offset` >= 0 with default 0. */
  function ValidatePagination(limit: Option<int>, offset: Option<int>): (r: Result<PaginationParams>)
    ensures r.Ok? <==> 0 < limit.GetOr(DEFAULT_LIMIT) <= MAX_LIMIT && offset.GetOr(DEFAULT_OFFSET) >= 0
    ensures r.Ok? ==> r.value == PaginationParams(limit.GetOr(DEFAULT_LIMIT), offset.GetOr(DEFAULT_OFFSET))
    ensures r.Err? ==> r.error.RequestValidation?
    ensures r.Err? ==> (Listed(r.error.errors, "limit") <==> !(0 < limit.GetOr(DEFAULT_LIMIT) <= MAX_LIMIT))
    ensures r.Err? ==> (Listed(r.error.errors, "offset") <==> offset.GetOr(DEFAULT_OFFSET) < 0)
    ensures r.Err? && !(0 < limit.GetOr(DEFAULT_LIMIT) <= MAX_LIMIT) ==> r.error.errors[0].loc == "limit"
  {
    var l := Bounded("limit", limit, DEFAULT_LIMIT, Gt(0), Some(MAX_LIMIT));
    var o := Bounded("offset", offset, DEFAULT_OFFSET, Ge(0), None);
    ListedPerField(l, o);
    Combine(l, o)
  }

  /** The book list route's `Query(10, ge=1, le=100)` and `Query(0, ge=0)`. */
  function ValidateListQuery(limit: Option<int>, offset: Option<int>): (r: Result<PaginationParams>)
    ensures r.Ok? <==> 1 <= limit.GetOr(10) <= 100 && offset.GetOr(0) >= 0
    ensures r.Ok? ==> r.value == PaginationParams(limit.GetOr(10), offset.GetOr(0))
    ensures r.Err? ==> r.error.RequestValidation?
    ensures r.Err? ==> (Listed(r.error.errors, "limit") <==> !(1 <= limit.GetOr(10) <= 100))
    ensures r.Err? ==> (Listed(r.error.errors, "offset") <==> offset.GetOr(0) < 0)
    ensures r.Err? && !(1 <= limit.GetOr(10) <= 100) ==> r.error.errors[0].loc == "limit"
  {
    var l := Bounded("limit", limit, 10, Ge(1), Some(100));
    var o := Bounded("offset", offset, 0, Ge(0), None);
    ListedPerField(l, o);
    Combine(l, o)
  }

  /** The route and the schema accept exactly the same queries and agree on the values they produce. */
  lemma RouteBoundsMatchSchema(limit: Option<int>, offset: Option<int>)
    ensures ValidateListQuery(limit, offset).Ok? <==> ValidatePagination(limit, offset).Ok?
    ensures ValidateListQuery(limit, offset).Ok? ==> ValidateListQuery(limit, offset) == ValidatePagination(limit, offset)
  {
  }

  /** With nothing supplied, a page is the first ten rows. */
  lemma DefaultsAreFirstTen()
    ensures ValidatePagination(None, None) == Ok(PaginationParams(10, 0))
  {
  }
}
