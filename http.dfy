/**
 * What the routers need from the web framework: the error a handler ends
 * with (an `HTTPException`, a request-validation failure, or an exception the
 * application does not handle), the conversion of stored rows into a response
 * model, and the page number of the list endpoints.
 *
 * Every handler runs inside the request's database session (`get_db` in
 * app/database.py), which commits when the handler returns and rolls back
 * when it raises. The handlers of this model therefore return the tables
 * after a success and the tables they were given after any error.
 */
module Http {
  import opened Wrappers
  import opened Records
  import opened Repository

  datatype HttpError = HttpError(status: nat, detail: string)

  const BadRequest: nat := 400
  const Unauthorized: nat := 401
  const Forbidden: nat := 403
  const NotFound: nat := 404
  const Unprocessable: nat := 422
  const ServerError: nat := 500

  /** A request the schema refuses (FastAPI answers 422 with the pydantic
      errors, which this model does not spell out). */
  const ValidationFailed: HttpError := HttpError(Unprocessable, "Unprocessable Entity")

  /** An exception the application does not handle: an IntegrityError from a
      flush, a ZeroDivisionError, a ValueError outside a `try`, or a response
      the response model refuses. */
  const InternalError: HttpError := HttpError(ServerError, "Internal Server Error")

  /** Row number `skip` falls on the one-based page `p` when pages hold
      `limit` rows. */
  predicate OnPage(p: int, skip: int, limit: int) {
    (p - 1) * limit <= skip < p * limit
  }

  /** `(skip // limit) + 1`: the one-based page on which row number `skip`
      falls when pages hold `limit` rows. */
  function PageNumber(skip: nat, limit: nat): (p: nat)
    requires limit >= 1
    ensures p >= 1
    ensures OnPage(p, skip, limit)
  {
    var q := skip / limit;
    assert q * limit + skip % limit == skip;
    q + 1
  }

  /** Serialising a list through a response model: every row must convert,
      otherwise the whole response fails. */
  function ConvertAll<T>(rows: seq<Row>, convert: Row -> Option<T>): (r: Option<seq<T>>)
    ensures r.Some? <==> forall k :: 0 <= k < |rows| ==> convert(rows[k]).Some?
    ensures r.Some? ==> |r.value| == |rows| && forall k :: 0 <= k < |rows| ==> Some(r.value[k]) == convert(rows[k])
  {
    if rows == [] then Some([])
    else
      var init := ConvertAll(rows[..|rows| - 1], convert);
      var last := convert(rows[|rows| - 1]);
      if init.Some? && last.Some? then Some(init.value + [last.value]) else None
  }

  /** Serialising the OFFSET/LIMIT page of `source`: None when a row of
      the page does not convert; otherwise one response per row of the page,
      as many as the page holds, the k-th from row `skip + k`. */
  function ConvertPage<T>(source: seq<Row>, skip: nat, limit: nat, convert: Row -> Option<T>): (r: Option<seq<T>>)
    ensures r.Some? <==> forall x :: x in Page(source, skip, limit) ==> convert(x).Some?
    ensures r.Some? ==> |r.value| == PageLength(|source|, skip, limit)
    ensures r.Some? ==> forall k :: 0 <= k < |r.value| ==> skip + k < |source| && convert(source[skip + k]) == Some(r.value[k])
  {
    var rows := Page(source, skip, limit);
    var views := ConvertAll(rows, convert);
    if views.Some? then
      assert forall k :: 0 <= k < |views.value| ==> rows[k] == source[skip + k];
      views
    else
      views
  }
}
