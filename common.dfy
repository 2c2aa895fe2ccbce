/** Values shared by the bookmark and the account handlers: an optional
    value, the HTTP statuses the handlers answer with, and the store's
    "first row that matches a filter" query. */
module Common {

  datatype Option<+T> = None | Some(value: T)

  /** The statuses the handlers return. NoResponse marks a create request
      whose outcome the model leaves open: the short-code allocator has found
      no free code when the draws supplied to the model run out. The real
      allocator would keep drawing, and would fail with a server error once
      its recursion passes the interpreter's depth limit. */
  datatype Status =
    | Ok200
    | Created201
    | NoContent204
    | BadRequest400
    | Unauthorized401
    | NotFound404
    | Conflict409
    | NoResponse

  /** `query.filter_by(...).first()`: the position of the first row, in table
      order, that satisfies the filter, or None when no row does. */
  function FirstWhere<T>(rows: seq<T>, matches: T -> bool): (r: Option<nat>)
    ensures r.Some? ==> r.value < |rows| && matches(rows[r.value])
    ensures r.Some? ==> forall j :: 0 <= j < r.value ==> !matches(rows[j])
    ensures r.None? <==> forall j :: 0 <= j < |rows| ==> !matches(rows[j])
  {
    if rows == [] then None
    else if matches(rows[0]) then Some(0)
    else match FirstWhere(rows[1..], matches)
      case None => None
      case Some(k) => Some(k + 1)
  }
}
