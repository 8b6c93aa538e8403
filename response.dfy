/**
 * A received HTTP response: status code, headers, body text and the time
 * the exchange took, with the status-class predicates, the colour the
 * terminal shows the status in, and the pretty-printed body.
 */
module Response {
  import opened Wrappers
  import Json

  /** A status code as the HTTP library accepts it: three digits. */
  type StatusCode = s: int | 100 <= s <= 999 witness 200

  datatype HttpResponse = HttpResponse(
    status: StatusCode,
    headers: map<string, string>,
    body: string,
    durationMs: nat)

  /** `is_success`: 2xx. */
  predicate IsSuccess(r: HttpResponse) {
    200 <= r.status <= 299
  }

  /** `is_client_error`: 4xx. */
  predicate IsClientError(r: HttpResponse) {
    400 <= r.status <= 499
  }

  /** `is_server_error`: 5xx. */
  predicate IsServerError(r: HttpResponse) {
    500 <= r.status <= 599
  }

  /** `status_color`: green for success, red for client and server errors, yellow for everything else. */
  function StatusColor(r: HttpResponse): (c: string)
    ensures c == "green" <==> r.status / 100 == 2
    ensures c == "red" <==> r.status / 100 == 4 || r.status / 100 == 5
    ensures c == "yellow" <==> r.status / 100 in {1, 3, 6, 7, 8, 9}
  {
    if IsSuccess(r) then "green"
    else if IsClientError(r) || IsServerError(r) then "red"
    else "yellow"
  }

  /** At most one of the three classes holds for a status. */
  lemma ClassesDisjoint(r: HttpResponse)
    ensures !(IsSuccess(r) && IsClientError(r))
    ensures !(IsSuccess(r) && IsServerError(r))
    ensures !(IsClientError(r) && IsServerError(r))
  {
  }

  /** `is_json`: the body parses as JSON. */
  predicate IsJson(r: HttpResponse, parse: Json.Parser) {
    parse(r.body).Ok?
  }

  /**
   * `pretty_body`: an empty body stays empty, a JSON body is re-printed with
   * two-space indentation, any other body is returned as it is.
   */
  function PrettyBody(r: HttpResponse, parse: Json.Parser): (s: string)
    ensures r.body == "" ==> s == ""
    ensures r.body != "" && IsJson(r, parse) ==> s == Json.Pretty(parse(r.body).value)
    ensures !IsJson(r, parse) ==> s == r.body
  {
    if r.body == "" then ""
    else match parse(r.body)
      case Ok(v) => Json.Pretty(v)
      case Err(_) => r.body
  }
}
