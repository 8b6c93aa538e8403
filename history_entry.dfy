/**
 * What the history keeps of one exchange: the request as sent, the
 * response or error it got, tags and metadata. Entries live inside the
 * logger's list and are updated there, so each update is a function from
 * the entry to the updated entry.
 *
 * Ids are chosen by the caller (random UUIDs in the program); timestamps
 * are not part of this model.
 */
module HistoryEntries {
  import opened Wrappers
  import Text
  import Utf8

  datatype RequestLog = RequestLog(
    httpMethod: string,
    url: string,
    originalUrl: Option<string>,
    headers: map<string, string>,
    queryParams: map<string, string>,
    body: Option<string>,
    bodySize: Option<nat>)

  datatype ResponseLog = ResponseLog(
    statusCode: nat,
    statusText: string,
    headers: map<string, string>,
    body: Option<string>,
    bodySize: nat,
    contentType: Option<string>,
    isSuccess: bool,
    isError: bool,
    errorMessage: Option<string>)

  datatype HistoryEntry = HistoryEntry(
    id: nat,
    request: RequestLog,
    response: Option<ResponseLog>,
    durationMs: Option<nat>,
    collectionId: Option<nat>,
    environmentId: Option<nat>,
    tags: seq<string>,
    metadata: map<string, string>)

  /** `HistoryEntry::new`: no response, duration, collection, environment, tags or metadata. */
  function NewEntry(id: nat, request: RequestLog): (e: HistoryEntry)
    ensures e.id == id && e.request == request && e.response.None? && e.durationMs.None?
    ensures e.collectionId.None? && e.environmentId.None? && e.tags == [] && e.metadata == map[]
  {
    HistoryEntry(id, request, None, None, None, None, [], map[])
  }

  /** `set_response`: the response and the duration, nothing else. */
  function SetResponse(e: HistoryEntry, resp: ResponseLog, ms: nat): (r: HistoryEntry)
    ensures r.response == Some(resp) && r.durationMs == Some(ms)
    ensures r.(response := e.response, durationMs := e.durationMs) == e
  {
    e.(response := Some(resp), durationMs := Some(ms))
  }

  /** `is_successful`: false while there is no response. */
  function IsSuccessful(e: HistoryEntry): (b: bool)
    ensures b <==> e.response.Some? && e.response.value.isSuccess
  {
    match e.response
    case None => false
    case Some(r) => r.isSuccess
  }

  /** `has_error`: false while there is no response. */
  function HasError(e: HistoryEntry): (b: bool)
    ensures b <==> e.response.Some? && e.response.value.isError
  {
    match e.response
    case None => false
    case Some(r) => r.isError
  }

  /** No tag occurs twice. */
  predicate DistinctTags(tags: seq<string>) {
    forall i, j :: 0 <= i < j < |tags| ==> tags[i] != tags[j]
  }

  /** `add_tag`: appended unless already there. */
  function AddTag(e: HistoryEntry, tag: string): (r: HistoryEntry)
    ensures tag in r.tags && r.(tags := e.tags) == e
    ensures tag in e.tags ==> r.tags == e.tags
    ensures tag !in e.tags ==> r.tags == e.tags + [tag]
  {
    if tag in e.tags then e else e.(tags := e.tags + [tag])
  }

  /** Adding a tag twice is adding it once. */
  lemma AddTagIdempotent(e: HistoryEntry, tag: string)
    ensures AddTag(AddTag(e, tag), tag) == AddTag(e, tag)
  {
  }

  /** Tags added only through `add_tag` never repeat. */
  lemma AddTagKeepsDistinct(e: HistoryEntry, tag: string)
    requires DistinctTags(e.tags)
    ensures DistinctTags(AddTag(e, tag).tags)
  {
    if tag !in e.tags {
      var ts := e.tags + [tag];
      forall i, j | 0 <= i < j < |ts|
        ensures ts[i] != ts[j]
      {
        if j == |e.tags| {
          assert ts[i] == e.tags[i];
        }
      }
    }
  }

  /** `set_metadata`: the last write for a key wins. */
  function SetMetadata(e: HistoryEntry, key: string, value: string): (r: HistoryEntry)
    ensures key in r.metadata && r.metadata[key] == value
    ensures forall k :: k in e.metadata && k != key ==> k in r.metadata && r.metadata[k] == e.metadata[k]
    ensures r.(metadata := e.metadata) == e
  {
    e.(metadata := e.metadata[key := value])
  }

  /** `summary`: "<method> <url> - <status> <text>", or "Pending" without a response. */
  function Summary(e: HistoryEntry): (s: string)
    ensures Text.StripPrefix(s, e.request.httpMethod + " " + e.request.url + " - ")
      == Some(if e.response.None? then "Pending"
              else Text.NatToString(e.response.value.statusCode) + " " + e.response.value.statusText)
  {
    var head := e.request.httpMethod + " " + e.request.url + " - ";
    var status := match e.response
      case None => "Pending"
      case Some(r) => Text.NatToString(r.statusCode) + " " + r.statusText;
    var s := head + status;
    assert s[..|head|] == head && s[|head|..] == status;
    s
  }

  /** `RequestLog::new`: no original URL, headers, query items or body. */
  function NewRequestLog(m: string, url: string): (r: RequestLog)
    ensures r.httpMethod == m && r.url == url && r.originalUrl.None?
    ensures r.headers == map[] && r.queryParams == map[] && r.body.None? && r.bodySize.None?
  {
    RequestLog(m, url, None, map[], map[], None, None)
  }

  /** `calculate_body_size`: the body's length in UTF-8 bytes when there is a body; otherwise nothing changes. */
  function CalculateBodySize(r: RequestLog): (q: RequestLog)
    ensures r.body.None? ==> q == r
    ensures r.body.Some? ==> q.bodySize == Some(Utf8.Len(r.body.value))
    ensures q.(bodySize := r.bodySize) == r
  {
    if r.body.Some? then r.(bodySize := Some(Utf8.Len(r.body.value))) else r
  }

  /** `ResponseLog::new`: success exactly for 2xx, error exactly from 400 up; no headers, body or message. */
  function NewResponseLog(code: nat, text: string): (r: ResponseLog)
    ensures r.statusCode == code && r.statusText == text
    ensures r.isSuccess <==> 200 <= code < 300
    ensures r.isError <==> code >= 400
    ensures r.headers == map[] && r.body.None? && r.bodySize == 0 && r.contentType.None? && r.errorMessage.None?
  {
    ResponseLog(code, text, map[], None, 0, None, 200 <= code < 300, code >= 400, None)
  }

  /** A 2xx response log is never an error one. */
  lemma SuccessIsNotError(code: nat, text: string)
    ensures !(NewResponseLog(code, text).isSuccess && NewResponseLog(code, text).isError)
  {
  }

  /** `set_body`: the body and its length in UTF-8 bytes. */
  function SetBody(r: ResponseLog, body: string): (q: ResponseLog)
    ensures q.body == Some(body) && q.bodySize == Utf8.Len(body)
    ensures q.(body := r.body, bodySize := r.bodySize) == r
  {
    r.(body := Some(body), bodySize := Utf8.Len(body))
  }

  /** `set_error`: marks an error and keeps the message; the status stays. */
  function SetError(r: ResponseLog, error: string): (q: ResponseLog)
    ensures q.isError && q.errorMessage == Some(error) && q.statusCode == r.statusCode
    ensures q.(isError := r.isError, errorMessage := r.errorMessage) == r
  {
    r.(isError := true, errorMessage := Some(error))
  }
}
