/**
 * The history logger: a list of entries, oldest first, that never holds
 * more than its maximum (1000 unless chosen otherwise); when a new request
 * would exceed it, the oldest entry is dropped. Responses and errors are
 * attached to the first entry with the given id.
 */
module HistoryLog {
  import opened Wrappers
  import Text
  import Seqs
  import Request
  import Response
  import opened HistoryEntries

  const DEFAULT_MAX_ENTRIES: nat := 1000

  /** How a request line is read into a logged map: a key and a value, or nothing. */
  type Reader = string -> Option<(string, string)>

  /** A header line is split at its first ':', both sides trimmed; a line without ':' is skipped. */
  function LogHeader(h: string): (r: Option<(string, string)>)
    ensures r.Some? <==> ':' in h
  {
    match Text.SplitOnce(h, ':')
    case None => None
    case Some((k, v)) => Some((Text.Trim(k), Text.Trim(v)))
  }

  /** A query item is split at its first '=', nothing trimmed; an item without '=' is skipped. */
  function LogQuery(q: string): (r: Option<(string, string)>)
    ensures r.Some? <==> '=' in q
    ensures r.Some? ==> q == r.value.0 + "=" + r.value.1 && '=' !in r.value.0
  {
    Text.SplitOnce(q, '=')
  }

  /** The items that read as entries, inserted in order, so a later item overwrites an earlier one with the same key. */
  function Gather(items: seq<string>, read: Reader): map<string, string>
    decreases |items|
  {
    if |items| == 0 then map[]
    else
      var n := |items| - 1;
      match read(items[n])
      case None => Gather(items[..n], read)
      case Some(kv) => Gather(items[..n], read)[kv.0 := kv.1]
  }

  /** The keys are exactly those of the readable items. */
  lemma {:induction false} GatherKeys(items: seq<string>, read: Reader)
    ensures forall k :: k in Gather(items, read) <==>
      exists i :: 0 <= i < |items| && read(items[i]).Some? && read(items[i]).value.0 == k
    decreases |items|
  {
    if |items| > 0 {
      var n := |items| - 1;
      GatherKeys(items[..n], read);
      forall i | 0 <= i < n ensures items[..n][i] == items[i] {
      }
    }
  }

  /** For each key, the value of the last item that has it. */
  lemma {:induction false} GatherLastWins(items: seq<string>, read: Reader, i: nat)
    requires i < |items| && read(items[i]).Some?
    requires forall j :: i < j < |items| && read(items[j]).Some? ==> read(items[j]).value.0 != read(items[i]).value.0
    ensures read(items[i]).value.0 in Gather(items, read)
    ensures Gather(items, read)[read(items[i]).value.0] == read(items[i]).value.1
    decreases |items|
  {
    var n := |items| - 1;
    if i < n {
      assert items[..n][i] == items[i];
      forall j | i < j < |items[..n]| && read(items[..n][j]).Some?
        ensures read(items[..n][j]).value.0 != read(items[..n][i]).value.0
      {
        assert items[..n][j] == items[j];
      }
      GatherLastWins(items[..n], read, i);
    }
  }

  /** The request log of `log_request`: method name, URL, the readable headers and query items, and the body with its size. */
  function RequestLogFor(b: Request.RequestBuilder): (r: RequestLog)
    ensures r.httpMethod == Request.AsStr(b.httpMethod) && r.url == b.url && r.originalUrl.None?
    ensures r.headers == Gather(b.headers, LogHeader) && r.queryParams == Gather(b.queryParams, LogQuery)
    ensures r.body == b.body
    ensures r.bodySize.Some? <==> b.body.Some?
  {
    var base := NewRequestLog(Request.AsStr(b.httpMethod), b.url)
      .(headers := Gather(b.headers, LogHeader), queryParams := Gather(b.queryParams, LogQuery));
    if b.body.Some? then CalculateBodySize(base.(body := b.body)) else base
  }

  /** The list after one more entry: at most `max`, dropping the oldest. */
  function Bounded(es: seq<HistoryEntry>, max: nat): (r: seq<HistoryEntry>)
    ensures |es| <= max + 1 ==> |r| <= max
    ensures |es| > max ==> r == es[1..]
    ensures |es| <= max ==> r == es
  {
    if |es| > max then es[1..] else es
  }

  /** The standard reason phrase of a status code, if it has one. The table is not part of this model. */
  type ReasonTable = nat -> Option<string>

  /**
   * The response log of `log_response`: the status with its reason phrase
   * (or "Unknown"), the headers, a non-empty body with its size, and the
   * content type when the response has one.
   */
  function ResponseLogFor(resp: Response.HttpResponse, reasons: ReasonTable): (r: ResponseLog)
    ensures r.statusCode == resp.status && r.headers == resp.headers
    ensures r.statusText == (if reasons(resp.status).Some? then reasons(resp.status).value else "Unknown")
    ensures r.body == (if resp.body == "" then None else Some(resp.body))
    ensures r.contentType == (if "content-type" in resp.headers then Some(resp.headers["content-type"]) else None)
    ensures r.isSuccess <==> 200 <= resp.status < 300
  {
    var text := if reasons(resp.status).Some? then reasons(resp.status).value else "Unknown";
    var log := NewResponseLog(resp.status, text).(headers := resp.headers);
    var withBody := if resp.body != "" then SetBody(log, resp.body) else log;
    if "content-type" in resp.headers then withBody.(contentType := Some(resp.headers["content-type"])) else withBody
  }

  /** The response log of `log_error`: status 0, "Error", an error with the message. */
  function ErrorLog(error: string): (r: ResponseLog)
    ensures r.statusCode == 0 && r.statusText == "Error"
    ensures r.isError && !r.isSuccess && r.errorMessage == Some(error)
  {
    SetError(NewResponseLog(0, "Error"), error)
  }

  /** The index of the first entry with that id. */
  function FirstIndex(es: seq<HistoryEntry>, id: nat): (r: Option<nat>)
    ensures r.Some? ==> r.value < |es| && es[r.value].id == id && forall j :: 0 <= j < r.value ==> es[j].id != id
    ensures r.None? ==> forall j :: 0 <= j < |es| ==> es[j].id != id
    decreases |es|
  {
    if es == [] then None
    else if es[0].id == id then Some(0)
    else match FirstIndex(es[1..], id)
      case None => None
      case Some(i) => Some(i + 1)
  }

  /** The entries that satisfy `p`, in their order. */
  function Filter(es: seq<HistoryEntry>, p: HistoryEntry -> bool): (r: seq<HistoryEntry>)
    ensures |r| <= |es|
    decreases |es|
  {
    if |es| == 0 then []
    else
      var rest := Filter(es[1..], p);
      if p(es[0]) then [es[0]] + rest else rest
  }

  /** The filter holds exactly the entries that satisfy `p`. */
  lemma {:induction false} FilterSpec(es: seq<HistoryEntry>, p: HistoryEntry -> bool)
    ensures forall e :: e in Filter(es, p) <==> e in es && p(e)
    decreases |es|
  {
    if |es| > 0 {
      FilterSpec(es[1..], p);
      assert es == [es[0]] + es[1..];
    }
  }

  /** Filtering keeps the order: the filter of a concatenation is the concatenation of the filters. */
  lemma {:induction false} FilterAppend(a: seq<HistoryEntry>, b: seq<HistoryEntry>, p: HistoryEntry -> bool)
    ensures Filter(a + b, p) == Filter(a, p) + Filter(b, p)
    decreases |a|
  {
    if |a| == 0 {
      assert a + b == b;
    } else {
      assert (a + b)[0] == a[0] && (a + b)[1..] == a[1..] + b;
      FilterAppend(a[1..], b, p);
      if p(a[0]) {
        Seqs.AppendAssoc([a[0]], Filter(a[1..], p), Filter(b, p));
      }
    }
  }

  /** The loops of `log_request` over the header lines and the query items: each readable one inserted in turn. */
  method GatherItems(items: seq<string>, read: Reader) returns (m: map<string, string>)
    ensures m == Gather(items, read)
  {
    m := map[];
    var i := 0;
    while i < |items|
      invariant 0 <= i <= |items|
      invariant m == Gather(items[..i], read)
    {
      assert items[..i + 1][..i] == items[..i];
      var kv := read(items[i]);
      if kv.Some? {
        m := m[kv.value.0 := kv.value.1];
      }
      i := i + 1;
    }
    assert items[..i] == items;
  }

  class HistoryLogger {
    var entries: seq<HistoryEntry>
    var maxEntries: nat
    var currentCollectionId: Option<nat>
    var currentEnvironmentId: Option<nat>

    /** The list never holds more than the maximum. */
    ghost predicate Valid()
      reads this
    {
      |entries| <= maxEntries
    }

    /** `HistoryLogger::new`: empty, at most 1000 entries. */
    constructor ()
      ensures entries == [] && maxEntries == DEFAULT_MAX_ENTRIES
      ensures currentCollectionId.None? && currentEnvironmentId.None? && Valid()
    {
      entries := [];
      maxEntries := DEFAULT_MAX_ENTRIES;
      currentCollectionId := None;
      currentEnvironmentId := None;
    }

    /** `with_max_entries`: empty, with the given maximum. */
    constructor WithMaxEntries(max: nat)
      ensures entries == [] && maxEntries == max
      ensures currentCollectionId.None? && currentEnvironmentId.None? && Valid()
    {
      entries := [];
      maxEntries := max;
      currentCollectionId := None;
      currentEnvironmentId := None;
    }

    /** `set_collection_id` */
    method SetCollectionId(id: Option<nat>)
      modifies this
      ensures currentCollectionId == id
      ensures entries == old(entries) && maxEntries == old(maxEntries) && currentEnvironmentId == old(currentEnvironmentId)
    {
      currentCollectionId := id;
    }

    /** `set_environment_id` */
    method SetEnvironmentId(id: Option<nat>)
      modifies this
      ensures currentEnvironmentId == id
      ensures entries == old(entries) && maxEntries == old(maxEntries) && currentCollectionId == old(currentCollectionId)
    {
      currentEnvironmentId := id;
    }

    /**
     * `log_request`: a new entry for the request, tagged with the current
     * collection and environment, goes at the end; past the maximum the
     * oldest entry is dropped. `id` is the new entry's id.
     */
    method LogRequest(request: Request.RequestBuilder, id: nat) returns (r: nat)
      modifies this
      ensures r == id
      ensures entries == Bounded(old(entries) + [NewEntry(id, RequestLogFor(request))
        .(collectionId := old(currentCollectionId), environmentId := old(currentEnvironmentId))], maxEntries)
      ensures maxEntries == old(maxEntries) && currentCollectionId == old(currentCollectionId)
      ensures currentEnvironmentId == old(currentEnvironmentId)
      ensures old(Valid()) ==> Valid()
    {
      var headers := GatherItems(request.headers, LogHeader);
      var query := GatherItems(request.queryParams, LogQuery);
      var log := NewRequestLog(Request.AsStr(request.httpMethod), request.url).(headers := headers, queryParams := query);
      if request.body.Some? {
        log := CalculateBodySize(log.(body := request.body));
      }
      var entry := NewEntry(id, log).(collectionId := currentCollectionId, environmentId := currentEnvironmentId);
      entries := entries + [entry];
      if |entries| > maxEntries {
        entries := entries[1..];
      }
      r := id;
    }

    /** `iter_mut().find`: the position of the first entry with that id. */
    method Find(id: nat) returns (r: Option<nat>)
      ensures r == FirstIndex(entries, id)
    {
      var i := 0;
      while i < |entries|
        invariant 0 <= i <= |entries|
        invariant forall j :: 0 <= j < i ==> entries[j].id != id
      {
        if entries[i].id == id {
          return Some(i);
        }
        i := i + 1;
      }
      r := None;
    }

    /** `log_response`: the first entry with that id gets the response and its duration; an unknown id changes nothing. */
    method LogResponse(entryId: nat, resp: Response.HttpResponse, reasons: ReasonTable)
      modifies this
      ensures FirstIndex(old(entries), entryId).None? ==> entries == old(entries)
      ensures FirstIndex(old(entries), entryId).Some? ==>
        var i := FirstIndex(old(entries), entryId).value;
        entries == old(entries)[i := SetResponse(old(entries)[i], ResponseLogFor(resp, reasons), resp.durationMs)]
      ensures maxEntries == old(maxEntries) && currentCollectionId == old(currentCollectionId)
      ensures currentEnvironmentId == old(currentEnvironmentId)
    {
      var found := Find(entryId);
      if found.Some? {
        var i := found.value;
        entries := entries[i := SetResponse(entries[i], ResponseLogFor(resp, reasons), resp.durationMs)];
      }
    }

    /** `log_error`: the first entry with that id gets an error response (its duration stays); an unknown id changes nothing. */
    method LogError(entryId: nat, error: string)
      modifies this
      ensures FirstIndex(old(entries), entryId).None? ==> entries == old(entries)
      ensures FirstIndex(old(entries), entryId).Some? ==>
        var i := FirstIndex(old(entries), entryId).value;
        entries == old(entries)[i := old(entries)[i].(response := Some(ErrorLog(error)))]
      ensures maxEntries == old(maxEntries) && currentCollectionId == old(currentCollectionId)
      ensures currentEnvironmentId == old(currentEnvironmentId)
    {
      var found := Find(entryId);
      if found.Some? {
        var i := found.value;
        entries := entries[i := entries[i].(response := Some(ErrorLog(error)))];
      }
    }

    /** `get_entry`: the first entry with that id. */
    function GetEntry(id: nat): (r: Option<HistoryEntry>)
      reads this
      ensures r.Some? ==> r.value in entries && r.value.id == id
      ensures r.None? <==> forall j :: 0 <= j < |entries| ==> entries[j].id != id
    {
      match FirstIndex(entries, id)
      case None => None
      case Some(i) => Some(entries[i])
    }

    /** `get_last_n`: the newest `n` entries (all of them if fewer), newest first. */
    function GetLastN(n: nat): (r: seq<HistoryEntry>)
      reads this
      ensures |r| == if n < |entries| then n else |entries|
      ensures forall i :: 0 <= i < |r| ==> r[i] == entries[|entries| - 1 - i]
    {
      var es := entries;
      var k := if n < |es| then n else |es|;
      seq(k, i requires 0 <= i < k => es[|es| - 1 - i])
    }

    /** `filter_by_method`: the entries whose method equals `m`, ASCII case ignored. */
    function FilterByMethod(m: string): (r: seq<HistoryEntry>)
      reads this
      ensures forall e :: e in r <==> e in entries && Text.EqIgnoreAsciiCase(e.request.httpMethod, m)
    {
      var p := (e: HistoryEntry) => Text.EqIgnoreAsciiCase(e.request.httpMethod, m);
      FilterSpec(entries, p);
      Filter(entries, p)
    }

    /** `filter_by_status`: the entries with a response of that status. */
    function FilterByStatus(code: nat): (r: seq<HistoryEntry>)
      reads this
      ensures forall e :: e in r <==> e in entries && e.response.Some? && e.response.value.statusCode == code
    {
      var p := (e: HistoryEntry) => e.response.Some? && e.response.value.statusCode == code;
      FilterSpec(entries, p);
      Filter(entries, p)
    }

    /** `get_successful` */
    function GetSuccessful(): (r: seq<HistoryEntry>)
      reads this
      ensures forall e :: e in r <==> e in entries && IsSuccessful(e)
    {
      var p := IsSuccessful;
      FilterSpec(entries, p);
      Filter(entries, p)
    }

    /** `get_failed` */
    function GetFailed(): (r: seq<HistoryEntry>)
      reads this
      ensures forall e :: e in r <==> e in entries && HasError(e)
    {
      var p := HasError;
      FilterSpec(entries, p);
      Filter(entries, p)
    }

    /** `search_by_url`: the entries whose URL contains the pattern. */
    function SearchByUrl(pattern: string): (r: seq<HistoryEntry>)
      reads this
      ensures forall e :: e in r <==> e in entries && Text.Contains(e.request.url, pattern)
    {
      var p := (e: HistoryEntry) => Text.Contains(e.request.url, pattern);
      FilterSpec(entries, p);
      Filter(entries, p)
    }

    /** `clear` */
    method Clear()
      modifies this
      ensures entries == [] && Valid()
      ensures maxEntries == old(maxEntries) && currentCollectionId == old(currentCollectionId)
      ensures currentEnvironmentId == old(currentEnvironmentId)
    {
      entries := [];
    }

    /** `count` */
    function Count(): (n: nat)
      reads this
      ensures Valid() ==> n <= maxEntries
    {
      |entries|
    }
  }

  /**
   * A logged request can be found again by its id as long as the log has
   * room for one entry; with a maximum of 0 it is dropped at once.
   */
  lemma LoggedIsRetrievable(es: seq<HistoryEntry>, max: nat, e: HistoryEntry)
    requires |es| <= max
    ensures max >= 1 ==> Bounded(es + [e], max)[|Bounded(es + [e], max)| - 1] == e
    ensures max >= 1 ==> FirstIndex(Bounded(es + [e], max), e.id).Some?
    ensures max == 0 ==> Bounded(es + [e], max) == []
  {
    var r := Bounded(es + [e], max);
    if max >= 1 {
      assert r[|r| - 1].id == e.id;
    }
  }
}
