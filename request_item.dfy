/**
 * A request saved in a collection: name, method text, URL (which may hold
 * `{{NAME}}` placeholders), header and query maps, body, tags and
 * metadata. The builders return the updated item; timestamps and the
 * random id are not part of this model (the id is given).
 */
module RequestItems {
  import opened Wrappers
  import Request
  import Form
  import Seqs

  datatype RequestItem = RequestItem(
    id: nat,
    name: string,
    description: Option<string>,
    httpMethod: string,
    url: string,
    headers: map<string, string>,
    queryParams: map<string, string>,
    body: Option<string>,
    bodyType: Option<string>,
    tags: seq<string>,
    metadata: map<string, string>)

  /** `RequestItem::new`: the method's name, no headers, query items, body, tags or metadata. */
  function NewItem(id: nat, name: string, m: Request.HttpMethod, url: string): (r: RequestItem)
    ensures r.id == id && r.name == name && r.httpMethod == Request.AsStr(m) && r.url == url
    ensures r.description.None? && r.headers == map[] && r.queryParams == map[]
    ensures r.body.None? && r.bodyType.None? && r.tags == [] && r.metadata == map[]
  {
    RequestItem(id, name, None, Request.AsStr(m), url, map[], map[], None, None, [], map[])
  }

  /** `with_header`: the last value given for a key wins; other keys and fields stay. */
  function WithHeader(it: RequestItem, key: string, value: string): (r: RequestItem)
    ensures key in r.headers && r.headers[key] == value
    ensures forall k :: k != key ==> (k in r.headers <==> k in it.headers) && (k in it.headers ==> r.headers[k] == it.headers[k])
    ensures r.(headers := it.headers) == it
  {
    it.(headers := it.headers[key := value])
  }

  /** `with_query`: the last value given for a key wins; other keys and fields stay. */
  function WithQuery(it: RequestItem, key: string, value: string): (r: RequestItem)
    ensures key in r.queryParams && r.queryParams[key] == value
    ensures forall k :: k != key ==> (k in r.queryParams <==> k in it.queryParams) && (k in it.queryParams ==> r.queryParams[k] == it.queryParams[k])
    ensures r.(queryParams := it.queryParams) == it
  {
    it.(queryParams := it.queryParams[key := value])
  }

  /** `with_body`: sets the body and replaces the body type (possibly by none). */
  function WithBody(it: RequestItem, body: string, bodyType: Option<string>): (r: RequestItem)
    ensures r.body == Some(body) && r.bodyType == bodyType
    ensures r.(body := it.body, bodyType := it.bodyType) == it
  {
    it.(body := Some(body), bodyType := bodyType)
  }

  /** `with_description` */
  function WithDescription(it: RequestItem, d: string): (r: RequestItem)
    ensures r.description == Some(d) && r.(description := it.description) == it
  {
    it.(description := Some(d))
  }

  /** No tag occurs twice. */
  predicate DistinctTags(tags: seq<string>) {
    forall i, j :: 0 <= i < j < |tags| ==> tags[i] != tags[j]
  }

  /** `with_tag`: appended unless already there. */
  function WithTag(it: RequestItem, tag: string): (r: RequestItem)
    ensures tag in r.tags && r.(tags := it.tags) == it
    ensures tag in it.tags ==> r.tags == it.tags
    ensures tag !in it.tags ==> r.tags == it.tags + [tag]
  {
    if tag in it.tags then it else it.(tags := it.tags + [tag])
  }

  /** `with_tag` never creates a duplicate. */
  lemma WithTagKeepsDistinct(it: RequestItem, tag: string)
    requires DistinctTags(it.tags)
    ensures DistinctTags(WithTag(it, tag).tags)
  {
    if tag !in it.tags {
      var ts := it.tags + [tag];
      forall i, j | 0 <= i < j < |ts|
        ensures ts[i] != ts[j]
      {
        if j == |it.tags| {
          assert ts[i] == it.tags[i];
        }
      }
    }
  }

  /** The method a saved item is sent with: its text parsed, GET when that fails. */
  function MethodOrGet(s: string): (m: Request.HttpMethod)
    ensures Request.FromStr(s).Ok? ==> m == Request.FromStr(s).value
    ensures Request.FromStr(s).Err? ==> m == Request.Get
  {
    match Request.FromStr(s)
    case Ok(m) => m
    case Err(_) => Request.Get
  }

  /** A fresh item is sent with the method it was created with. */
  lemma MethodRoundTrip(id: nat, name: string, m: Request.HttpMethod, url: string)
    ensures MethodOrGet(NewItem(id, name, m, url).httpMethod) == m
  {
    Request.FromStrAsStr(m);
  }

  /** The "key<sep>value" lines of a map, in the given key order. */
  function Lines(m: map<string, string>, order: seq<string>, sep: char): (r: seq<string>)
    requires forall k :: k in order ==> k in m
    ensures |r| == |order| && forall i :: 0 <= i < |order| ==> r[i] == order[i] + [sep] + m[order[i]]
  {
    seq(|order|, i requires 0 <= i < |order| => order[i] + [sep] + m[order[i]])
  }

  /** An order that lists each of a set's elements once is as long as the set is large. */
  lemma {:induction false} OrderLength(order: seq<string>, names: set<string>)
    requires Form.IsOrderOf(order, names)
    ensures |order| == |names|
  {
    if order != [] {
      var rest := names - {order[0]};
      forall n | n in order[1..] ensures n in rest {
        var j :| 1 <= j < |order| && order[j] == n;
      }
      assert Form.IsOrderOf(order[1..], rest);
      OrderLength(order[1..], rest);
    } else {
      assert names == {};
    }
  }

  /** Under an iteration order, there is one line per key, and each key's line is among them. */
  lemma LinesCover(m: map<string, string>, order: seq<string>, sep: char)
    requires Form.IsOrderOf(order, m.Keys)
    ensures |Lines(m, order, sep)| == |m|
    ensures forall k :: k in m ==> k + [sep] + m[k] in Lines(m, order, sep)
  {
    OrderLength(order, m.Keys);
    forall k | k in m ensures k + [sep] + m[k] in Lines(m, order, sep) {
      var i :| 0 <= i < |order| && order[i] == k;
      assert Lines(m, order, sep)[i] == k + [sep] + m[k];
    }
  }

  /** Adding one key at the end of the order adds its line at the end. */
  lemma LinesSnoc(m: map<string, string>, order: seq<string>, k: string, sep: char)
    requires forall j :: j in order ==> j in m
    requires k in m
    ensures Lines(m, order + [k], sep) == Lines(m, order, sep) + [k + [sep] + m[k]]
  {
  }

  /** One "key<sep>value" line per entry of `m`, appended to `lines` in the map's order. */
  method AppendLines(lines: seq<string>, m: map<string, string>, sep: char) returns (r: seq<string>, ghost order: seq<string>)
    ensures Form.IsOrderOf(order, m.Keys)
    ensures r == lines + Lines(m, order, sep)
  {
    r := lines;
    order := [];
    var todo := m.Keys;
    while todo != {}
      invariant todo <= m.Keys
      invariant forall k :: k in m ==> (k in todo <==> k !in order)
      invariant Form.IsOrderOf(order, m.Keys - todo)
      invariant r == lines + Lines(m, order, sep)
      decreases |todo|
    {
      var k :| k in todo;
      LinesSnoc(m, order, k, sep);
      Seqs.AppendAssoc(lines, Lines(m, order, sep), [k + [sep] + m[k]]);
      OrderSnoc(order, m.Keys, todo, k);
      r := r + [k + [sep] + m[k]];
      order := order + [k];
      todo := todo - {k};
    }
  }

  /** Moving one pending key to the end of the order keeps the order a listing of the keys done. */
  lemma OrderSnoc(order: seq<string>, keys: set<string>, todo: set<string>, k: string)
    requires todo <= keys && k in todo
    requires forall j :: j in keys ==> (j in todo <==> j !in order)
    requires Form.IsOrderOf(order, keys - todo)
    ensures forall j :: j in keys ==> (j in todo - {k} <==> j !in order + [k])
    ensures Form.IsOrderOf(order + [k], keys - (todo - {k}))
  {
    var o := order + [k];
    forall i, j | 0 <= i < j < |o| ensures o[i] != o[j] {
      if j == |order| {
        assert o[i] == order[i] && order[i] in order;
      }
    }
  }

  /**
   * `to_request_builder`: the parsed method (GET if it does not parse), the
   * URL, one "key:value" header line per header and one "key=value" query
   * item per query entry, in the maps' own orders, and the body.
   */
  method ToRequestBuilder(it: RequestItem) returns (b: Request.RequestBuilder, ghost headerOrder: seq<string>, ghost queryOrder: seq<string>)
    ensures Form.IsOrderOf(headerOrder, it.headers.Keys) && Form.IsOrderOf(queryOrder, it.queryParams.Keys)
    ensures b == Request.New(MethodOrGet(it.httpMethod), it.url).(
      headers := Lines(it.headers, headerOrder, ':'),
      queryParams := Lines(it.queryParams, queryOrder, '='),
      body := it.body)
  {
    b := Request.New(MethodOrGet(it.httpMethod), it.url);
    var hs, qs;
    hs, headerOrder := AppendLines([], it.headers, ':');
    qs, queryOrder := AppendLines([], it.queryParams, '=');
    b := Request.Headers(b, hs);
    b := Request.Queries(b, qs);
    if it.body.Some? {
      b := Request.Body(b, it.body.value);
    }
  }
}
