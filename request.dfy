/**
 * HTTP methods and the request builder: the method, the URL, the raw
 * "Key:Value" header lines and "key=value" query items, an optional body,
 * optional form data and the authentication scheme, and the two parsers
 * that turn the raw lines into maps.
 */
module Request {
  import opened Wrappers
  import Text
  import Errors
  import Form
  import Auth
  import Json

  datatype HttpMethod = Get | Post | Put | Delete | Patch | Head | Options

  /** `HttpMethod::as_str`: the upper-case method name. */
  function AsStr(m: HttpMethod): string {
    match m
    case Get => "GET"
    case Post => "POST"
    case Put => "PUT"
    case Delete => "DELETE"
    case Patch => "PATCH"
    case Head => "HEAD"
    case Options => "OPTIONS"
  }

  /**
   * The upper case of one character, as far as it decides whether a text's
   * upper case is an ASCII word: ASCII lower-case letters, and the few other
   * characters whose upper case is made of ASCII letters only (dotless i,
   * long s, sharp s and the Latin ligatures), map to those letters; every
   * other character is left as it is. Upper-casing any character not listed
   * yields at least one non-ASCII character, so a text matches an ASCII word
   * after this mapping exactly when it does after full Unicode upper-casing.
   */
  function UpperChar(c: char): (r: string)
    ensures 1 <= |r| <= 3
  {
    if 'a' <= c <= 'z' then [(c as int - 32) as char]
    else if c == 0x131 as char then "I"
    else if c == 0x17F as char then "S"
    else if c == 0xDF as char then "SS"
    else if c == 0xFB00 as char then "FF"
    else if c == 0xFB01 as char then "FI"
    else if c == 0xFB02 as char then "FL"
    else if c == 0xFB03 as char then "FFI"
    else if c == 0xFB04 as char then "FFL"
    else if c == 0xFB05 as char || c == 0xFB06 as char then "ST"
    else [c]
  }

  /** `str::to_uppercase`, for the purpose of matching ASCII words. */
  function Upper(s: string): string {
    if s == [] then "" else UpperChar(s[0]) + Upper(s[1..])
  }

  /**
   * `HttpMethod::from_str`: the method whose name is the upper case of the
   * text, in any letter case; `UnsupportedMethod` carrying the text as given
   * otherwise.
   */
  function FromStr(s: string): (r: Result<HttpMethod, Errors.Error>)
    ensures r.Ok? ==> AsStr(r.value) == Upper(s)
    ensures r.Err? ==> r.error == Errors.UnsupportedMethod(s) && forall m :: AsStr(m) != Upper(s)
  {
    var u := Upper(s);
    if u == "GET" then Ok(Get)
    else if u == "POST" then Ok(Post)
    else if u == "PUT" then Ok(Put)
    else if u == "DELETE" then Ok(Delete)
    else if u == "PATCH" then Ok(Patch)
    else if u == "HEAD" then Ok(Head)
    else if u == "OPTIONS" then Ok(Options)
    else Err(Errors.UnsupportedMethod(s))
  }

  /** Upper-casing an upper-case ASCII word leaves it as it is. */
  lemma {:induction false} UpperOfUpper(s: string)
    requires forall i :: 0 <= i < |s| ==> 'A' <= s[i] <= 'Z'
    ensures Upper(s) == s
  {
    if s != [] {
      UpperCharOfUpper(s[0]);
      UpperOfUpper(s[1..]);
      assert [s[0]] + s[1..] == s;
    }
  }

  lemma UpperCharOfUpper(c: char)
    requires 'A' <= c <= 'Z'
    ensures UpperChar(c) == [c]
  {
  }

  /** Upper-casing undoes ASCII lower-casing. */
  lemma {:induction false} UpperOfLower(s: string)
    requires forall i :: 0 <= i < |s| ==> 'A' <= s[i] <= 'Z'
    ensures Upper(Text.AsciiLowerStr(s)) == s
  {
    var l := Text.AsciiLowerStr(s);
    if s != [] {
      assert l[1..] == Text.AsciiLowerStr(s[1..]);
      UpperOfLower(s[1..]);
      UpperCharOfLower(s[0]);
      assert [s[0]] + s[1..] == s;
    }
  }

  lemma UpperCharOfLower(c: char)
    requires 'A' <= c <= 'Z'
    ensures UpperChar(Text.AsciiLower(c)) == [c]
  {
    var l := Text.AsciiLower(c);
    assert l as int == c as int + 32;
  }

  lemma MethodNameUpper(m: HttpMethod)
    ensures forall i :: 0 <= i < |AsStr(m)| ==> 'A' <= AsStr(m)[i] <= 'Z'
  {
  }

  /** Each method's name parses back to it, in upper case and in lower case. */
  lemma FromStrAsStr(m: HttpMethod)
    ensures FromStr(AsStr(m)) == Ok(m)
    ensures FromStr(Text.AsciiLowerStr(AsStr(m))) == Ok(m)
  {
    MethodNameUpper(m);
    UpperOfUpper(AsStr(m));
    UpperOfLower(AsStr(m));
  }

  // ---- The request builder

  datatype RequestBuilder = RequestBuilder(
    httpMethod: HttpMethod,
    url: string,
    headers: seq<string>,
    queryParams: seq<string>,
    body: Option<string>,
    formData: Option<Form.Fields>,
    auth: Auth.AuthScheme)

  /** `RequestBuilder::new`: no headers, query items, body or form, and no authentication. */
  function New(m: HttpMethod, url: string): (r: RequestBuilder)
    ensures r.httpMethod == m && r.url == url
    ensures r.headers == [] && r.queryParams == [] && r.body.None? && r.formData.None?
    ensures !Auth.IsConfigured(r.auth)
  {
    RequestBuilder(m, url, [], [], None, None, Auth.Default)
  }

  /** `header`: one more header line, after the others. */
  function Header(b: RequestBuilder, h: string): RequestBuilder {
    b.(headers := b.headers + [h])
  }

  /** `headers`: the lines appended in their order. */
  function Headers(b: RequestBuilder, hs: seq<string>): RequestBuilder {
    b.(headers := b.headers + hs)
  }

  /** `query` */
  function Query(b: RequestBuilder, q: string): RequestBuilder {
    b.(queryParams := b.queryParams + [q])
  }

  /** `queries` */
  function Queries(b: RequestBuilder, qs: seq<string>): RequestBuilder {
    b.(queryParams := b.queryParams + qs)
  }

  /** `body`: sets (or replaces) the body. */
  function Body(b: RequestBuilder, body: string): RequestBuilder {
    b.(body := Some(body))
  }

  /** `form`: sets (or replaces) the form data, given by its fields. */
  function WithForm(b: RequestBuilder, fields: Form.Fields): RequestBuilder {
    b.(formData := Some(fields))
  }

  /** `auth`: sets (or replaces) the authentication scheme. */
  function WithAuth(b: RequestBuilder, a: Auth.AuthScheme): RequestBuilder {
    b.(auth := a)
  }

  /** Adding header lines one by one with `header`. */
  function HeaderEach(b: RequestBuilder, hs: seq<string>): RequestBuilder
    decreases |hs|
  {
    if hs == [] then b else HeaderEach(Header(b, hs[0]), hs[1..])
  }

  /** Adding query items one by one with `query`. */
  function QueryEach(b: RequestBuilder, qs: seq<string>): RequestBuilder
    decreases |qs|
  {
    if qs == [] then b else QueryEach(Query(b, qs[0]), qs[1..])
  }

  /** `headers(hs)` is `header` applied to each line in turn, and so is `queries` for `query`. */
  lemma {:induction false} BulkIsRepeated(b: RequestBuilder, hs: seq<string>, qs: seq<string>)
    ensures Headers(b, hs) == HeaderEach(b, hs)
    ensures Queries(b, qs) == QueryEach(b, qs)
    decreases |hs| + |qs|
  {
    if hs != [] {
      BulkIsRepeated(Header(b, hs[0]), hs[1..], []);
      assert b.headers + [hs[0]] + hs[1..] == b.headers + hs;
    }
    if qs != [] {
      BulkIsRepeated(Query(b, qs[0]), [], qs[1..]);
      assert b.queryParams + [qs[0]] + qs[1..] == b.queryParams + qs;
    }
  }

  /**
   * Each builder changes its own field and nothing else, so builders on
   * different fields commute, and a later body, form or scheme replaces an
   * earlier one.
   */
  lemma BuildersCommute(b: RequestBuilder, h: string, q: string, body: string, a: Auth.AuthScheme, fields: Form.Fields)
    ensures Query(Header(b, h), q) == Header(Query(b, q), h)
    ensures Body(Header(b, h), body) == Header(Body(b, body), h)
    ensures WithAuth(Query(b, q), a) == Query(WithAuth(b, a), q)
    ensures WithForm(Body(b, body), fields) == Body(WithForm(b, fields), body)
    ensures Body(Body(b, "x"), body) == Body(b, body)
    ensures WithForm(WithForm(b, map[]), fields) == WithForm(b, fields)
    ensures WithAuth(WithAuth(b, Auth.Default), a) == WithAuth(b, a)
  {
  }

  /** `apply_auth`: the builder's scheme applied to the caller's header and query lists, returned as the new pair. */
  function ApplyAuth(b: RequestBuilder, headers: seq<string>, query: seq<string>, now: int): (r: (seq<string>, seq<string>))
    ensures |r.0| >= |headers| && |r.1| >= |query|
    ensures r.0[..|headers|] == headers && r.1[..|query|] == query
    ensures !Auth.IsConfigured(b.auth) ==> r == (headers, query)
  {
    Auth.Apply(b.auth, headers, query, now)
  }

  /** `parse_body`: no body gives nothing; a body is parsed as JSON, and a parse failure is an `InvalidJson` error. */
  function ParseBody(b: RequestBuilder, parse: Json.Parser): (r: Result<Option<Json.Value>, Errors.Error>)
    ensures b.body.None? ==> r == Ok(None)
    ensures b.body.Some? && parse(b.body.value).Ok? ==> r == Ok(Some(parse(b.body.value).value))
    ensures b.body.Some? && parse(b.body.value).Err? ==> r == Err(Errors.InvalidJson(parse(b.body.value).error))
  {
    match b.body
    case None => Ok(None)
    case Some(s) =>
      match parse(s)
      case Ok(v) => Ok(Some(v))
      case Err(e) => Err(Errors.InvalidJson(e))
  }

  // ---- Parsing header lines and query items into maps

  /** How one raw item reads as a (key, value) entry, if it does. */
  type Reader = string -> Option<(string, string)>

  /**
   * Inserting the entries of the items in order, the later entry for a key
   * replacing the earlier; the first item that does not read stops it, and
   * is returned.
   */
  function Collect(items: seq<string>, read: Reader): Result<map<string, string>, string>
    decreases |items|
  {
    if items == [] then Ok(map[])
    else
      var n := |items| - 1;
      match Collect(items[..n], read)
      case Err(bad) => Err(bad)
      case Ok(m) =>
        match read(items[n])
        case None => Err(items[n])
        case Some(kv) => Ok(m[kv.0 := kv.1])
  }

  /** Every item reads as an entry. */
  predicate AllRead(items: seq<string>, read: Reader) {
    forall i :: 0 <= i < |items| ==> read(items[i]).Some?
  }

  /** Item i is the last one whose entry has key k. */
  predicate LastFor(items: seq<string>, read: Reader, i: int, k: string) {
    0 <= i < |items| && read(items[i]).Some? && read(items[i]).value.0 == k
    && forall j :: i < j < |items| ==> read(items[j]).None? || read(items[j]).value.0 != k
  }

  /** Collecting succeeds exactly when every item reads. */
  lemma {:induction false} CollectOk(items: seq<string>, read: Reader)
    ensures Collect(items, read).Ok? <==> AllRead(items, read)
    decreases |items|
  {
    if items != [] {
      var n := |items| - 1;
      var front := items[..n];
      CollectOk(front, read);
      if AllRead(front, read) && read(items[n]).Some? {
        forall i | 0 <= i < |items| ensures read(items[i]).Some? {
          if i < n { assert items[i] == front[i]; }
        }
      }
      if AllRead(items, read) {
        assert read(items[n]).Some?;
        forall i | 0 <= i < n ensures read(front[i]).Some? {
          assert front[i] == items[i];
        }
      }
      assert Collect(items, read).Ok? <==> Collect(front, read).Ok? && read(items[n]).Some?;
    }
  }

  /** When some item does not read, the result names the first such item. */
  lemma {:induction false} CollectFirstBad(items: seq<string>, read: Reader, k: nat)
    requires k < |items| && read(items[k]).None?
    requires forall i :: 0 <= i < k ==> read(items[i]).Some?
    ensures Collect(items, read) == Err(items[k])
    decreases |items|
  {
    var n := |items| - 1;
    var front := items[..n];
    var r := Collect(front, read);
    if k < n {
      assert front[k] == items[k];
      assert forall i :: 0 <= i < k ==> front[i] == items[i];
      CollectFirstBad(front, read, k);
      assert Collect(items, read) == r;
    } else {
      assert forall i :: 0 <= i < n ==> front[i] == items[i];
      CollectOk(front, read);
      assert AllRead(front, read);
      assert r.Ok?;
      assert Collect(items, read) == Err(items[n]);
    }
  }

  /**
   * On success a key is in the map exactly when some item has an entry with
   * that key, and it maps to the value of the last such item.
   */
  lemma {:induction false} CollectLastWins(items: seq<string>, read: Reader, k: string)
    requires Collect(items, read).Ok?
    ensures k in Collect(items, read).value <==> exists i :: LastFor(items, read, i, k)
    ensures forall i :: LastFor(items, read, i, k) ==> Collect(items, read).value[k] == read(items[i]).value.1
    decreases |items|
  {
    if items != [] {
      var n := |items| - 1;
      var front := items[..n];
      var m := Collect(front, read).value;
      CollectLastWins(front, read, k);
      var kv := read(items[n]).value;
      assert Collect(items, read).value == m[kv.0 := kv.1];
      if kv.0 == k {
        assert LastFor(items, read, n, k);
        forall i | 0 <= i < n ensures !LastFor(items, read, i, k) {
          assert read(items[n]).Some? && read(items[n]).value.0 == k;
        }
      } else {
        forall i | LastFor(front, read, i, k) ensures LastFor(items, read, i, k) {
          assert items[i] == front[i];
          forall j | i < j < |items| ensures read(items[j]).None? || read(items[j]).value.0 != k {
            if j < n { assert items[j] == front[j]; }
          }
        }
        forall i | LastFor(items, read, i, k) ensures LastFor(front, read, i, k) {
          assert i != n;
          assert front[i] == items[i];
          forall j | i < j < |front| ensures read(front[j]).None? || read(front[j]).value.0 != k {
            assert front[j] == items[j];
          }
        }
      }
    }
  }

  /** A header line "Key:Value": split at the first ':', both sides trimmed, the name lower-cased as header maps store it. */
  function ReadHeader(h: string): (r: Option<(string, string)>)
    ensures r.Some? <==> ':' in h
  {
    match Text.SplitOnce(h, ':')
    case None => None
    case Some((k, v)) => Some((Text.AsciiLowerStr(Text.Trim(k)), Text.Trim(v)))
  }

  /** A query item "key=value": split at the first '=', nothing trimmed. */
  function ReadQuery(q: string): (r: Option<(string, string)>)
    ensures r.Some? <==> '=' in q
  {
    Text.SplitOnce(q, '=')
  }

  function HeaderError(h: string): Errors.Error {
    Errors.InvalidHeader("Header must be in format 'Key:Value', got: " + h)
  }

  function QueryError(q: string): Errors.Error {
    Errors.InvalidQuery("Query parameter must be in format 'key=value', got: " + q)
  }

  /** What `parse_headers` returns for the builder's header lines. */
  function HeaderMap(b: RequestBuilder): Result<map<string, string>, Errors.Error> {
    match Collect(b.headers, ReadHeader)
    case Err(h) => Err(HeaderError(h))
    case Ok(m) => Ok(m)
  }

  /** What `parse_query_params` returns for the builder's query items. */
  function QueryMap(b: RequestBuilder): Result<map<string, string>, Errors.Error> {
    match Collect(b.queryParams, ReadQuery)
    case Err(q) => Err(QueryError(q))
    case Ok(m) => Ok(m)
  }

  /**
   * The insertion loop `parse_headers` and `parse_query_params` share: each
   * item is read and its entry inserted in turn, a later entry for a key
   * replacing the earlier; the first item that does not read is returned.
   */
  method CollectEntries(items: seq<string>, read: Reader) returns (r: Result<map<string, string>, string>)
    ensures r == Collect(items, read)
  {
    var m: map<string, string> := map[];
    var i := 0;
    while i < |items|
      invariant 0 <= i <= |items|
      invariant Collect(items[..i], read) == Ok(m)
    {
      CollectStep(items, read, i, m);
      var entry := read(items[i]);
      if entry.None? {
        CollectStops(items, read, i + 1);
        return Err(items[i]);
      }
      m := m[entry.value.0 := entry.value.1];
      i := i + 1;
    }
    assert items[..i] == items;
    r := Ok(m);
  }

  /** `parse_headers`: the header lines collected; the first line without ':' is an error naming it. */
  method ParseHeaders(b: RequestBuilder) returns (r: Result<map<string, string>, Errors.Error>)
    ensures r == HeaderMap(b)
  {
    var c := CollectEntries(b.headers, ReadHeader);
    match c
    case Err(h) => r := Err(HeaderError(h));
    case Ok(m) => r := Ok(m);
  }

  /** `parse_query_params`: the query items collected; the first item without '=' is an error naming it. */
  method ParseQueryParams(b: RequestBuilder) returns (r: Result<map<string, string>, Errors.Error>)
    ensures r == QueryMap(b)
  {
    var c := CollectEntries(b.queryParams, ReadQuery);
    match c
    case Err(q) => r := Err(QueryError(q));
    case Ok(m) => r := Ok(m);
  }

  /** Once a prefix of the items fails, the whole list fails the same way. */
  lemma {:induction false} CollectStops(items: seq<string>, read: Reader, k: nat)
    requires k <= |items| && Collect(items[..k], read).Err?
    ensures Collect(items, read) == Collect(items[..k], read)
    decreases |items| - k
  {
    if k == |items| {
      assert items[..k] == items;
    } else {
      assert items[..k + 1][..k] == items[..k];
      CollectStops(items, read, k + 1);
    }
  }

  /** Collecting one more item: it either stops at that item or adds its entry. */
  lemma CollectStep(items: seq<string>, read: Reader, i: nat, m: map<string, string>)
    requires i < |items| && Collect(items[..i], read) == Ok(m)
    ensures read(items[i]).None? ==> Collect(items[..i + 1], read) == Err(items[i])
    ensures read(items[i]).Some? ==> Collect(items[..i + 1], read) == Ok(m[read(items[i]).value.0 := read(items[i]).value.1])
  {
    assert items[..i + 1][..i] == items[..i];
  }

  /** "key=value" reads as the entry (key, value) when the key has no '='. */
  lemma ReadQueryPair(k: string, v: string)
    requires '=' !in k
    ensures ReadQuery(k + "=" + v) == Some((k, v))
  {
    Text.SplitOnceAt(k + "=" + v, k, v, '=');
  }

  /** Collecting fails exactly when some item does not read, and then names the first such item. */
  lemma CollectErrors(items: seq<string>, read: Reader, k: nat)
    ensures Collect(items, read).Ok? <==> forall i :: 0 <= i < |items| ==> read(items[i]).Some?
    ensures k < |items| && read(items[k]).None? && (forall i :: 0 <= i < k ==> read(items[i]).Some?)
      ==> Collect(items, read) == Err(items[k])
  {
    CollectOk(items, read);
    if k < |items| && read(items[k]).None? && (forall i :: 0 <= i < k ==> read(items[i]).Some?) {
      CollectFirstBad(items, read, k);
    }
  }

  /** `parse_headers` fails exactly when some line has no ':', naming the first such line. */
  lemma HeaderErrors(b: RequestBuilder, k: nat)
    ensures HeaderMap(b).Ok? <==> forall i :: 0 <= i < |b.headers| ==> ':' in b.headers[i]
    ensures k < |b.headers| && ':' !in b.headers[k] && (forall i :: 0 <= i < k ==> ':' in b.headers[i])
      ==> HeaderMap(b) == Err(HeaderError(b.headers[k]))
  {
    CollectErrors(b.headers, ReadHeader, k);
  }

  /** `parse_query_params` fails exactly when some item has no '=', naming the first such item. */
  lemma QueryErrors(b: RequestBuilder, l: nat)
    ensures QueryMap(b).Ok? <==> forall i :: 0 <= i < |b.queryParams| ==> '=' in b.queryParams[i]
    ensures l < |b.queryParams| && '=' !in b.queryParams[l] && (forall i :: 0 <= i < l ==> '=' in b.queryParams[i])
      ==> QueryMap(b) == Err(QueryError(b.queryParams[l]))
  {
    CollectErrors(b.queryParams, ReadQuery, l);
  }

  /**
   * On success the query map holds a key exactly when some item has that key
   * before its first '=', with the value of the last such item.
   */
  lemma QueryLastWins(b: RequestBuilder, key: string)
    requires QueryMap(b).Ok?
    ensures key in QueryMap(b).value <==> exists i :: LastFor(b.queryParams, ReadQuery, i, key)
    ensures forall i :: LastFor(b.queryParams, ReadQuery, i, key) ==> QueryMap(b).value[key] == ReadQuery(b.queryParams[i]).value.1
  {
    CollectLastWins(b.queryParams, ReadQuery, key);
  }

  /**
   * On success the header map holds a name exactly when some line's trimmed,
   * lower-cased name is it, with the trimmed value of the last such line.
   */
  lemma HeaderLastWins(b: RequestBuilder, name: string)
    requires HeaderMap(b).Ok?
    ensures name in HeaderMap(b).value <==> exists i :: LastFor(b.headers, ReadHeader, i, name)
    ensures forall i :: LastFor(b.headers, ReadHeader, i, name) ==> HeaderMap(b).value[name] == ReadHeader(b.headers[i]).value.1
  {
    CollectLastWins(b.headers, ReadHeader, name);
  }
}
