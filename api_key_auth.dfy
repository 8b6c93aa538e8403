/** API keys sent as a named header or a named query parameter. */
module ApiKeyAuth {
  import opened Wrappers
  import Text

  datatype ApiKeyLocation = Header | Query

  datatype ApiKeyAuth = ApiKeyAuth(key: string, name: string, location: ApiKeyLocation)

  /** `ApiKeyAuth::header` */
  function HeaderKey(name: string, key: string): (r: ApiKeyAuth)
    ensures r.location == Header && r.name == name && r.key == key
  {
    ApiKeyAuth(key, name, Header)
  }

  /** `ApiKeyAuth::query` */
  function QueryKey(name: string, key: string): (r: ApiKeyAuth)
    ensures r.location == Query && r.name == name && r.key == key
  {
    ApiKeyAuth(key, name, Query)
  }

  /** `ApiKeyAuth::x_api_key` */
  function XApiKey(key: string): (r: ApiKeyAuth)
    ensures r == HeaderKey("X-API-Key", key)
  {
    HeaderKey("X-API-Key", key)
  }

  /** `ApiKeyAuth::api_key_query` */
  function ApiKeyQuery(key: string): (r: ApiKeyAuth)
    ensures r == QueryKey("api_key", key)
  {
    QueryKey("api_key", key)
  }

  /** `ApiKeyAuth::app_id_header` */
  function AppIdHeader(key: string): (r: ApiKeyAuth)
    ensures r == HeaderKey("X-App-ID", key)
  {
    HeaderKey("X-App-ID", key)
  }

  /**
   * `ApiKeyAuth::apply`: one item is appended to the list the location
   * names, "name:key" for a header and "name=key" for a query parameter;
   * the other list is left alone.
   */
  function Apply(a: ApiKeyAuth, headers: seq<string>, query: seq<string>): (r: (seq<string>, seq<string>))
    ensures a.location == Header ==> r.1 == query && |r.0| == |headers| + 1 && r.0[..|headers|] == headers
    ensures a.location == Header ==> r.0 == headers + [a.name + ":" + a.key]
    ensures a.location == Query ==> r.0 == headers && |r.1| == |query| + 1 && r.1[..|query|] == query
    ensures a.location == Query ==> r.1 == query + [a.name + "=" + a.key]
  {
    match a.location
    case Header =>
      var item := a.name + ":" + a.key;
      (headers + [item], query)
    case Query =>
      var item := a.name + "=" + a.key;
      (headers, query + [item])
  }

  /**
   * The appended item splits back, at its first separator, into the key's
   * name and value, provided the name holds no separator.
   */
  lemma ApplyReadsBack(a: ApiKeyAuth, headers: seq<string>, query: seq<string>)
    ensures a.location == Header && ':' !in a.name ==>
      Text.SplitOnce(Apply(a, headers, query).0[|headers|], ':') == Some((a.name, a.key))
    ensures a.location == Query && '=' !in a.name ==>
      Text.SplitOnce(Apply(a, headers, query).1[|query|], '=') == Some((a.name, a.key))
  {
    if a.location == Header && ':' !in a.name {
      Text.SplitOnceAt(a.name + ":" + a.key, a.name, a.key, ':');
    }
    if a.location == Query && '=' !in a.name {
      Text.SplitOnceAt(a.name + "=" + a.key, a.name, a.key, '=');
    }
  }
}
