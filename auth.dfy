/** The authentication scheme a request carries, and how it adds itself to the request's headers and query. */
module Auth {
  import BasicAuth
  import BearerAuth
  import ApiKeyAuth
  import OAuth2Auth

  datatype AuthScheme =
    | None
    | Basic(basic: BasicAuth.BasicAuth)
    | Bearer(bearer: BearerAuth.BearerAuth)
    | ApiKey(apiKey: ApiKeyAuth.ApiKeyAuth)
    | OAuth2(oauth2: OAuth2Auth.OAuth2Auth)

  /** `AuthScheme::default()` */
  const Default: AuthScheme := None

  /** `AuthScheme::is_configured` */
  predicate IsConfigured(s: AuthScheme) {
    !s.None?
  }

  /**
   * `AuthScheme::apply` on the caller's header and query lists, returned as
   * the new pair; `now` is the instant an OAuth2 token is checked against.
   * Lists only grow at their end, by one item at most, and only the API-key
   * scheme in query position touches the query list.
   */
  function Apply(s: AuthScheme, headers: seq<string>, query: seq<string>, now: int): (r: (seq<string>, seq<string>))
    ensures |headers| <= |r.0| <= |headers| + 1 && r.0[..|headers|] == headers
    ensures |query| <= |r.1| <= |query| + 1 && r.1[..|query|] == query
    ensures |r.0| + |r.1| <= |headers| + |query| + 1
    ensures s.None? ==> r == (headers, query)
    ensures (s.Basic? || s.Bearer? || s.OAuth2?) ==> r.1 == query
    ensures s.ApiKey? ==> (if s.apiKey.location == ApiKeyAuth.Header then r.1 == query else r.0 == headers)
    ensures (s.Basic? || s.Bearer? || s.ApiKey?) ==> |r.0| + |r.1| == |headers| + |query| + 1
  {
    match s
    case None => (headers, query)
    case Basic(a) => (BasicAuth.ApplyToHeaders(a, headers), query)
    case Bearer(a) => (BearerAuth.ApplyToHeaders(a, headers), query)
    case ApiKey(a) => ApiKeyAuth.Apply(a, headers, query)
    case OAuth2(a) => (OAuth2Auth.ApplyToHeaders(a, headers, now), query)
  }

  /** The default scheme is not configured and adds nothing. */
  lemma DefaultAddsNothing(headers: seq<string>, query: seq<string>, now: int)
    ensures !IsConfigured(Default) && Apply(Default, headers, query, now) == (headers, query)
  {
  }
}
