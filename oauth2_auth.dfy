/**
 * OAuth 2.0 client configuration and its access token. Instants are whole
 * seconds on one clock; the current instant `now` is a parameter.
 */
module OAuth2Auth {
  import opened Wrappers

  datatype GrantType = AuthorizationCode | ClientCredentials | Password | RefreshToken | Implicit

  datatype OAuth2Token = OAuth2Token(
    accessToken: string,
    tokenType: string,
    expiresAt: Option<int>,
    refreshToken: Option<string>,
    scopes: seq<string>)

  /** How long before expiry a token asks to be refreshed: five minutes. */
  const REFRESH_MARGIN: int := 5 * 60

  /** `OAuth2Token::new`: no expiry, no refresh token, no scopes. */
  function NewToken(accessToken: string, tokenType: string): (t: OAuth2Token)
    ensures t.accessToken == accessToken && t.tokenType == tokenType
    ensures t.expiresAt.None? && t.refreshToken.None? && t.scopes == []
  {
    OAuth2Token(accessToken, tokenType, None, None, [])
  }

  /** `OAuth2Token::with_expiration`: expires `expiresIn` seconds after `now`. */
  function WithExpiration(t: OAuth2Token, expiresIn: int, now: int): OAuth2Token
  {
    t.(expiresAt := Some(now + expiresIn))
  }

  /** `OAuth2Token::is_expired` */
  predicate IsExpired(t: OAuth2Token, now: int) {
    t.expiresAt.Some? && now >= t.expiresAt.value
  }

  /** `OAuth2Token::needs_refresh`: expired, or expiring within the margin. */
  predicate NeedsRefresh(t: OAuth2Token, now: int) {
    t.expiresAt.Some? && now + REFRESH_MARGIN >= t.expiresAt.value
  }

  /** `OAuth2Token::to_header_value` */
  function ToHeaderValue(t: OAuth2Token): string
  {
    t.tokenType + " " + t.accessToken
  }

  datatype OAuth2Auth = OAuth2Auth(
    grantType: GrantType,
    clientId: string,
    clientSecret: Option<string>,
    authUrl: Option<string>,
    tokenUrl: Option<string>,
    token: Option<OAuth2Token>,
    scopes: seq<string>)

  /** `OAuth2Auth::new`: nothing but the grant type and the client id. */
  function New(grantType: GrantType, clientId: string): (a: OAuth2Auth)
    ensures a.grantType == grantType && a.clientId == clientId
    ensures a.clientSecret.None? && a.authUrl.None? && a.tokenUrl.None? && a.token.None? && a.scopes == []
  {
    OAuth2Auth(grantType, clientId, None, None, None, None, [])
  }

  /** `OAuth2Auth::is_valid`: a token is present and has not expired. */
  predicate IsValid(a: OAuth2Auth, now: int) {
    a.token.Some? && !IsExpired(a.token.value, now)
  }

  /** `OAuth2Auth::apply_to_headers`: the token's header when it is valid, nothing otherwise. */
  function ApplyToHeaders(a: OAuth2Auth, headers: seq<string>, now: int): (r: seq<string>)
    ensures |r| == |headers| || |r| == |headers| + 1
    ensures r[..|headers|] == headers
    ensures |r| == |headers| + 1 <==> IsValid(a, now)
    ensures IsValid(a, now) ==> r[|headers|] == "Authorization:" + ToHeaderValue(a.token.value)
  {
    if IsValid(a, now) then headers + ["Authorization:" + ToHeaderValue(a.token.value)] else headers
  }

  /** `PartialEq for OAuth2Auth`: grant type, client id and client secret; the rest is ignored. */
  predicate Eq(a: OAuth2Auth, b: OAuth2Auth) {
    a.grantType == b.grantType && a.clientId == b.clientId && a.clientSecret == b.clientSecret
  }

  // ---- Properties

  /** A token without an expiry never expires and never asks for a refresh. */
  lemma NoExpiry(t: OAuth2Token, now: int)
    requires t.expiresAt.None?
    ensures !IsExpired(t, now) && !NeedsRefresh(t, now)
  {
  }

  /** An expired token always needs a refresh, and a token that needs none is still valid five minutes on. */
  lemma ExpiredNeedsRefresh(t: OAuth2Token, now: int)
    ensures IsExpired(t, now) ==> NeedsRefresh(t, now)
    ensures !NeedsRefresh(t, now) ==> !IsExpired(t, now + REFRESH_MARGIN)
  {
  }

  /** Right after `with_expiration(n)`, the token is expired iff n <= 0 and needs a refresh iff n <= 300. */
  lemma FreshExpiration(t: OAuth2Token, n: int, now: int)
    ensures IsExpired(WithExpiration(t, n, now), now) <==> n <= 0
    ensures NeedsRefresh(WithExpiration(t, n, now), now) <==> n <= REFRESH_MARGIN
  {
  }

  /** Expiry is monotone in time: once expired, a token stays expired. */
  lemma ExpiryMonotone(t: OAuth2Token, now: int, later: int)
    requires now <= later && IsExpired(t, now)
    ensures IsExpired(t, later) && NeedsRefresh(t, later)
  {
  }

  /** The equality is an equivalence that ignores the token, the URLs and the scopes. */
  lemma EqIsEquivalence(a: OAuth2Auth, b: OAuth2Auth, c: OAuth2Auth, t: Option<OAuth2Token>)
    ensures Eq(a, a)
    ensures Eq(a, b) ==> Eq(b, a)
    ensures Eq(a, b) && Eq(b, c) ==> Eq(a, c)
    ensures Eq(a, a.(token := t, authUrl := None, tokenUrl := None, scopes := []))
  {
  }
}
