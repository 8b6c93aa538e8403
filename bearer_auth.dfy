/**
 * Bearer tokens (section 2.1 of RFC 6750), with an optional prefix word
 * before the token.
 */
module BearerAuth {
  import opened Wrappers
  import Text

  datatype BearerAuth = BearerAuth(token: string, prefix: Option<string>)

  /** `BearerAuth::new`: the usual "Bearer" prefix. */
  function New(token: string): (r: BearerAuth)
    ensures r.token == token && r.prefix == Some("Bearer")
  {
    BearerAuth(token, Some("Bearer"))
  }

  /** `BearerAuth::with_prefix` */
  function WithPrefix(token: string, prefix: string): (r: BearerAuth)
    ensures r.token == token && r.prefix == Some(prefix)
  {
    BearerAuth(token, Some(prefix))
  }

  /** `BearerAuth::token_only` */
  function TokenOnly(token: string): (r: BearerAuth)
    ensures r.token == token && r.prefix.None?
  {
    BearerAuth(token, None)
  }

  /** The Authorization value: "<prefix> <token>", or the bare token. */
  function Value(a: BearerAuth): string {
    match a.prefix
    case Some(p) => p + " " + a.token
    case None => a.token
  }

  /** `BearerAuth::apply_to_headers`: exactly one "Authorization:" header is appended. */
  function ApplyToHeaders(a: BearerAuth, headers: seq<string>): (r: seq<string>)
    ensures |r| == |headers| + 1 && r[..|headers|] == headers
    ensures Text.StripPrefix(r[|headers|], "Authorization:") == Some(Value(a))
  {
    var h := "Authorization:" + Value(a);
    assert h[..14] == "Authorization:";
    headers + [h]
  }

  /** `BearerAuth::from_header`: never fails; the text up to the first space is the prefix. */
  function FromHeader(h: string): (r: Option<BearerAuth>)
    ensures r.Some?
    ensures ' ' !in h ==> r == Some(TokenOnly(h))
    ensures r.value.prefix.Some? ==> h == r.value.prefix.value + " " + r.value.token && ' ' !in r.value.prefix.value
  {
    match Text.SplitOnce(h, ' ')
    case Some((p, t)) => Some(WithPrefix(t, p))
    case None => Some(TokenOnly(h))
  }

  /** `BearerAuth::is_jwt`: the token has exactly two dots. */
  predicate IsJwt(a: BearerAuth) {
    Text.CountChar(a.token, '.') == 2
  }

  /**
   * Reading back the value `apply_to_headers` wrote gives the same auth,
   * as long as the prefix (or, without a prefix, the token) has no space.
   */
  lemma FromHeaderValue(a: BearerAuth)
    requires a.prefix.Some? ==> ' ' !in a.prefix.value
    requires a.prefix.None? ==> ' ' !in a.token
    ensures FromHeader(Value(a)) == Some(a)
  {
    if a.prefix.Some? {
      Text.SplitOnceAt(Value(a), a.prefix.value, a.token, ' ');
    }
  }

  /** A bare token with a space is read back as a prefix and a shorter token. */
  lemma FromHeaderSplitsTokenOnly(t: string, i: nat)
    requires i < |t| && t[i] == ' ' && ' ' !in t[..i]
    ensures FromHeader(Value(TokenOnly(t))) == Some(WithPrefix(t[i + 1..], t[..i]))
  {
    assert t == t[..i] + [' '] + t[i + 1..];
    Text.SplitOnceAt(t, t[..i], t[i + 1..], ' ');
  }

  /** Three dot-free segments joined by dots make a JWT-shaped token; a dot-free token is not one. */
  lemma IsJwtSegments(x: string, y: string, z: string, p: Option<string>)
    requires '.' !in x && '.' !in y && '.' !in z
    ensures IsJwt(BearerAuth(x + "." + y + "." + z, p))
    ensures !IsJwt(BearerAuth(x, p))
  {
    Text.CountCharAppend(x + "." + y + ".", z, '.');
    Text.CountCharAppend(x + "." + y, ".", '.');
    Text.CountCharAppend(x + ".", y, '.');
    Text.CountCharAppend(x, ".", '.');
  }
}
