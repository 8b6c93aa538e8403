/**
 * HTTP Basic authentication (section 2 of RFC 7617): the credentials
 * "user:password", as UTF-8 bytes, in the base64 of section 4 of RFC 4648.
 */
module BasicAuth {
  import opened Wrappers
  import Text
  import Utf8
  import Base64

  datatype BasicAuth = BasicAuth(username: string, password: string)

  function Credentials(a: BasicAuth): string {
    a.username + ":" + a.password
  }

  /** `BasicAuth::encode`: the base64 of the credentials' UTF-8 bytes, which decodes back to them. */
  function Encode(a: BasicAuth): (r: string)
    ensures Base64.Decode(r) == Some(Utf8.Encode(Credentials(a)))
  {
    Base64.DecodeEncode(Utf8.Encode(Credentials(a)));
    Base64.Encode(Utf8.Encode(Credentials(a)))
  }

  /** The header line `apply_to_headers` pushes. */
  function Header(a: BasicAuth): string {
    "Authorization:Basic " + Encode(a)
  }

  /** `BasicAuth::apply_to_headers`: exactly one header is appended, the earlier ones are kept. */
  function ApplyToHeaders(a: BasicAuth, headers: seq<string>): (r: seq<string>)
    ensures |r| == |headers| + 1 && r[..|headers|] == headers
    ensures Text.StripPrefix(r[|headers|], "Authorization:Basic ") == Some(Encode(a))
  {
    headers + [Header(a)]
  }

  /** What `from_header` decodes: the value without a leading "Basic ", or the whole value. */
  function Payload(h: string): (p: string)
    ensures Text.IsPrefix("Basic ", h) ==> h == "Basic " + p
    ensures !Text.IsPrefix("Basic ", h) ==> p == h
  {
    match Text.StripPrefix(h, "Basic ")
    case Some(e) => e
    case None => h
  }

  /**
   * `BasicAuth::from_header`. `as_bytes` of a non-ASCII character yields
   * bytes outside the base64 alphabet, so decoding the characters is the
   * same as decoding their bytes.
   */
  function FromHeader(h: string): (r: Option<BasicAuth>)
    ensures r.Some? ==> ':' !in r.value.username
    ensures r.Some? <==>
      exists bytes :: Base64.Decode(Payload(h)) == Some(bytes) && Utf8.Decode(bytes).Some? && ':' in Utf8.Decode(bytes).value
  {
    match Base64.Decode(Payload(h))
    case None => None
    case Some(bytes) =>
      match Utf8.Decode(bytes)
      case None => None
      case Some(s) =>
        match Text.SplitOnce(s, ':')
        case None => None
        case Some((u, p)) => Some(BasicAuth(u, p))
  }

  /** A header the encoder wrote is never taken for one with the "Basic " prefix. */
  lemma EncodeUnprefixed(a: BasicAuth)
    ensures !Text.IsPrefix("Basic ", Encode(a))
  {
    var e := Encode(a);
    Base64.EncodeAlphabet(Utf8.Encode(Credentials(a)));
    assert |e| >= 6 ==> e[..6][5] == e[5] && Base64.CharCode(e[5]).Some?;
  }

  /**
   * With "Basic " or without it, decoding what the encoder wrote gives the
   * credentials back, provided the username has no ':' (the split is at
   * the first one).
   */
  lemma FromHeaderEncode(a: BasicAuth)
    requires ':' !in a.username
    ensures FromHeader("Basic " + Encode(a)) == Some(a)
    ensures FromHeader(Encode(a)) == Some(a)
  {
    var h := "Basic " + Encode(a);
    assert h[..6] == "Basic ";
    assert Text.StripPrefix(h, "Basic ") == Some(Encode(a));
    EncodeUnprefixed(a);
    Utf8.DecodeEncode(Credentials(a));
    Text.SplitOnceAt(Credentials(a), a.username, a.password, ':');
  }

  /** A header whose payload is the base64 of a text's UTF-8 bytes yields that text split at its first ':'. */
  lemma FromHeaderOfText(h: string, s: string)
    requires Base64.Decode(Payload(h)) == Some(Utf8.Encode(s))
    ensures FromHeader(h) == match Text.SplitOnce(s, ':')
      case None => None
      case Some((u, p)) => Some(BasicAuth(u, p))
  {
    Utf8.DecodeEncode(s);
  }

  /** Putting the credentials of a username with a ':' back together around its first ':'. */
  lemma CredentialsAround(a: BasicAuth, i: nat)
    requires i < |a.username| && a.username[i] == ':'
    ensures Credentials(a) == a.username[..i] + [':'] + (a.username[i + 1..] + ":" + a.password)
  {
    assert a.username == a.username[..i] + [':'] + a.username[i + 1..];
  }

  /** A username with a ':' comes back cut at its first ':'. */
  lemma FromHeaderSplitsAtFirstColon(a: BasicAuth, i: nat)
    requires i < |a.username| && a.username[i] == ':' && ':' !in a.username[..i]
    ensures FromHeader(Encode(a)) == Some(BasicAuth(a.username[..i], a.username[i + 1..] + ":" + a.password))
  {
    EncodeUnprefixed(a);
    FromHeaderOfText(Encode(a), Credentials(a));
    CredentialsAround(a, i);
    Text.SplitOnceAt(Credentials(a), a.username[..i], a.username[i + 1..] + ":" + a.password, ':');
  }

  /** A value that is not a multiple of four characters long, or holds a character outside the alphabet, is refused. */
  lemma FromHeaderRejects(h: string)
    requires |Payload(h)| % 4 != 0 || exists k :: 0 <= k < |Payload(h)| && Base64.CharCode(Payload(h)[k]).None?
    ensures FromHeader(h).None?
  {
  }

  // The three steps of the test vector below, each on one fixed input:
  // the bytes of "user:pass", their 6-bit codes, and the codes' characters.
  // They carry no general weight; `FromHeaderEncode` is the round trip.

  /** Step 1 of the test vector: the UTF-8 bytes of "user:pass". */
  lemma UserPassBytes(s: string)
    requires s == "user:pass"
    ensures Utf8.Encode(s) == [117, 115, 101, 114, 58, 112, 97, 115, 115]
  {
    Utf8.EncodeAscii(s);
  }

  /** Step 2 of the test vector: those nine bytes as twelve 6-bit codes. */
  lemma UserPassCodes(b: seq<Utf8.Byte>)
    requires b == [117, 115, 101, 114, 58, 112, 97, 115, 115]
    ensures Base64.Codes(b) == [29, 23, 13, 37, 28, 35, 41, 48, 24, 23, 13, 51]
  {
    Base64.CodesCons(b);
    Base64.CodesCons(b[3..]);
    Base64.CodesThree(b[6..]);
    assert b[3..][3..] == b[6..];
  }

  /** Step 3 of the test vector: the alphabet characters of those codes. */
  lemma UserPassRender(cs: seq<Base64.Code>)
    requires cs == [29, 23, 13, 37, 28, 35, 41, 48, 24, 23, 13, 51]
    ensures Base64.Render(cs) == "dXNlcjpwYXNz"
  {
  }

  /** The test vector of basic.rs: "user" and "pass" encode to "dXNlcjpwYXNz". */
  lemma EncodeUserPass(a: BasicAuth)
    requires a == BasicAuth("user", "pass")
    ensures Encode(a) == "dXNlcjpwYXNz"
  {
    var b := Utf8.Encode(Credentials(a));
    UserPassBytes(Credentials(a));
    UserPassCodes(b);
    UserPassRender(Base64.Codes(b));
  }
}
