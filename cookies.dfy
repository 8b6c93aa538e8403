/**
 * Cookies: the value a `Set-Cookie` line parses into, the `name=value`
 * item it contributes to a `Cookie` request header, and the jar that keeps
 * one cookie per name.
 *
 * Expiry times are whole seconds and the current time is passed in.
 */
module Cookies {
  import opened Wrappers
  import Text

  datatype Cookie = Cookie(
    name: string,
    value: string,
    domain: Option<string>,
    path: Option<string>,
    expires: Option<int>,
    httpOnly: bool,
    secure: bool,
    sameSite: Option<string>)

  /** `Cookie::new`: no attributes. */
  function NewCookie(name: string, value: string): (c: Cookie)
    ensures c.name == name && c.value == value
    ensures c.domain.None? && c.path.None? && c.expires.None? && c.sameSite.None?
    ensures !c.httpOnly && !c.secure
  {
    Cookie(name, value, None, None, None, false, false, None)
  }

  /** `with_domain` */
  function WithDomain(c: Cookie, d: string): (r: Cookie)
    ensures r.domain == Some(d) && r.(domain := c.domain) == c
  {
    c.(domain := Some(d))
  }

  /** `with_path` */
  function WithPath(c: Cookie, p: string): (r: Cookie)
    ensures r.path == Some(p) && r.(path := c.path) == c
  {
    c.(path := Some(p))
  }

  /** `with_expires` */
  function WithExpires(c: Cookie, t: int): (r: Cookie)
    ensures r.expires == Some(t) && r.(expires := c.expires) == c
  {
    c.(expires := Some(t))
  }

  /** `is_expired`: never without an expiry; otherwise strictly before `now`. */
  function IsExpired(c: Cookie, now: int): (b: bool)
    ensures b <==> c.expires.Some? && c.expires.value < now
  {
    match c.expires
    case None => false
    case Some(t) => t < now
  }

  /** `to_header`: the `name=value` item of a `Cookie` request header. */
  function ToHeader(c: Cookie): (s: string)
    ensures '=' !in c.name ==> Text.SplitOnce(s, '=') == Some((c.name, c.value))
    ensures |s| == |c.name| + 1 + |c.value|
  {
    var s := c.name + "=" + c.value;
    assert '=' !in c.name ==> Text.SplitOnce(s, '=') == Some((c.name, c.value)) by {
      if '=' !in c.name {
        Text.SplitOnceAt(s, c.name, c.value, '=');
      }
    }
    s
  }

  /** The text before the first `;`: where the name and value are. */
  function Head(header: string): (h: string)
    ensures ';' !in h && Text.IsPrefix(h, header)
  {
    var parts := Text.Split(header, ';');
    assert parts == [parts[0]] + parts[1..];
    JoinHead(parts, ";");
    parts[0]
  }

  /** The join of pieces starts with the first piece. */
  lemma {:induction false} JoinHead(parts: seq<string>, sep: string)
    requires |parts| >= 1
    ensures Text.IsPrefix(parts[0], Text.Join(parts, sep))
  {
    if |parts| > 1 {
      var j := Text.Join(parts, sep);
      assert j == parts[0] + (sep + Text.Join(parts[1..], sep));
      assert j[..|parts[0]|] == parts[0];
    }
  }

  /**
   * The lower-cased name of an attribute segment: its text before the first
   * `=`, trimmed. The program lower-cases with full Unicode rules; the only
   * character outside ASCII that lower-cases into ASCII is the Kelvin sign
   * (to `k`), and no attribute the parser knows contains a `k`, so ASCII
   * folding recognises exactly the same attributes.
   */
  function AttrName(part: string): string {
    Text.AsciiLowerStr(Text.Trim(Text.Split(part, '=')[0]))
  }

  /** The attribute's value: the trimmed text between the first and the second `=`, if there is a first. */
  function AttrValue(part: string): (v: Option<string>)
    ensures v.Some? <==> '=' in part
  {
    var attr := Text.Split(part, '=');
    if |attr| > 1 then Some(Text.Trim(attr[1]))
    else
      assert attr == [part];
      None
  }

  /** The attributes that carry a value. */
  datatype Key = Domain | Path | SameSite

  /** What one attribute segment means to the parser. */
  datatype Attr = Valued(key: Key, v: string) | HttpOnly | Secure | Ignored

  /** Reads a segment: Domain, Path and SameSite only count with a value; unknown names are ignored. */
  function ReadAttr(part: string): (a: Attr)
    ensures a.Valued? ==> AttrValue(part) == Some(a.v)
    ensures a == HttpOnly <==> AttrName(part) == "httponly"
    ensures a == Secure <==> AttrName(part) == "secure"
  {
    var n := AttrName(part);
    var v := AttrValue(part);
    if n == "domain" && v.Some? then Valued(Domain, v.value)
    else if n == "path" && v.Some? then Valued(Path, v.value)
    else if n == "httponly" then HttpOnly
    else if n == "secure" then Secure
    else if n == "samesite" && v.Some? then Valued(SameSite, v.value)
    else Ignored
  }

  /** Every segment read. */
  function ReadAll(parts: seq<string>): (r: seq<Attr>)
    ensures |r| == |parts| && forall i :: 0 <= i < |parts| ==> r[i] == ReadAttr(parts[i])
  {
    seq(|parts|, i requires 0 <= i < |parts| => ReadAttr(parts[i]))
  }

  /** The effect of one attribute on the cookie being parsed. */
  function ApplyAttr(c: Cookie, a: Attr): Cookie {
    match a
    case Valued(Domain, v) => c.(domain := Some(v))
    case Valued(Path, v) => c.(path := Some(v))
    case Valued(SameSite, v) => c.(sameSite := Some(v))
    case HttpOnly => c.(httpOnly := true)
    case Secure => c.(secure := true)
    case Ignored => c
  }

  /** The attributes applied in order. */
  function ApplyAttrs(c: Cookie, attrs: seq<Attr>): Cookie {
    if attrs == [] then c
    else ApplyAttr(ApplyAttrs(c, attrs[..|attrs| - 1]), attrs[|attrs| - 1])
  }

  predicate IsValued(a: Attr, k: Key) {
    a.Valued? && a.key == k
  }

  /** The value of the last attribute with key `k`. */
  function LastValue(attrs: seq<Attr>, k: Key): (r: Option<string>)
    ensures r.Some? ==>
      exists i :: 0 <= i < |attrs| && attrs[i] == Valued(k, r.value) && (forall j :: i < j < |attrs| ==> !IsValued(attrs[j], k))
    ensures r.None? ==> forall i :: 0 <= i < |attrs| ==> !IsValued(attrs[i], k)
  {
    if attrs == [] then None
    else
      var i := |attrs| - 1;
      if IsValued(attrs[i], k) then Some(attrs[i].v)
      else
        var r := LastValue(attrs[..i], k);
        assert forall j :: 0 <= j < i ==> attrs[..i][j] == attrs[j];
        r
  }

  /** The value a cookie ends with for key `k`: the last one given, else what it had. */
  function Final(had: Option<string>, attrs: seq<Attr>, k: Key): Option<string> {
    if LastValue(attrs, k).Some? then LastValue(attrs, k) else had
  }

  /** The field an attribute key sets. */
  function Field(c: Cookie, k: Key): Option<string> {
    match k
    case Domain => c.domain
    case Path => c.path
    case SameSite => c.sameSite
  }

  /** One more attribute at the end of the list is applied last. */
  lemma ApplyAttrsSnoc(c: Cookie, attrs: seq<Attr>, i: nat)
    requires i < |attrs|
    ensures ApplyAttrs(c, attrs[..i + 1]) == ApplyAttr(ApplyAttrs(c, attrs[..i]), attrs[i])
  {
    assert attrs[..i + 1][..i] == attrs[..i];
  }

  /** The value an attribute key ends up with: the last one given, else the starting one. */
  lemma {:induction false} ApplyAttrsKey(c: Cookie, attrs: seq<Attr>, k: Key)
    ensures Field(ApplyAttrs(c, attrs), k) == Final(Field(c, k), attrs, k)
  {
    if attrs != [] {
      ApplyAttrsKey(c, attrs[..|attrs| - 1], k);
    }
  }

  /** The flags end up set exactly when they were set or named by some attribute; name, value and expiry never change. */
  lemma {:induction false} ApplyAttrsFlags(c: Cookie, attrs: seq<Attr>)
    ensures var r := ApplyAttrs(c, attrs);
      r.name == c.name && r.value == c.value && r.expires == c.expires
      && (r.httpOnly <==> c.httpOnly || HttpOnly in attrs)
      && (r.secure <==> c.secure || Secure in attrs)
  {
    if attrs != [] {
      var i := |attrs| - 1;
      var init := attrs[..i];
      ApplyAttrsFlags(c, init);
      assert attrs == init + [attrs[i]];
    }
  }

  /**
   * Domain, Path and SameSite take the value of their last occurrence,
   * HttpOnly and Secure are set by any occurrence, and name, value and
   * expiry are never touched.
   */
  lemma ApplyAttrsEffect(c: Cookie, attrs: seq<Attr>)
    ensures var r := ApplyAttrs(c, attrs);
      r.name == c.name && r.value == c.value && r.expires == c.expires
      && r.domain == Final(c.domain, attrs, Domain)
      && r.path == Final(c.path, attrs, Path)
      && r.sameSite == Final(c.sameSite, attrs, SameSite)
      && (r.httpOnly <==> c.httpOnly || HttpOnly in attrs)
      && (r.secure <==> c.secure || Secure in attrs)
  {
    ApplyAttrsKey(c, attrs, Domain);
    ApplyAttrsKey(c, attrs, Path);
    ApplyAttrsKey(c, attrs, SameSite);
    ApplyAttrsFlags(c, attrs);
  }


  /** `Cookie::from_header` as a value: None unless the head holds exactly one `=`. */
  function ParseCookie(header: string): (r: Option<Cookie>)
    ensures r.Some? <==> Text.CountChar(Head(header), '=') == 1
    ensures r.Some? ==>
      var (a, b) := Text.SplitOnce(Head(header), '=').value;
      r.value == ApplyAttrs(NewCookie(Text.Trim(a), Text.Trim(b)), ReadAll(Text.Split(header, ';')[1..]))
  {
    var parts := Text.Split(header, ';');
    var nv := Text.Split(parts[0], '=');
    SplitCount(parts[0], '=');
    if |nv| != 2 then None
    else
      TwoPieces(parts[0], '=');
      Some(ApplyAttrs(NewCookie(Text.Trim(nv[0]), Text.Trim(nv[1])), ReadAll(parts[1..])))
  }

  /** A text splits into one piece more than it has separators. */
  lemma {:induction false} SplitCount(s: string, c: char)
    ensures |Text.Split(s, c)| == Text.CountChar(s, c) + 1
    decreases |s|
  {
    match Text.SplitOnce(s, c)
    case None =>
    case Some((a, b)) =>
      SplitCount(b, c);
      Text.CountCharAppend(a + [c], b, c);
      Text.CountCharAppend(a, [c], c);
  }

  /** Two pieces are what `split_once` gives. */
  lemma TwoPieces(s: string, c: char)
    requires |Text.Split(s, c)| == 2
    ensures Text.SplitOnce(s, c) == Some((Text.Split(s, c)[0], Text.Split(s, c)[1]))
  {
    var (a, b) := Text.SplitOnce(s, c).value;
    if c !in b {
      Text.SplitNoSeparator(b, c);
    }
  }

  /**
   * `Cookie::from_header`: the name and value come from the head, the
   * attribute segments are read and applied one by one.
   */
  method FromHeader(header: string) returns (r: Option<Cookie>)
    ensures r == ParseCookie(header)
  {
    var parts := Text.Split(header, ';');
    var nameValue := Text.Split(parts[0], '=');
    if |nameValue| != 2 {
      return None;
    }
    var cookie := NewCookie(Text.Trim(nameValue[0]), Text.Trim(nameValue[1]));
    cookie := ApplyEach(cookie, parts[1..]);
    r := Some(cookie);
  }

  /** The loop of `from_header` over the attribute segments. */
  method ApplyEach(start: Cookie, rest: seq<string>) returns (cookie: Cookie)
    ensures cookie == ApplyAttrs(start, ReadAll(rest))
  {
    cookie := start;
    ghost var attrs := ReadAll(rest);
    var i := 0;
    while i < |rest|
      invariant 0 <= i <= |rest|
      invariant cookie == ApplyAttrs(start, attrs[..i])
    {
      ApplyAttrsSnoc(start, attrs, i);
      cookie := ApplyAttr(cookie, ReadAttr(rest[i]));
      i := i + 1;
    }
    assert attrs[..i] == attrs;
  }

  /** A `name=value` item without `;` is its own head, with one `=` and no attribute segments. */
  lemma PlainItem(name: string, value: string)
    requires '=' !in name && ';' !in name && '=' !in value && ';' !in value
    ensures var s := name + "=" + value;
      Head(s) == s && Text.CountChar(s, '=') == 1 && Text.Split(s, ';')[1..] == []
  {
    var s := name + "=" + value;
    assert ';' !in s;
    Text.SplitNoSeparator(s, ';');
    Text.CountCharAppend(name, "=", '=');
    Text.CountCharAppend(name + "=", value, '=');
  }

  /** A header without `;` and with a single `=` is read back as a plain cookie. */
  lemma RoundTrip(c: Cookie)
    requires '=' !in c.name && ';' !in c.name && '=' !in c.value && ';' !in c.value
    requires Text.Trim(c.name) == c.name && Text.Trim(c.value) == c.value
    ensures ParseCookie(ToHeader(c)) == Some(NewCookie(c.name, c.value))
  {
    var s := ToHeader(c);
    PlainItem(c.name, c.value);
    assert ReadAll([]) == [];
  }

  /** A round trip for names and values with no surrounding whitespace. */
  lemma RoundTripNoEdges(name: string, value: string)
    requires '=' !in name && ';' !in name && '=' !in value && ';' !in value
    requires name == [] || (!Text.IsWhitespace(name[0]) && !Text.IsWhitespace(name[|name| - 1]))
    requires value == [] || (!Text.IsWhitespace(value[0]) && !Text.IsWhitespace(value[|value| - 1]))
    ensures ParseCookie(ToHeader(NewCookie(name, value))) == Some(NewCookie(name, value))
  {
    Text.TrimNoEdges(name);
    Text.TrimNoEdges(value);
    RoundTrip(NewCookie(name, value));
  }

  /** A head without `=` and one with two are both rejected: "a" and "a=b=c". */
  lemma RejectsBadHead()
    ensures ParseCookie("a").None?
    ensures ParseCookie("a=b=c").None?
  {
    Text.SplitNoSeparator("a", ';');
    Text.SplitNoSeparator("a=b=c", ';');
    Text.CountCharAppend("a=", "b=c", '=');
    assert "a=b=c" == "a=" + "b=c";
  }

  /** `for_domain`'s filter: no domain, or a domain the queried one ends with. */
  predicate DomainMatches(c: Cookie, domain: string) {
    c.domain.None? || Text.IsSuffix(c.domain.value, domain)
  }

  /** Every piece of a join occurs in it. */
  lemma {:induction false} JoinContains(items: seq<string>, sep: string, k: nat)
    requires k < |items|
    ensures Text.Contains(Text.Join(items, sep), items[k])
  {
    var j := Text.Join(items, sep);
    if |items| == 1 {
      assert Text.OccursAt(j, items[0], 0);
    } else if k == 0 {
      assert j == items[0] + (sep + Text.Join(items[1..], sep));
      assert Text.OccursAt(j, items[0], 0);
    } else {
      var tail := Text.Join(items[1..], sep);
      var sub := items[k];
      JoinContains(items[1..], sep, k - 1);
      assert items[1..][k - 1] == sub;
      assert Text.Contains(tail, sub);
      var i :| 0 <= i <= |tail| - |sub| && Text.OccursAt(tail, sub, i);
      var off := |items[0]| + |sep|;
      assert j == (items[0] + sep) + tail;
      assert j[off + i..off + i + |sub|] == tail[i..i + |sub|];
      assert Text.OccursAt(j, sub, off + i);
    }
  }

  /** The `name=value` items of a list of cookies. */
  function HeaderItems(cs: seq<Cookie>): (r: seq<string>)
    ensures |r| == |cs| && forall i :: 0 <= i < |cs| ==> r[i] == ToHeader(cs[i])
  {
    if cs == [] then [] else [ToHeader(cs[0])] + HeaderItems(cs[1..])
  }

  /** `cookie_header` over a listing: nothing for no cookies, else the items joined by "; ". */
  function HeaderFor(cs: seq<Cookie>): (r: Option<string>)
    ensures r.None? <==> cs == []
    ensures r.Some? ==> r.value == Text.Join(HeaderItems(cs), "; ")
    ensures r.Some? ==> forall i :: 0 <= i < |cs| ==> Text.Contains(r.value, ToHeader(cs[i]))
  {
    if cs == [] then None
    else
      var items := HeaderItems(cs);
      forall i | 0 <= i < |cs| ensures Text.Contains(Text.Join(items, "; "), ToHeader(cs[i])) {
        JoinContains(items, "; ", i);
      }
      Some(Text.Join(items, "; "))
  }

  /** What `add_from_headers` takes from one header: a parsable `Set-Cookie` line, any case. */
  function SetCookieOf(h: (string, string)): (r: Option<Cookie>)
    ensures r.Some? <==> Text.EqIgnoreAsciiCase(h.0, "set-cookie") && ParseCookie(h.1).Some?
    ensures r.Some? ==> r == ParseCookie(h.1)
  {
    if Text.EqIgnoreAsciiCase(h.0, "set-cookie") then ParseCookie(h.1) else None
  }

  /** The jar after the cookies a list of headers sets, read by `read`, the later one winning per name. */
  function SetFrom(m: map<string, Cookie>, headers: seq<(string, string)>, read: ((string, string)) -> Option<Cookie>): map<string, Cookie> {
    if headers == [] then m
    else
      var before := SetFrom(m, headers[..|headers| - 1], read);
      match read(headers[|headers| - 1])
      case None => before
      case Some(c) => before[c.name := c]
  }

  /**
   * After reading a list of headers, a name is in the jar exactly when it
   * was before or some header set it, and a stored cookie is the old one or
   * the one the last header naming it set.
   */
  lemma {:induction false} SetFromSources(m: map<string, Cookie>, headers: seq<(string, string)>, read: ((string, string)) -> Option<Cookie>, n: string)
    ensures n in SetFrom(m, headers, read) <==>
      n in m || exists i :: 0 <= i < |headers| && read(headers[i]).Some? && read(headers[i]).value.name == n
    ensures n in SetFrom(m, headers, read) ==>
      (n in m && SetFrom(m, headers, read)[n] == m[n])
      || exists i :: 0 <= i < |headers| && read(headers[i]) == Some(SetFrom(m, headers, read)[n])
  {
    if headers != [] {
      var k := |headers| - 1;
      var init := headers[..k];
      SetFromSources(m, init, read, n);
      assert forall i :: 0 <= i < k ==> init[i] == headers[i];
    }
  }

  /** Every cookie in the result is stored under its own name, if every old one was. */
  lemma {:induction false} SetFromKeyed(m: map<string, Cookie>, headers: seq<(string, string)>, read: ((string, string)) -> Option<Cookie>)
    requires forall n :: n in m ==> m[n].name == n
    ensures var r := SetFrom(m, headers, read); forall n :: n in r ==> r[n].name == n
  {
    if headers != [] {
      var init := headers[..|headers| - 1];
      SetFromKeyed(m, init, read);
      var last := read(headers[|headers| - 1]);
      if last.Some? {
        assert SetFrom(m, headers, read) == SetFrom(m, init, read)[last.value.name := last.value];
      } else {
        assert SetFrom(m, headers, read) == SetFrom(m, init, read);
      }
    }
  }

  /** The cookie a response header sets: parsed from its value when its name is Set-Cookie in any case. */
  method ReadSetCookie(h: (string, string)) returns (r: Option<Cookie>)
    ensures r == SetCookieOf(h)
  {
    var (name, value) := h;
    if Text.EqIgnoreAsciiCase(name, "set-cookie") {
      r := FromHeader(value);
    } else {
      r := None;
    }
  }

  /** One more header at the end of the list is read last. */
  lemma SetFromStep(m: map<string, Cookie>, headers: seq<(string, string)>, i: nat, read: ((string, string)) -> Option<Cookie>)
    requires i < |headers|
    ensures SetFrom(m, headers[..i + 1], read)
      == match read(headers[i])
         case None => SetFrom(m, headers[..i], read)
         case Some(c) => SetFrom(m, headers[..i], read)[c.name := c]
  {
    assert headers[..i + 1][..i] == headers[..i];
  }

  /** `CookieJar`: at most one cookie per name. */
  class CookieJar {
    var cookies: map<string, Cookie>

    /** Every cookie is stored under its own name. */
    ghost predicate Valid()
      reads this
    {
      forall n :: n in cookies ==> cookies[n].name == n
    }

    /** `CookieJar::new`: empty. */
    constructor ()
      ensures cookies == map[] && Valid()
    {
      cookies := map[];
    }

    /** `add`: stored under its name, replacing an earlier cookie of that name. */
    method Add(c: Cookie)
      modifies this
      requires Valid()
      ensures cookies == old(cookies)[c.name := c]
      ensures Valid()
    {
      cookies := cookies[c.name := c];
    }

    /** `get` */
    function Get(name: string): (r: Option<Cookie>)
      reads this
      ensures r.Some? <==> name in cookies
      ensures r.Some? ==> r.value == cookies[name] && (Valid() ==> r.value.name == name)
    {
      if name in cookies then Some(cookies[name]) else None
    }

    /** `remove`: the cookie that was there; only that name goes. */
    method Remove(name: string) returns (r: Option<Cookie>)
      modifies this
      requires Valid()
      ensures r == (if name in old(cookies) then Some(old(cookies)[name]) else None)
      ensures cookies == old(cookies) - {name}
      ensures Valid()
    {
      r := Get(name);
      cookies := cookies - {name};
    }

    /** `remove_expired`: keeps exactly the cookies not expired at `now`. */
    method RemoveExpired(now: int)
      modifies this
      requires Valid()
      ensures forall n :: n in cookies <==> n in old(cookies) && !IsExpired(old(cookies)[n], now)
      ensures forall n :: n in cookies ==> cookies[n] == old(cookies)[n]
      ensures Valid()
    {
      cookies := map n | n in cookies && !IsExpired(cookies[n], now) :: cookies[n];
    }

    /**
     * `for_domain`: the matching cookies, each once, in the map's own
     * order; the listing names every matching cookie and no other.
     */
    method ForDomain(domain: string) returns (r: seq<Cookie>)
      requires Valid()
      ensures forall i :: 0 <= i < |r| ==> r[i].name in cookies && cookies[r[i].name] == r[i] && DomainMatches(r[i], domain)
      ensures forall n :: n in cookies && DomainMatches(cookies[n], domain) ==> cookies[n] in r
      ensures forall i, j :: 0 <= i < j < |r| ==> r[i].name != r[j].name
    {
      r := [];
      var todo := cookies.Keys;
      while todo != {}
        invariant todo <= cookies.Keys
        invariant forall i :: 0 <= i < |r| ==> r[i].name in cookies && r[i].name !in todo
        invariant forall i :: 0 <= i < |r| ==> cookies[r[i].name] == r[i] && DomainMatches(r[i], domain)
        invariant forall n :: n in cookies && n !in todo && DomainMatches(cookies[n], domain) ==> cookies[n] in r
        invariant forall i, j :: 0 <= i < j < |r| ==> r[i].name != r[j].name
        decreases |todo|
      {
        var n :| n in todo;
        if DomainMatches(cookies[n], domain) {
          r := r + [cookies[n]];
        }
        todo := todo - {n};
      }
    }

    /**
     * `cookie_header`: nothing when no cookie matches the domain, else the
     * `name=value` items of the matching cookies, each once and in the order
     * `for_domain` lists them (`cs`), joined by "; ".
     */
    method CookieHeader(domain: string) returns (r: Option<string>, ghost cs: seq<Cookie>)
      requires Valid()
      ensures forall i :: 0 <= i < |cs| ==> cs[i].name in cookies && cookies[cs[i].name] == cs[i] && DomainMatches(cs[i], domain)
      ensures forall n :: n in cookies && DomainMatches(cookies[n], domain) ==> cookies[n] in cs
      ensures forall i, j :: 0 <= i < j < |cs| ==> cs[i].name != cs[j].name
      ensures r == HeaderFor(cs)
      ensures r.None? <==> forall n :: n in cookies ==> !DomainMatches(cookies[n], domain)
      ensures r.Some? ==> forall n :: n in cookies && DomainMatches(cookies[n], domain) ==>
        Text.Contains(r.value, ToHeader(cookies[n]))
    {
      var found := ForDomain(domain);
      r := HeaderFor(found);
      cs := found;
      if r.Some? {
        forall n | n in cookies && DomainMatches(cookies[n], domain)
          ensures Text.Contains(r.value, ToHeader(cookies[n]))
        {
          var i :| 0 <= i < |cs| && cs[i] == cookies[n];
        }
      }
    }

    /** `add_from_headers`: every parsable `Set-Cookie` line, in order. */
    method AddFromHeaders(headers: seq<(string, string)>)
      modifies this
      requires Valid()
      ensures cookies == SetFrom(old(cookies), headers, SetCookieOf)
      ensures Valid()
    {
      ghost var m := cookies;
      var i := 0;
      while i < |headers|
        invariant 0 <= i <= |headers|
        invariant cookies == SetFrom(m, headers[..i], SetCookieOf)
        invariant Valid()
      {
        SetFromStep(m, headers, i, SetCookieOf);
        var c := ReadSetCookie(headers[i]);
        if c.Some? {
          Add(c.value);
        }
        i := i + 1;
      }
      assert headers[..i] == headers;
    }

    /** `clear` */
    method Clear()
      modifies this
      ensures cookies == map[] && Valid()
    {
      cookies := map[];
    }

    /** `count`: the number of distinct names. */
    function Count(): (n: nat)
      reads this
      ensures n == |cookies.Keys|
      ensures n == 0 <==> cookies == map[]
    {
      |cookies|
    }
  }

  /** Adding a cookie counts one more exactly when its name was new. */
  lemma AddCount(m: map<string, Cookie>, c: Cookie)
    ensures |m[c.name := c]| == (if c.name in m then |m| else |m| + 1)
  {
    if c.name in m {
      assert m[c.name := c].Keys == m.Keys;
    } else {
      assert m[c.name := c].Keys == m.Keys + {c.name};
    }
  }
}
