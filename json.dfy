/**
 * JSON values as `serde_json::Value` holds them, with integer numbers only.
 * An object keeps its members in the order the map iterates them; `Get`
 * returns the first member with the key. Parsing is the `serde_json` parser,
 * which is not part of this model: it is the `Parser` parameter. Printing,
 * compact and pretty, and the `$.a.b` path extractor of the validator and of
 * the workflow executor are modelled here.
 */
module Json {
  import opened Wrappers
  import Text
  import Maps

  datatype Value =
    | JNull
    | JBool(b: bool)
    | JNumber(n: int)
    | JString(s: string)
    | JArray(items: seq<Value>)
    | JObject(fields: seq<Field>)

  datatype Field = Field(key: string, value: Value)

  /** `serde_json::from_str`: a value, or the parser's error message. */
  type Parser = string -> Result<Value, string>

  /** `Map::get`: the value of the first member named `key`. */
  function Get(fields: seq<Field>, key: string): (r: Option<Value>)
    ensures r.Some? <==> exists i :: 0 <= i < |fields| && fields[i].key == key
  {
    if fields == [] then None
    else if fields[0].key == key then Some(fields[0].value)
    else
      var r := Get(fields[1..], key);
      assert forall i :: 1 <= i < |fields| ==> fields[i].key == fields[1..][i - 1].key;
      r
  }

  // ---- Printing

  function HexDigit(d: nat): (c: char)
    requires d < 16
  {
    if d < 10 then ('0' as int + d) as char else ('a' as int + d - 10) as char
  }

  /**
   * How serde_json writes one character inside a string literal: the two
   * short escapes for the quote and the backslash, the short escapes for
   * backspace, form feed, line feed, carriage return and tab, `\u00xx` with
   * lower-case hex for the other control characters, anything else as is.
   */
  function EscapeChar(c: char): (r: string)
    ensures 1 <= |r| <= 6
    ensures forall k :: 0 <= k < |r| ==> r[k] as int >= 0x20
    ensures |r| == 1 <==> r == [c]
  {
    if c == '"' then "\\\""
    else if c == '\\' then "\\\\"
    else if c == 8 as char then "\\b"
    else if c == 12 as char then "\\f"
    else if c == '\n' then "\\n"
    else if c == '\r' then "\\r"
    else if c == '\t' then "\\t"
    else if (c as int) < 0x20 then
      "\\u00" + [HexDigit(c as int / 16), HexDigit(c as int % 16)]
    else [c]
  }

  /** The body of a string literal: no control character survives, and a plain text is kept as is. */
  function Escape(s: string): (r: string)
    ensures |r| >= |s|
    ensures forall k :: 0 <= k < |r| ==> r[k] as int >= 0x20
  {
    if s == [] then [] else
      var head := EscapeChar(s[0]);
      var tail := Escape(s[1..]);
      assert forall k :: |head| <= k < |head + tail| ==> (head + tail)[k] == tail[k - |head|];
      head + tail
  }

  /** The characters a string literal holds without escaping. */
  predicate Plain(c: char) {
    c as int >= 0x20 && c != '"' && c != '\\'
  }

  lemma {:induction false} EscapePlain(s: string)
    requires forall k :: 0 <= k < |s| ==> Plain(s[k])
    ensures Escape(s) == s
  {
    if s != [] {
      EscapePlain(s[1..]);
      assert [s[0]] + s[1..] == s;
    }
  }

  function Quote(s: string): string {
    "\"" + Escape(s) + "\""
  }

  function Indent(level: nat): (r: string)
    ensures |r| == 2 * level
  {
    if level == 0 then "" else "  " + Indent(level - 1)
  }

  /**
   * `Value::to_string` (compact, `pretty` false) and `to_string_pretty`
   * (two-space indentation, `pretty` true) at nesting depth `level`.
   */
  function Write(j: Value, pretty: bool, level: nat): string
    decreases j
  {
    match j
    case JNull => "null"
    case JBool(b) => if b then "true" else "false"
    case JNumber(n) => Text.IntToString(n)
    case JString(s) => Quote(s)
    case JArray(items) =>
      if items == [] then "[]"
      else
        var parts := seq(|items|, i requires 0 <= i < |items| =>
          Break(pretty, level + 1) + Write(items[i], pretty, level + 1));
        "[" + Text.Join(parts, ",") + Break(pretty, level) + "]"
    case JObject(fields) =>
      if fields == [] then "{}"
      else
        var parts := seq(|fields|, i requires 0 <= i < |fields| =>
          Break(pretty, level + 1) + Quote(fields[i].key) + (if pretty then ": " else ":")
          + Write(fields[i].value, pretty, level + 1));
        "{" + Text.Join(parts, ",") + Break(pretty, level) + "}"
  }

  /** The line break and indentation before a member in pretty form; nothing in compact form. */
  function Break(pretty: bool, level: nat): string {
    if pretty then "\n" + Indent(level) else ""
  }

  function Compact(j: Value): string {
    Write(j, false, 0)
  }

  function Pretty(j: Value): string {
    Write(j, true, 0)
  }

  /** The compact form of a string is its literal, and a plain text needs no escape. */
  lemma CompactString(s: string)
    requires forall k :: 0 <= k < |s| ==> Plain(s[k])
    ensures Compact(JString(s)) == "\"" + s + "\""
  {
    EscapePlain(s);
  }

  lemma CompactEmpty()
    ensures Compact(JArray([])) == "[]" && Compact(JObject([])) == "{}"
    ensures Pretty(JArray([])) == "[]" && Pretty(JObject([])) == "{}"
  {
  }

  // ---- The `$.a.b` path extractor

  /** The path with every leading "$." removed, split at each '.'. */
  function Parts(path: string): (r: seq<string>)
    ensures |r| >= 1
    ensures forall i :: 0 <= i < |r| ==> '.' !in r[i]
  {
    Text.Split(Text.TrimStartMatches(path, "$."), '.')
  }

  /** The value reached by following `parts` as object keys; None when a key is missing or a step meets a non-object. */
  function Descend(j: Value, parts: seq<string>): (r: Option<Value>)
    decreases |parts|
    ensures parts == [] ==> r == Some(j)
    ensures parts != [] && !j.JObject? ==> r.None?
  {
    if parts == [] then Some(j)
    else if !j.JObject? then None
    else match Get(j.fields, parts[0])
      case None => None
      case Some(v) => Descend(v, parts[1..])
  }

  /** How the extractor renders the value it reached: strings bare, numbers in decimal, anything else as compact JSON. */
  function LeafText(j: Value): (r: string)
    ensures j.JString? ==> r == j.s
    ensures j.JBool? ==> r == (if j.b then "true" else "false")
    ensures j.JNull? ==> r == "null"
    ensures j.JNumber? ==> Text.ParseSigned(r) == Some(j.n)
  {
    match j
    case JString(s) => s
    case JNumber(n) => Text.ParseSignedIntToString(n); Text.IntToString(n)
    case _ => Compact(j)
  }

  /** What `extract_json_path` returns: the rendered value at the path, "" when the path leads nowhere. */
  function Extract(j: Value, path: string): string {
    match Descend(j, Parts(path))
    case None => ""
    case Some(v) => LeafText(v)
  }

  /** The extractor's result read off the descent: "" when it ends nowhere, the leaf's text otherwise. */
  lemma ExtractDescend(j: Value, path: string)
    ensures Descend(j, Parts(path)).None? ==> Extract(j, path) == ""
    ensures Descend(j, Parts(path)).Some? ==> Extract(j, path) == LeafText(Descend(j, Parts(path)).value)
  {
  }

  /** `extract_json_path` (and the executor's identical `extract_json_value`). */
  method ExtractJsonPath(json: Value, path: string) returns (r: string)
    ensures r == Extract(json, path)
  {
    var parts := Parts(path);
    ExtractDescend(json, path);
    var current := json;
    var i := 0;
    while i < |parts|
      invariant 0 <= i <= |parts|
      invariant Descend(json, parts) == Descend(current, parts[i..])
    {
      DescendStep(current, parts, i);
      if !current.JObject? {
        return "";
      }
      var next := Get(current.fields, parts[i]);
      if next.None? {
        return "";
      }
      current := next.value;
      i := i + 1;
    }
    assert parts[i..] == [];
    r := LeafText(current);
  }

  /** One step of the descent: a non-object or a missing key ends it, a present key continues from its value. */
  lemma DescendStep(current: Value, parts: seq<string>, i: nat)
    requires i < |parts|
    ensures !current.JObject? ==> Descend(current, parts[i..]).None?
    ensures current.JObject? && Get(current.fields, parts[i]).None? ==> Descend(current, parts[i..]).None?
    ensures current.JObject? && Get(current.fields, parts[i]).Some?
      ==> Descend(current, parts[i..]) == Descend(Get(current.fields, parts[i]).value, parts[i + 1..])
  {
    assert parts[i..][0] == parts[i] && parts[i..][1..] == parts[i + 1..];
  }

  /** The values a step extracts from a JSON body: each name's path, read from the document. */
  function ExtractAll(paths: map<string, string>, j: Value): (r: map<string, string>)
    ensures r.Keys == paths.Keys
    ensures forall n :: n in r ==> r[n] == Extract(j, paths[n])
  {
    Maps.MapValues(paths, p => Extract(j, p))
  }

  /** One more path: the map of extracted values gains exactly that name's value. */
  lemma ExtractAllUpdate(paths: map<string, string>, name: string, path: string, j: Value)
    ensures ExtractAll(paths[name := path], j) == ExtractAll(paths, j)[name := Extract(j, path)]
  {
    Maps.MapValuesUpdate(paths, p => Extract(j, p), name, path);
  }

  // ---- Properties of the extractor

  /** The object that holds `v` under the nested keys `parts`. */
  function Nest(parts: seq<string>, v: Value): (j: Value)
    ensures parts != [] ==> j.JObject?
  {
    if parts == [] then v else JObject([Field(parts[0], Nest(parts[1..], v))])
  }

  lemma {:induction false} DescendNest(parts: seq<string>, v: Value)
    ensures Descend(Nest(parts, v), parts) == Some(v)
  {
    if parts != [] {
      DescendNest(parts[1..], v);
    }
  }

  /** "$." followed by a text that does not itself start with "$." leaves exactly that text. */
  lemma TrimDollar(p: string)
    requires !Text.IsPrefix("$.", p)
    ensures Text.TrimStartMatches("$." + p, "$.") == p
  {
    var s := "$." + p;
    assert s[..2] == "$.";
    assert s[2..] == p;
  }

  /**
   * Following "$.k1.k2…" through the objects that nest a value under k1, k2,
   * … reaches that value, and the extractor renders it.
   */
  lemma ExtractNest(p: string, v: Value)
    requires !Text.IsPrefix("$.", p)
    ensures Extract(Nest(Text.Split(p, '.'), v), "$." + p) == LeafText(v)
  {
    TrimDollar(p);
    DescendNest(Text.Split(p, '.'), v);
  }

  /** Any number of leading "$." is removed, and a path without them is read as is. */
  lemma PartsDropsPrefixes(p: string)
    ensures Parts("$." + p) == Parts(p)
  {
    var s := "$." + p;
    assert s[..2] == "$.";
    assert s[2..] == p;
  }

  /** A path with steps on a value that is not an object gives the empty text. */
  lemma ExtractNonObject(j: Value, path: string)
    requires !j.JObject?
    ensures Extract(j, path) == ""
  {
  }

  /** "$.a.b" with dot-free `a` and `b` gives the parts [a, b]. */
  lemma PathParts(p: string, a: string, b: string)
    requires a != [] && '.' !in a && '.' !in b && a[0] != '$' && p == a + "." + b
    ensures Parts("$." + p) == [a, b]
  {
    assert p[0] == a[0];
    TrimDollar(p);
    assert p[|a|] == '.' && p[..|a|] == a && p[|a| + 1..] == b;
    SplitPair(p, a, b);
  }

  lemma SplitPair(p: string, a: string, b: string)
    requires '.' !in a && '.' !in b && p == a + "." + b
    ensures Text.Split(p, '.') == [a, b]
  {
    Text.SplitOnceAt(p, a, b, '.');
    Text.SplitNoSeparator(b, '.');
  }

  /** "$.a" with a dot-free `a` not starting with '$' gives the single part a. */
  lemma PathPart(a: string)
    requires a != [] && '.' !in a && a[0] != '$'
    ensures Parts("$." + a) == [a]
  {
    TrimDollar(a);
    Text.SplitNoSeparator(a, '.');
  }

  /** "$.k" reads member k of an object: its rendering, or "" when there is none. */
  lemma ExtractMember(fields: seq<Field>, a: string, path: string)
    requires a != [] && '.' !in a && a[0] != '$' && path == "$." + a
    ensures Extract(JObject(fields), path) == (match Get(fields, a) case None => "" case Some(v) => LeafText(v))
  {
    PathPart(a);
    assert [a][1..] == [];
  }
}
