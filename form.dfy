/**
 * Form data: a map from field name to a text value or a file path, the
 * `application/x-www-form-urlencoded` rendering of its text fields, and the
 * split into text and file fields. The map is the field of a `FormData`
 * object that `add_text`, `add_file` and `remove` change in place; the
 * readers are functions of that map.
 */
module Form {
  import opened Wrappers
  import Strings = Text
  import Utf8

  datatype FormField = Text(value: string) | File(path: string)

  type Fields = map<string, FormField>

  class FormData {
    var fields: Fields

    /** `FormData::new`: no fields. */
    constructor ()
      ensures fields == map[]
    {
      fields := map[];
    }

    /** `add_text`: the name now holds the text, replacing any earlier field of that name. */
    method AddText(name: string, value: string)
      modifies this
      ensures fields == old(fields)[name := Text(value)]
      ensures Count() == old(Count()) + (if name in old(fields) then 0 else 1)
    {
      fields := fields[name := Text(value)];
    }

    /** `add_file`: the name now holds the path, replacing any earlier field of that name. */
    method AddFile(name: string, path: string)
      modifies this
      ensures fields == old(fields)[name := File(path)]
      ensures Count() == old(Count()) + (if name in old(fields) then 0 else 1)
    {
      fields := fields[name := File(path)];
    }

    /** `get` */
    function Get(name: string): (r: Option<FormField>)
      reads this
      ensures r.Some? <==> name in fields
      ensures r.Some? ==> fields[name] == r.value
    {
      if name in fields then Some(fields[name]) else None
    }

    /** `remove`: returns the field the name held, and the name holds nothing afterwards. */
    method Remove(name: string) returns (r: Option<FormField>)
      modifies this
      ensures r == old(Get(name))
      ensures fields == old(fields) - {name}
      ensures Count() == old(Count()) - (if r.Some? then 1 else 0)
    {
      r := Get(name);
      fields := fields - {name};
    }

    /** `count`: the number of distinct names. */
    function Count(): nat
      reads this
    {
      |fields|
    }

    /** `with_text`: `add_text` on the same object, which it hands back. */
    method WithText(name: string, value: string) returns (self: FormData)
      modifies this
      ensures self == this && fields == old(fields)[name := Text(value)]
    {
      AddText(name, value);
      self := this;
    }

    /** `with_file`: `add_file` on the same object, which it hands back. */
    method WithFile(name: string, path: string) returns (self: FormData)
      modifies this
      ensures self == this && fields == old(fields)[name := File(path)]
    {
      AddFile(name, path);
      self := this;
    }
  }

  // ---- Readers

  /** `has_files` */
  predicate HasFiles(fields: Fields) {
    exists name :: name in fields && fields[name].File?
  }

  /** `text_fields`: the text fields, name to value. */
  function TextFields(fields: Fields): map<string, string> {
    map name | name in fields && fields[name].Text? :: fields[name].value
  }

  /** `file_fields`: the file fields, name to path. */
  function FileFields(fields: Fields): map<string, string> {
    map name | name in fields && fields[name].File? :: fields[name].path
  }

  /**
   * The text and file fields split the form: every name is in exactly one of
   * the two, with the value or path it holds.
   */
  lemma Partition(fields: Fields)
    ensures TextFields(fields).Keys !! FileFields(fields).Keys
    ensures TextFields(fields).Keys + FileFields(fields).Keys == fields.Keys
    ensures |TextFields(fields)| + |FileFields(fields)| == |fields|
    ensures forall n :: n in TextFields(fields) ==> fields[n] == Text(TextFields(fields)[n])
    ensures forall n :: n in FileFields(fields) ==> fields[n] == File(FileFields(fields)[n])
  {
    var t, f := TextFields(fields).Keys, FileFields(fields).Keys;
    assert t + f == fields.Keys;
    assert |t + f| == |t| + |f| - |t * f|;
    assert t * f == {};
  }

  /** The form has files exactly when its file fields are not empty. */
  lemma HasFilesIffFileFields(fields: Fields)
    ensures HasFiles(fields) <==> FileFields(fields) != map[]
  {
    if HasFiles(fields) {
      var n :| n in fields && fields[n].File?;
      assert n in FileFields(fields);
    }
  }

  /** Adding a file makes the form have files; adding a text under a new name leaves that answer as it was. */
  lemma HasFilesAfterAdd(fields: Fields, name: string, s: string)
    ensures HasFiles(fields[name := File(s)])
    ensures name !in fields ==> (HasFiles(fields[name := Text(s)]) <==> HasFiles(fields))
  {
    assert fields[name := File(s)][name].File?;
    if name !in fields && HasFiles(fields) {
      var n :| n in fields && fields[n].File?;
      assert fields[name := Text(s)][n].File?;
    }
  }

  // ---- Percent-encoding

  /** The characters the encoder keeps as they are. */
  predicate Unreserved(c: char) {
    ('A' <= c <= 'Z') || ('a' <= c <= 'z') || ('0' <= c <= '9') || c == '-' || c == '_' || c == '.' || c == '~'
  }

  /** Every character an encoder writes: kept characters, '+' and '%' (the hex digits are kept characters). */
  predicate Encoded(s: string) {
    forall k :: 0 <= k < |s| ==> Unreserved(s[k]) || s[k] == '+' || s[k] == '%'
  }

  function UpperHex(d: nat): (c: char)
    requires d < 16
    ensures Unreserved(c)
  {
    if d < 10 then ('0' as int + d) as char else ('A' as int + d - 10) as char
  }

  /** The value of a hex digit of either case. */
  function HexValue(c: char): (r: Option<nat>)
    ensures r.Some? ==> r.value < 16
  {
    if '0' <= c <= '9' then Some(c as int - '0' as int)
    else if 'A' <= c <= 'F' then Some(c as int - 'A' as int + 10)
    else if 'a' <= c <= 'f' then Some(c as int - 'a' as int + 10)
    else None
  }

  lemma HexRoundTrip(d: nat)
    requires d < 16
    ensures HexValue(UpperHex(d)) == Some(d)
  {
  }

  /** "%" and the two upper-case hex digits of a byte. */
  function PercentByte(b: Utf8.Byte): (r: string)
    ensures |r| == 3 && r[0] == '%' && Encoded(r)
    ensures HexValue(r[1]).Some? && HexValue(r[2]).Some?
    ensures HexValue(r[1]).value * 16 + HexValue(r[2]).value == b
  {
    HexRoundTrip(b / 16);
    HexRoundTrip(b % 16);
    "%" + [UpperHex(b / 16), UpperHex(b % 16)]
  }

  /**
   * The crate-local `urlencoding::encode` as written: a kept character as
   * is, a space as '+', anything else as "%" and the hex digits of the LOW
   * BYTE of its code point (`c as u8`).
   */
  function UrlEncodeChar(c: char): (r: string)
    ensures Encoded(r)
    ensures Unreserved(c) <==> r == [c]
    ensures c == ' ' <==> r == "+"
    ensures !Unreserved(c) && c != ' ' ==> r == PercentByte(c as int % 256)
  {
    if Unreserved(c) then [c]
    else if c == ' ' then "+"
    else PercentByte(c as int % 256)
  }

  function UrlEncode(s: string): (r: string)
    ensures Encoded(r)
    ensures |s| <= |r| <= 3 * |s|
  {
    if s == [] then "" else
      var head := UrlEncodeChar(s[0]);
      var tail := UrlEncode(s[1..]);
      assert forall k :: |head| <= k < |head + tail| ==> (head + tail)[k] == tail[k - |head|];
      head + tail
  }

  /** The two texts "Ā" and "\u0000" have the same encoding: the encoder as written loses information. */
  lemma UrlEncodeCollides()
    ensures UrlEncode([0x100 as char]) == UrlEncode([0 as char]) == "%00"
  {
    assert UrlEncode([0x100 as char]) == UrlEncodeChar(0x100 as char);
    assert UrlEncode([0 as char]) == UrlEncodeChar(0 as char);
  }

  /** One byte of the UTF-8 form of a text: a kept ASCII byte as its character, 0x20 as '+', anything else as "%HH". */
  function EncodeByte(b: Utf8.Byte): (r: string)
    ensures Encoded(r)
  {
    if b < 0x80 && Unreserved(b as char) then [b as char]
    else if b == 0x20 then "+"
    else PercentByte(b)
  }

  function EncodeBytes(bs: seq<Utf8.Byte>): (r: string)
    ensures Encoded(r)
  {
    if bs == [] then "" else
      var head := EncodeByte(bs[0]);
      var tail := EncodeBytes(bs[1..]);
      assert forall k :: |head| <= k < |head + tail| ==> (head + tail)[k] == tail[k - |head|];
      head + tail
  }

  /**
   * The encoding the module evidently intends, that of the `urlencoding`
   * crate and of the form-urlencoded format: each byte of the text's UTF-8
   * form, a kept one as is, a space as '+', the rest as "%HH".
   */
  function FormEncode(s: string): (r: string)
    ensures Encoded(r)
  {
    EncodeBytes(Utf8.Encode(s))
  }

  /** The bytes an encoded text stands for; None on a character no encoder writes or a broken "%" escape. */
  function DecodeBytes(t: string): (r: Option<seq<Utf8.Byte>>)
    decreases |t|
  {
    if t == [] then Some([])
    else if t[0] == '+' then Prepend(0x20, DecodeBytes(t[1..]))
    else if t[0] == '%' then
      if |t| >= 3 && HexValue(t[1]).Some? && HexValue(t[2]).Some? then
        Prepend(HexValue(t[1]).value * 16 + HexValue(t[2]).value, DecodeBytes(t[3..]))
      else None
    else if (t[0] as int) < 0x80 then Prepend(t[0] as int, DecodeBytes(t[1..]))
    else None
  }

  function Prepend(b: Utf8.Byte, r: Option<seq<Utf8.Byte>>): Option<seq<Utf8.Byte>> {
    if r.None? then None else Some([b] + r.value)
  }

  /** Form decoding: the bytes, read as UTF-8. */
  function FormDecode(t: string): Option<string> {
    match DecodeBytes(t)
    case None => None
    case Some(bs) => Utf8.Decode(bs)
  }

  lemma DecodeEncodeByte(b: Utf8.Byte, rest: string)
    ensures DecodeBytes(EncodeByte(b) + rest) == Prepend(b, DecodeBytes(rest))
  {
    var e := EncodeByte(b);
    if b < 0x80 && Unreserved(b as char) {
      assert (e + rest)[1..] == rest;
    } else if b == 0x20 {
      assert (e + rest)[1..] == rest;
    } else {
      assert (e + rest)[3..] == rest;
      assert (e + rest)[1] == e[1] && (e + rest)[2] == e[2];
    }
  }

  lemma {:induction false} DecodeEncodeBytes(bs: seq<Utf8.Byte>)
    ensures DecodeBytes(EncodeBytes(bs)) == Some(bs)
  {
    if bs != [] {
      DecodeEncodeByte(bs[0], EncodeBytes(bs[1..]));
      DecodeEncodeBytes(bs[1..]);
      assert [bs[0]] + bs[1..] == bs;
    }
  }

  /** Decoding undoes the intended encoding, for every text. */
  lemma FormDecodeEncode(s: string)
    ensures FormDecode(FormEncode(s)) == Some(s)
  {
    DecodeEncodeBytes(Utf8.Encode(s));
    Utf8.DecodeEncode(s);
  }

  /** On ASCII text the encoder as written and the intended one agree. */
  lemma AsciiEncodingsAgree(s: string)
    requires forall i :: 0 <= i < |s| ==> (s[i] as int) < 0x80
    ensures UrlEncode(s) == FormEncode(s)
  {
    Utf8.EncodeAscii(s);
    AsciiBytesAgree(s, Utf8.Encode(s));
  }

  lemma EncodeByteAscii(c: char)
    requires (c as int) < 0x80
    ensures EncodeByte(c as int) == UrlEncodeChar(c)
  {
    var b := c as int;
    assert b as char == c && b % 256 == b;
    if Unreserved(c) {
      assert EncodeByte(b) == [c];
    } else if c == ' ' {
      assert EncodeByte(b) == "+";
    } else {
      assert EncodeByte(b) == PercentByte(b);
    }
  }

  lemma {:induction false} AsciiBytesAgree(s: string, bs: seq<Utf8.Byte>)
    requires |bs| == |s|
    requires forall i :: 0 <= i < |s| ==> (s[i] as int) < 0x80 && bs[i] == s[i] as int
    ensures UrlEncode(s) == EncodeBytes(bs)
  {
    if s != [] {
      EncodeByteAscii(s[0]);
      AsciiBytesAgree(s[1..], bs[1..]);
    }
  }

  // ---- `to_urlencoded`

  /**
   * The order in which the map hands out its names: each name exactly once.
   * The source's map does not fix it, so it is a parameter here.
   */
  predicate IsOrderOf(order: seq<string>, names: set<string>) {
    (forall i, j :: 0 <= i < j < |order| ==> order[i] != order[j])
    && (forall n :: n in names ==> n in order) && (forall n :: n in order ==> n in names)
  }

  /** The text fields as (name, value) pairs, in the iteration order. */
  function TextPairs(fields: Fields, order: seq<string>): (r: seq<(string, string)>)
    ensures |r| <= |order|
  {
    if order == [] then []
    else
      var n := order[0];
      (if n in fields && fields[n].Text? then [(n, fields[n].value)] else [])
      + TextPairs(fields, order[1..])
  }

  /** "name=value", both encoded by the encoder as written. */
  function Pair(p: (string, string)): string {
    UrlEncode(p.0) + "=" + UrlEncode(p.1)
  }

  /** The items of the text fields, one "name=value" per pair, in the iteration order. */
  function Items(tp: seq<(string, string)>): (r: seq<string>)
    ensures |r| == |tp| && forall i :: 0 <= i < |tp| ==> r[i] == Pair(tp[i])
  {
    seq(|tp|, i requires 0 <= i < |tp| => Pair(tp[i]))
  }

  /** `to_urlencoded`: the encoded pairs of the text fields joined with '&'; files are skipped. */
  function ToUrlEncoded(fields: Fields, order: seq<string>): string {
    Strings.Join(Items(TextPairs(fields, order)), "&")
  }

  /** "name=value" with the intended encoder over UTF-8 bytes. */
  function PairIntended(p: (string, string)): string {
    FormEncode(p.0) + "=" + FormEncode(p.1)
  }

  function ItemsIntended(tp: seq<(string, string)>): (r: seq<string>)
    ensures |r| == |tp| && forall i :: 0 <= i < |tp| ==> r[i] == PairIntended(tp[i])
  {
    seq(|tp|, i requires 0 <= i < |tp| => PairIntended(tp[i]))
  }

  /** `to_urlencoded` as evidently intended: the pairs encoded with `FormEncode`. */
  function ToUrlEncodedIntended(fields: Fields, order: seq<string>): string {
    Strings.Join(ItemsIntended(TextPairs(fields, order)), "&")
  }

  /** A (name, value) pair is listed exactly for the text fields the order names. */
  lemma {:induction false} TextPairsMembers(fields: Fields, order: seq<string>, n: string, v: string)
    ensures (n, v) in TextPairs(fields, order) <==> n in order && n in fields && fields[n] == Text(v)
  {
    if order != [] {
      TextPairsMembers(fields, order[1..], n, v);
      assert n in order <==> n == order[0] || n in order[1..];
    }
  }

  /** Under an iteration order, the listed pairs are exactly the text fields. */
  lemma TextPairsAreTextFields(fields: Fields, order: seq<string>)
    requires IsOrderOf(order, fields.Keys)
    ensures forall n, v :: (n, v) in TextPairs(fields, order) <==> n in TextFields(fields) && TextFields(fields)[n] == v
  {
    forall n, v ensures (n, v) in TextPairs(fields, order) <==> n in TextFields(fields) && TextFields(fields)[n] == v {
      TextPairsMembers(fields, order, n, v);
    }
  }

  /** The reference reader of a form-urlencoded text: split at '&', each item at its first '=', both sides decoded. */
  function ParseUrlEncoded(s: string): Option<seq<(string, string)>> {
    DecodeItems(Strings.Split(s, '&'))
  }

  function DecodeItems(items: seq<string>): Option<seq<(string, string)>> {
    if items == [] then Some([])
    else match (Strings.SplitOnce(items[0], '='), DecodeItems(items[1..]))
      case (Some((a, b)), Some(rest)) =>
        (match (FormDecode(a), FormDecode(b))
         case (Some(n), Some(v)) => Some([(n, v)] + rest)
         case _ => None)
      case _ => None
  }

  /** Two encoded texts joined by '=' hold no '&' and split at that '=' back into the two texts. */
  lemma EncodedPairSplits(a: string, b: string)
    requires Encoded(a) && Encoded(b)
    ensures '&' !in a + "=" + b
    ensures Strings.SplitOnce(a + "=" + b, '=') == Some((a, b))
  {
    var t := a + "=" + b;
    assert '=' !in a by {
      forall k | 0 <= k < |a| ensures a[k] != '=' { assert Unreserved(a[k]) || a[k] == '+' || a[k] == '%'; }
    }
    assert '&' !in t by {
      forall k | 0 <= k < |t| ensures t[k] != '&' {
        if k < |a| { assert t[k] == a[k]; }
        else if k > |a| { assert t[k] == b[k - |a| - 1]; }
      }
    }
    Strings.SplitOnceAt(t, a, b, '=');
  }

  /** An item as written holds no '&' and splits at its first '=' into the encoded name and value. */
  lemma PairSplitsAsWritten(p: (string, string))
    ensures '&' !in Pair(p)
    ensures Strings.SplitOnce(Pair(p), '=') == Some((UrlEncode(p.0), UrlEncode(p.1)))
  {
    EncodedPairSplits(UrlEncode(p.0), UrlEncode(p.1));
  }

  /**
   * What `to_urlencoded` as written produces: "" without text fields;
   * otherwise its '&'-separated items are one per text field, in the
   * iteration order, each the as-written encoding of the name, '=', and the
   * as-written encoding of the value.
   */
  lemma UrlEncodedItems(fields: Fields, order: seq<string>)
    ensures TextPairs(fields, order) == [] ==> ToUrlEncoded(fields, order) == ""
    ensures TextPairs(fields, order) != [] ==>
      var tp := TextPairs(fields, order);
      var items := Strings.Split(ToUrlEncoded(fields, order), '&');
      |items| == |tp|
      && forall i :: 0 <= i < |tp| ==> Strings.SplitOnce(items[i], '=') == Some((UrlEncode(tp[i].0), UrlEncode(tp[i].1)))
  {
    var tp := TextPairs(fields, order);
    var items := Items(tp);
    if tp != [] {
      forall i | 0 <= i < |items| ensures '&' !in items[i] { PairSplitsAsWritten(tp[i]); }
      Strings.SplitJoin(items, '&');
      forall i | 0 <= i < |tp|
        ensures Strings.SplitOnce(items[i], '=') == Some((UrlEncode(tp[i].0), UrlEncode(tp[i].1)))
      {
        PairSplitsAsWritten(tp[i]);
      }
    }
  }

  /** Texts made of ASCII characters only. */
  predicate IsAscii(s: string) {
    forall i :: 0 <= i < |s| ==> (s[i] as int) < 0x80
  }

  /** When every text field's name and value is ASCII, the form renders as written and as intended alike. */
  lemma AsciiFormsAgree(fields: Fields, order: seq<string>)
    requires forall n :: n in fields && fields[n].Text? ==> IsAscii(n) && IsAscii(fields[n].value)
    ensures ToUrlEncoded(fields, order) == ToUrlEncodedIntended(fields, order)
  {
    var tp := TextPairs(fields, order);
    forall i | 0 <= i < |tp| ensures Items(tp)[i] == ItemsIntended(tp)[i] {
      TextPairsMembers(fields, order, tp[i].0, tp[i].1);
      AsciiEncodingsAgree(tp[i].0);
      AsciiEncodingsAgree(tp[i].1);
    }
    assert Items(tp) == ItemsIntended(tp);
  }

  /** A text field "é" (U+00E9) renders as "n=%E9" as written: the low byte of its code point. */
  lemma NonAsciiAsWritten()
    ensures ToUrlEncoded(map["n" := Text("\U{E9}")], ["n"]) == "n=%E9"
  {
    var fields := map["n" := Text("\U{E9}")];
    assert TextPairs(fields, ["n"]) == [("n", "\U{E9}")];
    assert UrlEncode("n") == "n";
    assert PercentByte(0xE9) == "%E9" by { assert UpperHex(14) == 'E' && UpperHex(9) == '9'; }
    assert UrlEncode("\U{E9}") == UrlEncodeChar('\U{E9}') == "%E9";
    assert Pair(("n", "\U{E9}")) == "n=%E9";
    assert Items([("n", "\U{E9}")])[0] == "n=%E9";
  }

  /** The intended encoding of "é" is its UTF-8 bytes 0xC3 0xA9, each escaped, where the encoder as written gives "%E9". */
  lemma FormEncodeEAcute()
    ensures FormEncode("\U{E9}") == "%C3%A9"
  {
    assert Utf8.EncodeChar('\U{E9}') == [0xC3, 0xA9] by { assert 0xE9 / 64 == 3 && 0xE9 % 64 == 0x29; }
    assert Utf8.Encode("\U{E9}") == [0xC3, 0xA9];
    assert PercentByte(0xC3) == "%C3" by { assert UpperHex(12) == 'C' && UpperHex(3) == '3'; }
    assert PercentByte(0xA9) == "%A9" by { assert UpperHex(10) == 'A' && UpperHex(9) == '9'; }
    assert EncodeBytes([0xA9]) == EncodeByte(0xA9);
    assert EncodeBytes([0xC3, 0xA9]) == EncodeByte(0xC3) + EncodeBytes([0xA9]);
  }

  /** An intended item holds no '&' and splits at its first '=' into the encoded name and value. */
  lemma PairSplits(p: (string, string))
    ensures '&' !in PairIntended(p)
    ensures Strings.SplitOnce(PairIntended(p), '=') == Some((FormEncode(p.0), FormEncode(p.1)))
  {
    EncodedPairSplits(FormEncode(p.0), FormEncode(p.1));
  }

  lemma DecodeItemsCons(p: (string, string), items: seq<string>, rest: seq<(string, string)>)
    requires DecodeItems(items) == Some(rest)
    ensures DecodeItems([PairIntended(p)] + items) == Some([p] + rest)
  {
    PairSplits(p);
    FormDecodeEncode(p.0);
    FormDecodeEncode(p.1);
    assert ([PairIntended(p)] + items)[1..] == items;
  }

  lemma {:induction false} DecodeItemsPairs(tp: seq<(string, string)>, items: seq<string>)
    requires |items| == |tp| && forall i :: 0 <= i < |tp| ==> items[i] == PairIntended(tp[i])
    ensures DecodeItems(items) == Some(tp)
  {
    if tp != [] {
      DecodeItemsPairs(tp[1..], items[1..]);
      DecodeItemsCons(tp[0], items[1..], tp[1..]);
      assert [items[0]] + items[1..] == items;
      assert [tp[0]] + tp[1..] == tp;
    }
  }

  /**
   * The intended `to_urlencoded` loses nothing: the reference reader
   * recovers the text fields, in the iteration order, from a form with at
   * least one text field, and a form without text fields renders as the
   * empty text.
   */
  lemma UrlEncodedRoundTrip(fields: Fields, order: seq<string>)
    ensures TextPairs(fields, order) == [] ==> ToUrlEncodedIntended(fields, order) == ""
    ensures TextPairs(fields, order) != [] ==> ParseUrlEncoded(ToUrlEncodedIntended(fields, order)) == Some(TextPairs(fields, order))
  {
    var tp := TextPairs(fields, order);
    var items := ItemsIntended(tp);
    if tp != [] {
      forall i | 0 <= i < |items| ensures '&' !in items[i] { PairSplits(tp[i]); }
      Strings.SplitJoin(items, '&');
      DecodeItemsPairs(tp, items);
    }
  }

  /** On a form whose text fields are all ASCII, `to_urlencoded` as written loses nothing either. */
  lemma AsciiUrlEncodedRoundTrip(fields: Fields, order: seq<string>)
    requires forall n :: n in fields && fields[n].Text? ==> IsAscii(n) && IsAscii(fields[n].value)
    ensures TextPairs(fields, order) != [] ==> ParseUrlEncoded(ToUrlEncoded(fields, order)) == Some(TextPairs(fields, order))
  {
    AsciiFormsAgree(fields, order);
    UrlEncodedRoundTrip(fields, order);
  }
}
