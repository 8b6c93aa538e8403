/**
 * UTF-8 as Rust strings store it: `str::len` counts these bytes,
 * `as_bytes` produces them and `String::from_utf8` accepts exactly the
 * well-formed sequences of table 3-7 of the Unicode standard (shortest form,
 * no surrogates, nothing above U+10FFFF).
 */
module Utf8 {
  import opened Wrappers

  type Byte = b: int | 0 <= b < 256

  /** Number of bytes UTF-8 uses for one scalar value. */
  function CharLen(c: char): (n: nat)
    ensures 1 <= n <= 4
  {
    var v := c as int;
    if v < 0x80 then 1 else if v < 0x800 then 2 else if v < 0x1_0000 then 3 else 4
  }

  /** `str::len`: the UTF-8 byte length of a string. */
  function Len(s: string): (n: nat)
    ensures n >= |s|
    ensures s == [] <==> n == 0
  {
    if s == [] then 0 else CharLen(s[0]) + Len(s[1..])
  }

  lemma {:induction false} LenAppend(a: string, b: string)
    ensures Len(a + b) == Len(a) + Len(b)
  {
    if a == [] {
      assert a + b == b;
    } else {
      assert (a + b)[1..] == a[1..] + b;
      LenAppend(a[1..], b);
    }
  }

  predicate IsContinuation(b: Byte) {
    0x80 <= b <= 0xBF
  }

  function EncodeChar(c: char): (b: seq<Byte>)
    ensures |b| == CharLen(c)
  {
    var v := c as int;
    if v < 0x80 then [v]
    else if v < 0x800 then [(0xC0 + v / 64), (0x80 + v % 64)]
    else if v < 0x1_0000 then
      [(0xE0 + v / 4096), (0x80 + (v / 64) % 64), (0x80 + v % 64)]
    else
      [(0xF0 + v / 262144), (0x80 + (v / 4096) % 64),
       (0x80 + (v / 64) % 64), (0x80 + v % 64)]
  }

  /** `str::as_bytes`. */
  function Encode(s: string): (b: seq<Byte>)
    ensures |b| == Len(s)
  {
    if s == [] then [] else EncodeChar(s[0]) + Encode(s[1..])
  }

  /** The bytes of a concatenation are the concatenation of the bytes. */
  lemma {:induction false} EncodeAppend(a: string, b: string)
    ensures Encode(a + b) == Encode(a) + Encode(b)
  {
    if a == [] {
      assert a + b == b;
    } else {
      assert (a + b)[1..] == a[1..] + b;
      EncodeAppend(a[1..], b);
    }
  }

  /** The first scalar value of `b` and the number of bytes it takes, if `b` starts well-formed. */
  function DecodeChar(b: seq<Byte>): (r: Option<(char, nat)>)
    ensures r.Some? ==> 1 <= r.value.1 <= |b|
  {
    if |b| == 0 then None
    else
      var b0: int := b[0];
      if b0 < 0x80 then Some((b0 as char, 1))
      else if 0xC2 <= b0 <= 0xDF then
        if |b| >= 2 && IsContinuation(b[1]) then Some((Decode2(b0, b[1]), 2)) else None
      else if 0xE0 <= b0 <= 0xEF then
        var lo := if b0 == 0xE0 then 0xA0 else 0x80;
        var hi := if b0 == 0xED then 0x9F else 0xBF;
        if |b| >= 3 && lo <= b[1] <= hi && IsContinuation(b[2]) then Some((Decode3(b0, b[1], b[2]), 3))
        else None
      else if 0xF0 <= b0 <= 0xF4 then
        var lo := if b0 == 0xF0 then 0x90 else 0x80;
        var hi := if b0 == 0xF4 then 0x8F else 0xBF;
        if |b| >= 4 && lo <= b[1] <= hi && IsContinuation(b[2]) && IsContinuation(b[3]) then
          Some((Decode4(b0, b[1], b[2], b[3]), 4))
        else None
      else None
  }

  function Decode2(b0: int, b1: int): char
    requires 0xC2 <= b0 <= 0xDF && 0x80 <= b1 <= 0xBF
  {
    ((b0 - 0xC0) * 64 + (b1 - 0x80)) as char
  }

  function Decode3(b0: int, b1: int, b2: int): char
    requires 0xE0 <= b0 <= 0xEF && 0x80 <= b1 <= 0xBF && 0x80 <= b2 <= 0xBF
    requires b0 == 0xED ==> b1 <= 0x9F
  {
    var v := (b0 - 0xE0) * 4096 + (b1 - 0x80) * 64 + (b2 - 0x80);
    assert v < 0xD800 || 0xE000 <= v;
    v as char
  }

  function Decode4(b0: int, b1: int, b2: int, b3: int): char
    requires 0xF0 <= b0 <= 0xF4 && 0x80 <= b1 <= 0xBF && 0x80 <= b2 <= 0xBF && 0x80 <= b3 <= 0xBF
    requires b0 == 0xF0 ==> b1 >= 0x90
    requires b0 == 0xF4 ==> b1 <= 0x8F
  {
    ((b0 - 0xF0) * 262144 + (b1 - 0x80) * 4096 + (b2 - 0x80) * 64 + (b3 - 0x80)) as char
  }

  /** `String::from_utf8`: the string the bytes spell, or None when they are not well-formed UTF-8. */
  function Decode(b: seq<Byte>): Option<string>
    decreases |b|
  {
    if b == [] then Some("")
    else match DecodeChar(b)
      case None => None
      case Some((c, k)) =>
        match Decode(b[k..])
        case None => None
        case Some(s) => Some([c] + s)
  }

  lemma DecodeEncodeChar(c: char, rest: seq<Byte>)
    ensures DecodeChar(EncodeChar(c) + rest) == Some((c, CharLen(c)))
  {
    var v := c as int;
    var b := EncodeChar(c) + rest;
    if v < 0x80 {
    } else if v < 0x800 {
      Split2(v);
    } else if v < 0x1_0000 {
      Split3(v);
    } else {
      Split4(v);
    }
  }

  lemma Split2(v: int)
    requires 0x80 <= v < 0x800
    ensures 0xC2 <= 0xC0 + v / 64 <= 0xDF && 0 <= v % 64 < 64
    ensures (v / 64) * 64 + v % 64 == v
  {
  }

  lemma Split3(v: int)
    requires 0x800 <= v < 0x1_0000 && !(0xD800 <= v < 0xE000)
    ensures 0 <= v / 4096 < 16 && 0 <= (v / 64) % 64 < 64 && 0 <= v % 64 < 64
    ensures v / 4096 == 0 ==> (v / 64) % 64 >= 0x20
    ensures v / 4096 == 0xD ==> (v / 64) % 64 < 0x20
    ensures (v / 4096) * 4096 + ((v / 64) % 64) * 64 + v % 64 == v
  {
    var q := v / 64;
    assert q == (v / 4096) * 64 + q % 64;
  }

  lemma Split4(v: int)
    requires 0x1_0000 <= v < 0x11_0000
    ensures 0 <= v / 262144 <= 4 && 0 <= (v / 4096) % 64 < 64 && 0 <= (v / 64) % 64 < 64
    ensures v / 262144 == 0 ==> (v / 4096) % 64 >= 0x10
    ensures v / 262144 == 4 ==> (v / 4096) % 64 < 0x10
    ensures (v / 262144) * 262144 + ((v / 4096) % 64) * 4096 + ((v / 64) % 64) * 64 + v % 64 == v
  {
    var q := v / 64;
    var p := v / 4096;
    assert q == p * 64 + q % 64;
    assert p == (v / 262144) * 64 + p % 64;
  }

  /** Decoding what `as_bytes` produced gives the string back. */
  lemma {:induction false} DecodeEncode(s: string)
    ensures Decode(Encode(s)) == Some(s)
  {
    if s != [] {
      var b := Encode(s);
      DecodeEncodeChar(s[0], Encode(s[1..]));
      assert b[CharLen(s[0])..] == Encode(s[1..]);
      DecodeEncode(s[1..]);
      assert [s[0]] + s[1..] == s;
    }
  }

  /** A lone continuation byte, an overlong lead byte or a byte above 0xF4 is never well-formed. */
  lemma DecodeRejectsBadLead(b: seq<Byte>)
    requires b != [] && (IsContinuation(b[0]) || b[0] == 0xC0 || b[0] == 0xC1 || b[0] >= 0xF5)
    ensures Decode(b) == None
  {
  }

  /** ASCII text is its own UTF-8 encoding, one byte per character. */
  lemma {:induction false} EncodeAscii(s: string)
    requires forall i :: 0 <= i < |s| ==> (s[i] as int) < 0x80
    ensures Encode(s) == seq(|s|, i requires 0 <= i < |s| => s[i] as int)
  {
    if s != [] {
      EncodeAscii(s[1..]);
    }
  }
}
