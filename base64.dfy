/**
 * The standard base64 alphabet of section 4 of RFC 4648, with '=' padding,
 * as the `base64` crate's STANDARD engine encodes and decodes it. Decoding is
 * canonical: the text length is a multiple of four, '=' appears only as the
 * padding of the last group, and the bits that padding leaves over must be
 * zero (section 3.5 of RFC 4648).
 *
 * The codec works in two layers: bytes to codes (a 6-bit value, or 64 for
 * the pad character) and codes to characters.
 */
module Base64 {
  import opened Wrappers
  import opened Utf8

  /** A 6-bit value, or PAD for the pad character '='. */
  type Code = i: int | 0 <= i <= 64

  const PAD: Code := 64

  /** The character section 4 of RFC 4648 assigns to a code. */
  function CodeChar(i: Code): char {
    if i < 26 then ('A' as int + i) as char
    else if i < 52 then ('a' as int + i - 26) as char
    else if i < 62 then ('0' as int + i - 52) as char
    else if i == 62 then '+'
    else if i == 63 then '/'
    else '='
  }

  /** The code of an alphabet or pad character, None for every other character. */
  function CharCode(c: char): (r: Option<Code>)
    ensures r.Some? ==> CodeChar(r.value) == c
  {
    if 'A' <= c <= 'Z' then Some(c as int - 'A' as int)
    else if 'a' <= c <= 'z' then Some(c as int - 'a' as int + 26)
    else if '0' <= c <= '9' then Some(c as int - '0' as int + 52)
    else if c == '+' then Some(62)
    else if c == '/' then Some(63)
    else if c == '=' then Some(PAD)
    else None
  }

  /** Every code has its own character: reading the character back gives the code. */
  lemma CharCodeOfCodeChar(i: Code)
    ensures CharCode(CodeChar(i)) == Some(i)
  {
  }

  function Render(cs: seq<Code>): (s: string)
    ensures |s| == |cs|
  {
    seq(|cs|, i requires 0 <= i < |cs| => CodeChar(cs[i]))
  }

  /** The codes of a text, None when a character is outside the alphabet and '='. */
  function Parse(s: string): (r: Option<seq<Code>>)
    ensures r.Some? ==> |r.value| == |s|
    ensures r.None? <==> exists k :: 0 <= k < |s| && CharCode(s[k]).None?
  {
    if forall k :: 0 <= k < |s| ==> CharCode(s[k]).Some? then
      Some(seq(|s|, k requires 0 <= k < |s| => CharCode(s[k]).value))
    else None
  }

  lemma ParseRender(cs: seq<Code>)
    ensures Parse(Render(cs)) == Some(cs)
  {
    var s := Render(cs);
    forall k | 0 <= k < |s| ensures CharCode(s[k]) == Some(cs[k]) {
      CharCodeOfCodeChar(cs[k]);
    }
    var back := seq(|s|, k requires 0 <= k < |s| => CharCode(s[k]).value);
    assert back == cs;
  }

  /** The codes of three bytes. */
  function Group(b0: Byte, b1: Byte, b2: Byte): seq<Code> {
    [b0 / 4, (b0 % 4) * 16 + b1 / 16, (b1 % 16) * 4 + b2 / 64, b2 % 64]
  }

  /** The codes of the input: full groups, then a padded group for one or two left-over bytes. */
  function Codes(b: seq<Byte>): (cs: seq<Code>)
    ensures |cs| % 4 == 0
    ensures b != [] ==> |cs| >= 4
  {
    if |b| == 0 then []
    else if |b| == 1 then [b[0] / 4, (b[0] % 4) * 16, PAD, PAD]
    else if |b| == 2 then [b[0] / 4, (b[0] % 4) * 16 + b[1] / 16, (b[1] % 16) * 4, PAD]
    else Group(b[0], b[1], b[2]) + Codes(b[3..])
  }

  /** `Engine::encode` with the STANDARD engine. */
  function Encode(b: seq<Byte>): (s: string)
    ensures |s| % 4 == 0
  {
    Render(Codes(b))
  }

  /** Four codes without padding as three bytes. */
  function UngroupFull(q: seq<Code>): Option<seq<Byte>>
    requires |q| == 4
  {
    var c0: int, c1: int, c2: int, c3: int := q[0], q[1], q[2], q[3];
    if c0 < 64 && c1 < 64 && c2 < 64 && c3 < 64 then
      Some([c0 * 4 + c1 / 16, (c1 % 16) * 16 + c2 / 4, (c2 % 4) * 64 + c3])
    else None
  }

  /**
   * The last group, which may end in two pads (one byte) or one pad (two
   * bytes); the bits the padding leaves over must be zero.
   */
  function UngroupLast(q: seq<Code>): Option<seq<Byte>>
    requires |q| == 4
  {
    var c0: int, c1: int, c2: int, c3: int := q[0], q[1], q[2], q[3];
    if c2 == PAD && c3 == PAD then
      if c0 < 64 && c1 < 64 && c1 % 16 == 0 then Some([c0 * 4 + c1 / 16]) else None
    else if c3 == PAD then
      if c0 < 64 && c1 < 64 && c2 < 64 && c2 % 4 == 0 then
        Some([c0 * 4 + c1 / 16, (c1 % 16) * 16 + c2 / 4])
      else None
    else UngroupFull(q)
  }

  function DecodeCodes(cs: seq<Code>): (r: Option<seq<Byte>>)
    ensures r.Some? ==> |cs| % 4 == 0
  {
    if |cs| == 0 then Some([])
    else if |cs| < 4 then None
    else if |cs| == 4 then UngroupLast(cs)
    else match UngroupFull(cs[..4])
      case None => None
      case Some(g) =>
        match DecodeCodes(cs[4..])
        case None => None
        case Some(rest) => Some(g + rest)
  }

  /** `Engine::decode` with the STANDARD engine: None for any text that is not canonical base64. */
  function Decode(s: string): (r: Option<seq<Byte>>)
    ensures r.Some? ==> |s| % 4 == 0
    ensures (exists k :: 0 <= k < |s| && CharCode(s[k]).None?) ==> r.None?
  {
    match Parse(s)
    case None => None
    case Some(cs) => DecodeCodes(cs)
  }

  /** The first byte comes back from the first two codes of its group. */
  lemma RejoinFirst(x: Byte, y: Byte)
    ensures (x / 4) * 4 + ((x % 4) * 16 + y / 16) / 16 == x
  {
    var h := (x % 4) * 16 + y / 16;
    assert 0 <= y / 16 < 16;
    assert h / 16 == x % 4;
  }

  /** The second byte comes back from the second and third codes. */
  lemma RejoinSecond(x: Byte, y: Byte, z: Byte)
    ensures (((x % 4) * 16 + y / 16) % 16) * 16 + ((y % 16) * 4 + z / 64) / 4 == y
  {
    var h := (x % 4) * 16 + y / 16;
    var l := (y % 16) * 4 + z / 64;
    assert 0 <= y / 16 < 16;
    assert h % 16 == y / 16;
    assert 0 <= z / 64 < 4;
    assert l / 4 == y % 16;
  }

  /** The third byte comes back from the last two codes. */
  lemma RejoinThird(y: Byte, z: Byte)
    ensures (((y % 16) * 4 + z / 64) % 4) * 64 + z % 64 == z
  {
    var l := (y % 16) * 4 + z / 64;
    assert 0 <= z / 64 < 4;
    assert l % 4 == z / 64;
  }

  lemma UngroupGroup(b0: Byte, b1: Byte, b2: Byte)
    ensures UngroupFull(Group(b0, b1, b2)) == Some([b0, b1, b2])
    ensures UngroupLast(Group(b0, b1, b2)) == Some([b0, b1, b2])
  {
    RejoinFirst(b0, b1);
    RejoinSecond(b0, b1, b2);
    RejoinThird(b1, b2);
  }

  lemma UngroupOne(x: Byte)
    ensures UngroupLast([x / 4, (x % 4) * 16, PAD, PAD]) == Some([x])
  {
    RejoinFirst(x, 0);
  }

  lemma UngroupTwo(x: Byte, y: Byte)
    ensures UngroupLast([x / 4, (x % 4) * 16 + y / 16, (y % 16) * 4, PAD]) == Some([x, y])
  {
    RejoinFirst(x, y);
    RejoinSecond(x, y, 0);
  }

  lemma CodesOne(b: seq<Byte>)
    requires |b| == 1
    ensures Codes(b) == [b[0] / 4, (b[0] % 4) * 16, PAD, PAD] && b == [b[0]]
  {
  }

  lemma CodesTwo(b: seq<Byte>)
    requires |b| == 2
    ensures Codes(b) == [b[0] / 4, (b[0] % 4) * 16 + b[1] / 16, (b[1] % 16) * 4, PAD] && b == [b[0], b[1]]
  {
  }

  lemma CodesThree(b: seq<Byte>)
    requires |b| == 3
    ensures Codes(b) == Group(b[0], b[1], b[2]) && b == [b[0], b[1], b[2]]
  {
    var e := b[3..];
    assert e == [];
    assert Codes(e) == [];
    assert Codes(b) == Group(b[0], b[1], b[2]) + Codes(e);
  }

  lemma DecodeCodesOne(b: seq<Byte>)
    requires |b| == 1
    ensures DecodeCodes(Codes(b)) == Some(b)
  {
    CodesOne(b);
    UngroupOne(b[0]);
  }

  lemma DecodeCodesTwo(b: seq<Byte>)
    requires |b| == 2
    ensures DecodeCodes(Codes(b)) == Some(b)
  {
    CodesTwo(b);
    UngroupTwo(b[0], b[1]);
  }

  lemma DecodeCodesThree(b: seq<Byte>)
    requires |b| == 3
    ensures DecodeCodes(Codes(b)) == Some(b)
  {
    CodesThree(b);
    UngroupGroup(b[0], b[1], b[2]);
  }

  /** A full group in front of a decodable rest decodes to its three bytes in front of the rest. */
  lemma DecodeCodesCons(g: seq<Code>, rest: seq<Code>, x: seq<Byte>, y: seq<Byte>)
    requires |g| == 4 && |rest| >= 4
    requires UngroupFull(g) == Some(x) && DecodeCodes(rest) == Some(y)
    ensures DecodeCodes(g + rest) == Some(x + y)
  {
    var cs := g + rest;
    assert cs[..4] == g;
    assert cs[4..] == rest;
  }

  lemma CodesCons(b: seq<Byte>)
    requires |b| > 3
    ensures Codes(b) == Group(b[0], b[1], b[2]) + Codes(b[3..])
  {
  }

  lemma ConsThree(b: seq<Byte>)
    requires |b| >= 3
    ensures [b[0], b[1], b[2]] + b[3..] == b
  {
  }

  lemma DecodeCodesStep(b: seq<Byte>)
    requires |b| > 3 && DecodeCodes(Codes(b[3..])) == Some(b[3..])
    ensures DecodeCodes(Codes(b)) == Some(b)
  {
    CodesCons(b);
    UngroupGroup(b[0], b[1], b[2]);
    DecodeCodesCons(Group(b[0], b[1], b[2]), Codes(b[3..]), [b[0], b[1], b[2]], b[3..]);
    ConsThree(b);
  }

  lemma {:induction false} DecodeCodesOfCodes(b: seq<Byte>)
    ensures DecodeCodes(Codes(b)) == Some(b)
  {
    if |b| == 1 {
      DecodeCodesOne(b);
    } else if |b| == 2 {
      DecodeCodesTwo(b);
    } else if |b| == 3 {
      DecodeCodesThree(b);
    } else if |b| > 3 {
      DecodeCodesOfCodes(b[3..]);
      DecodeCodesStep(b);
    }
  }

  /** Decoding what the encoder produced gives the bytes back. */
  lemma DecodeEncode(b: seq<Byte>)
    ensures Decode(Encode(b)) == Some(b)
  {
    ParseRender(Codes(b));
    DecodeCodesOfCodes(b);
  }

  /** The encoder writes alphabet and pad characters only. */
  lemma EncodeAlphabet(b: seq<Byte>)
    ensures forall k :: 0 <= k < |Encode(b)| ==> CharCode(Encode(b)[k]).Some?
  {
    var cs := Codes(b);
    forall k | 0 <= k < |Encode(b)| ensures CharCode(Encode(b)[k]).Some? {
      CharCodeOfCodeChar(cs[k]);
    }
  }
}
