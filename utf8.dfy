/**
 * Well-formed UTF-8 as in section 4 of RFC 3629, which is what Python's
 * strict `bytes.decode()` accepts, and the UTF-8 encoding of a string.
 */
module Utf8 {
  import opened BitCodec

  /** A continuation byte 10xxxxxx. */
  predicate Continuation(b: Byte)
  {
    0x80 <= b <= 0xBF
  }

  /**
   * The length of the well-formed character that starts the input, or 0
   * when its first bytes are not one (RFC 3629, section 4 "Syntax of UTF-8
   * Byte Sequences": no overlong forms, no surrogates, nothing above U+10FFFF).
   */
  function CharLength(bs: seq<Byte>): (n: nat)
    requires |bs| > 0
    ensures n <= 4 && n <= |bs|
  {
    var b0 := bs[0];
    if b0 <= 0x7F then 1
    else if 0xC2 <= b0 <= 0xDF then
      if |bs| >= 2 && Continuation(bs[1]) then 2 else 0
    else if 0xE0 <= b0 <= 0xEF then
      var lo := if b0 == 0xE0 then 0xA0 else 0x80;
      var hi := if b0 == 0xED then 0x9F else 0xBF;
      if |bs| >= 3 && lo <= bs[1] <= hi && Continuation(bs[2]) then 3 else 0
    else if 0xF0 <= b0 <= 0xF4 then
      var lo := if b0 == 0xF0 then 0x90 else 0x80;
      var hi := if b0 == 0xF4 then 0x8F else 0xBF;
      if |bs| >= 4 && lo <= bs[1] <= hi && Continuation(bs[2]) && Continuation(bs[3]) then 4 else 0
    else 0
  }

  /** The input is a sequence of well-formed characters. */
  predicate Valid(bs: seq<Byte>)
    decreases |bs|
  {
    |bs| == 0 || (CharLength(bs) > 0 && Valid(bs[CharLength(bs)..]))
  }

  /** A Unicode scalar value: a code point that is not a surrogate. */
  predicate Scalar(cp: int)
  {
    0 <= cp <= 0x10FFFF && !(0xD800 <= cp <= 0xDFFF)
  }

  /** The UTF-8 form of one scalar value. */
  function EncodeScalar(cp: int): (bs: seq<Byte>)
    requires Scalar(cp)
    ensures 1 <= |bs| <= 4
    ensures CharLength(bs) == |bs|
  {
    if cp < 0x80 then [cp]
    else if cp < 0x800 then [0xC0 + cp / 0x40, 0x80 + cp % 0x40]
    else if cp < 0x10000 then
      [0xE0 + cp / 0x1000, 0x80 + (cp / 0x40) % 0x40, 0x80 + cp % 0x40]
    else
      [0xF0 + cp / 0x40000, 0x80 + (cp / 0x1000) % 0x40, 0x80 + (cp / 0x40) % 0x40, 0x80 + cp % 0x40]
  }

  /** `str.encode()`: the characters' UTF-8 forms, one after the other. */
  function Encode(s: string): (bs: seq<Byte>)
    ensures |s| <= |bs| <= 4 * |s|
  {
    if |s| == 0 then [] else EncodeScalar(s[0] as int) + Encode(s[1..])
  }

  /** A well-formed character followed by well-formed text is well-formed. */
  lemma CharThenValid(c: seq<Byte>, rest: seq<Byte>)
    requires |c| > 0 && CharLength(c) == |c| && Valid(rest)
    ensures Valid(c + rest)
  {
    var bs := c + rest;
    assert bs[..|c|] == c;
    assert CharLength(bs) == |c|;
    assert bs[|c|..] == rest;
  }

  /** Encoding always produces well-formed UTF-8, so decoding an encoded string never fails. */
  lemma {:induction false} EncodeValid(s: string)
    ensures Valid(Encode(s))
  {
    if |s| > 0 {
      EncodeValid(s[1..]);
      CharThenValid(EncodeScalar(s[0] as int), Encode(s[1..]));
    }
  }

  /** A lone continuation byte and the overlong two-byte form of NUL are rejected. */
  lemma RejectsMalformed()
    ensures !Valid([0x80])
    ensures !Valid([0xC0, 0x80])
  {
  }
}
