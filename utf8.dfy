/** Python's strict UTF-8 codec: `str.encode()` and `bytes.decode("utf-8")`.
    Decoding is partial: overlong forms, encoded surrogates, code points above
    U+10FFFF and truncated or stray continuation bytes make it fail (in Python,
    a `UnicodeDecodeError`). */
module Utf8 {
  import opened Basics

  /** A continuation byte 10xxxxxx. */
  predicate IsCont(b: byte) { 0x80 <= b < 0xC0 }

  /** The UTF-8 encoding of one code point. */
  function EncodeChar(c: char): (r: seq<byte>)
    ensures 1 <= |r| <= 4
    ensures |r| == 1 <==> (c as int) < 0x80
  {
    var cp := c as int;
    if cp < 0x80 then [cp as byte]
    else if cp < 0x800 then [(0xC0 + cp / 64) as byte, (0x80 + cp % 64) as byte]
    else if cp < 0x10000 then
      [(0xE0 + cp / 4096) as byte, (0x80 + (cp / 64) % 64) as byte, (0x80 + cp % 64) as byte]
    else
      [(0xF0 + cp / 262144) as byte, (0x80 + (cp / 4096) % 64) as byte,
       (0x80 + (cp / 64) % 64) as byte, (0x80 + cp % 64) as byte]
  }

  /** `s.encode()` (UTF-8). */
  function Encode(s: string): (r: seq<byte>)
    ensures |r| >= |s|
    decreases |s|
  {
    if s == [] then [] else EncodeChar(s[0]) + Encode(s[1..])
  }

  /** Whether the second byte of a three-byte sequence led by `b0` is allowed
      (this excludes overlong forms and the surrogates U+D800..U+DFFF). */
  predicate SecondOf3(b0: int, b1: byte)
  {
    if b0 == 0xE0 then 0xA0 <= b1 < 0xC0
    else if b0 == 0xED then 0x80 <= b1 < 0xA0
    else IsCont(b1)
  }

  /** Whether the second byte of a four-byte sequence led by `b0` is allowed
      (this excludes overlong forms and code points above U+10FFFF). */
  predicate SecondOf4(b0: int, b1: byte)
  {
    if b0 == 0xF0 then 0x90 <= b1 < 0xC0
    else if b0 == 0xF4 then 0x80 <= b1 < 0x90
    else IsCont(b1)
  }

  /** The character that starts `b` and the number of bytes it occupies,
      or None when `b` does not start with a well-formed sequence. */
  function DecodeFirst(b: seq<byte>): (r: Option<(char, nat)>)
    requires |b| > 0
    ensures r.Some? ==> 1 <= r.value.1 <= |b| && r.value.1 <= 4
  {
    var b0 := b[0] as int;
    if b0 < 0x80 then Some((b0 as char, 1))
    else if 0xC2 <= b0 < 0xE0 then
      if |b| >= 2 && IsCont(b[1]) then
        Some((((b0 - 0xC0) * 64 + (b[1] as int - 0x80)) as char, 2))
      else None
    else if 0xE0 <= b0 < 0xF0 then
      if |b| >= 3 && SecondOf3(b0, b[1]) && IsCont(b[2]) then
        Some((((b0 - 0xE0) * 4096 + (b[1] as int - 0x80) * 64 + (b[2] as int - 0x80)) as char, 3))
      else None
    else if 0xF0 <= b0 < 0xF5 then
      if |b| >= 4 && SecondOf4(b0, b[1]) && IsCont(b[2]) && IsCont(b[3]) then
        Some((((b0 - 0xF0) * 262144 + (b[1] as int - 0x80) * 4096
               + (b[2] as int - 0x80) * 64 + (b[3] as int - 0x80)) as char, 4))
      else None
    else None
  }

  /** `b.decode("utf-8")`: None when Python raises `UnicodeDecodeError`. */
  function Decode(b: seq<byte>): (r: Option<string>)
    ensures r.Some? ==> |r.value| <= |b|
    decreases |b|
  {
    if b == [] then Some([])
    else match DecodeFirst(b)
      case None => None
      case Some(first) =>
        match Decode(b[first.1..])
        case None => None
        case Some(rest) => Some([first.0] + rest)
  }

  lemma DecodeFirstOfEncoded(c: char, rest: seq<byte>)
    ensures DecodeFirst(EncodeChar(c) + rest) == Some((c, |EncodeChar(c)|))
  {
    var cp := c as int;
    if cp < 0x80 {
    } else if cp < 0x800 {
      DecodeFirstOf2(c, rest);
    } else if cp < 0x10000 {
      DecodeFirstOf3(c, rest);
    } else {
      DecodeFirstOf4(c, rest);
    }
  }

  lemma DecodeFirstOf2(c: char, rest: seq<byte>)
    requires 0x80 <= c as int < 0x800
    ensures DecodeFirst(EncodeChar(c) + rest) == Some((c, 2))
  {
    var cp := c as int;
    var hi, lo := cp / 64, cp % 64;
    assert hi * 64 + lo == cp;
    var b := EncodeChar(c) + rest;
    assert b[0] as int == 0xC0 + hi && b[1] as int == 0x80 + lo;
    assert (b[0] as int - 0xC0) * 64 + (b[1] as int - 0x80) == cp;
  }

  lemma DecodeFirstOf3(c: char, rest: seq<byte>)
    requires 0x800 <= c as int < 0x10000
    ensures DecodeFirst(EncodeChar(c) + rest) == Some((c, 3))
  {
    var cp := c as int;
    var q, lo := cp / 64, cp % 64;
    var hi, mid := q / 64, q % 64;
    assert q * 64 + lo == cp;
    assert hi * 64 + mid == q;
    assert hi == cp / 4096;
    var b := EncodeChar(c) + rest;
    assert b[0] as int == 0xE0 + hi && b[1] as int == 0x80 + mid && b[2] as int == 0x80 + lo;
    assert (b[0] as int - 0xE0) * 4096 + (b[1] as int - 0x80) * 64 + (b[2] as int - 0x80) == cp;
  }

  lemma DecodeFirstOf4(c: char, rest: seq<byte>)
    requires 0x10000 <= c as int
    ensures DecodeFirst(EncodeChar(c) + rest) == Some((c, 4))
  {
    var cp := c as int;
    var q1, b3 := cp / 64, cp % 64;
    var q2, b2 := q1 / 64, q1 % 64;
    var hi, b1 := q2 / 64, q2 % 64;
    assert q1 * 64 + b3 == cp;
    assert q2 * 64 + b2 == q1;
    assert hi * 64 + b1 == q2;
    assert q2 == cp / 4096;
    assert hi == cp / 262144;
    var b := EncodeChar(c) + rest;
    assert b[0] as int == 0xF0 + hi && b[1] as int == 0x80 + b1;
    assert b[2] as int == 0x80 + b2 && b[3] as int == 0x80 + b3;
    assert (b[0] as int - 0xF0) * 262144 + (b[1] as int - 0x80) * 4096
           + (b[2] as int - 0x80) * 64 + (b[3] as int - 0x80) == cp;
  }

  /** Decoding undoes encoding: every string survives the round trip. */
  lemma {:induction false} DecodeEncode(s: string)
    ensures Decode(Encode(s)) == Some(s)
    decreases |s|
  {
    if s != [] {
      var e := EncodeChar(s[0]);
      DecodeFirstOfEncoded(s[0], Encode(s[1..]));
      assert (e + Encode(s[1..]))[|e|..] == Encode(s[1..]);
      DecodeEncode(s[1..]);
      assert [s[0]] + s[1..] == s;
    }
  }

  /** Bytes below 0x80 decode one for one into the characters with the same codes. */
  lemma {:induction false} DecodeAscii(b: seq<byte>)
    requires forall i :: 0 <= i < |b| ==> b[i] < 0x80
    ensures Decode(b).Some? && |Decode(b).value| == |b|
    ensures forall i :: 0 <= i < |b| ==> Decode(b).value[i] as int == b[i] as int
    decreases |b|
  {
    if b != [] {
      DecodeAscii(b[1..]);
    }
  }
}
