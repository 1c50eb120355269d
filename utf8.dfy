/**
 * Strict UTF-8 (RFC 3629): what Foundation's `String(data:encoding: .utf8)`
 * accepts. A byte sequence decodes when it is a concatenation of well-formed
 * sequences for Unicode scalar values: no stray continuation bytes, no
 * truncated sequences, no overlong forms, no surrogates, nothing above
 * U+10FFFF.
 */
module Utf8 {
  import opened Wrappers

  newtype byte = x: int | 0 <= x < 256

  predicate IsContinuation(b: byte)
  {
    0x80 <= b < 0xC0
  }

  /** The shortest UTF-8 form of one scalar value. */
  function EncodeChar(c: char): (bs: seq<byte>)
    ensures 1 <= |bs| <= 4
  {
    var cp := c as int;
    if cp < 0x80 then
      [cp as byte]
    else if cp < 0x800 then
      [(0xC0 + cp / 64) as byte, (0x80 + cp % 64) as byte]
    else if cp < 0x1_0000 then
      [(0xE0 + cp / 4096) as byte, (0x80 + cp / 64 % 64) as byte, (0x80 + cp % 64) as byte]
    else
      [(0xF0 + cp / 262144) as byte, (0x80 + cp / 4096 % 64) as byte,
       (0x80 + cp / 64 % 64) as byte, (0x80 + cp % 64) as byte]
  }

  function Encode(s: string): seq<byte>
  {
    if |s| == 0 then [] else EncodeChar(s[0]) + Encode(s[1..])
  }

  /**
   * The scalar value at the front of `bs` and the number of bytes it takes,
   * or None when the front is not a well-formed sequence. The lead byte gives
   * the length; the value must need that many bytes (no overlong form), must
   * not be a surrogate and must not exceed U+10FFFF.
   */
  function DecodeFirst(bs: seq<byte>): (r: Option<(char, nat)>)
    ensures r.Some? ==> 1 <= r.value.1 <= |bs|
  {
    if |bs| == 0 then None
    else
      var b0 := bs[0] as int;
      if b0 < 0x80 then Some((b0 as char, 1))
      else if b0 < 0xC2 then None
      else if b0 < 0xE0 then
        if |bs| < 2 || !IsContinuation(bs[1]) then None
        else
          var cp := (b0 - 0xC0) * 64 + (bs[1] as int - 0x80);
          Some((cp as char, 2))
      else if b0 < 0xF0 then
        if |bs| < 3 || !IsContinuation(bs[1]) || !IsContinuation(bs[2]) then None
        else
          var cp := (b0 - 0xE0) * 4096 + (bs[1] as int - 0x80) * 64 + (bs[2] as int - 0x80);
          if cp < 0x800 || (0xD800 <= cp < 0xE000) then None else Some((cp as char, 3))
      else if b0 < 0xF5 then
        if |bs| < 4 || !IsContinuation(bs[1]) || !IsContinuation(bs[2]) || !IsContinuation(bs[3]) then None
        else
          var cp := (b0 - 0xF0) * 262144 + (bs[1] as int - 0x80) * 4096
            + (bs[2] as int - 0x80) * 64 + (bs[3] as int - 0x80);
          if cp < 0x1_0000 || cp >= 0x11_0000 then None else Some((cp as char, 4))
      else None
  }

  /** The text `bs` encodes, or None when it is not valid UTF-8. */
  function Decode(bs: seq<byte>): Option<string>
    decreases |bs|
  {
    if |bs| == 0 then Some([])
    else match DecodeFirst(bs)
      case None => None
      case Some((c, n)) =>
        match Decode(bs[n..])
        case None => None
        case Some(rest) => Some([c] + rest)
  }

  lemma DecodeFirstOfEncodeChar(c: char, rest: seq<byte>)
    ensures DecodeFirst(EncodeChar(c) + rest) == Some((c, |EncodeChar(c)|))
  {
    var cp := c as int;
    if cp < 0x80 {
    } else if cp < 0x800 {
      DecodeTwo(c, rest);
    } else if cp < 0x1_0000 {
      DecodeThree(c, rest);
    } else {
      DecodeFour(c, rest);
    }
  }

  lemma DecodeTwo(c: char, rest: seq<byte>)
    requires 0x80 <= c as int < 0x800
    ensures DecodeFirst(EncodeChar(c) + rest) == Some((c, 2))
  {
    var cp := c as int;
    var q, r := cp / 64, cp % 64;
    assert cp == 64 * q + r && 2 <= q < 32;
    var bs := EncodeChar(c) + rest;
    assert bs[0] as int == 0xC0 + q && bs[1] as int == 0x80 + r;
  }

  lemma DecodeThree(c: char, rest: seq<byte>)
    requires 0x800 <= c as int < 0x1_0000
    ensures DecodeFirst(EncodeChar(c) + rest) == Some((c, 3))
  {
    var cp := c as int;
    var q, r := cp / 64, cp % 64;
    var q2, r2 := q / 64, q % 64;
    assert cp == 64 * q + r && q == 64 * q2 + r2;
    assert cp / 4096 == q2;
    var bs := EncodeChar(c) + rest;
    assert bs[0] as int == 0xE0 + q2 && bs[1] as int == 0x80 + r2 && bs[2] as int == 0x80 + r;
    assert (bs[0] as int - 0xE0) * 4096 + (bs[1] as int - 0x80) * 64 + (bs[2] as int - 0x80) == cp;
  }

  lemma DecodeFour(c: char, rest: seq<byte>)
    requires 0x1_0000 <= c as int
    ensures DecodeFirst(EncodeChar(c) + rest) == Some((c, 4))
  {
    var cp := c as int;
    var q, r := cp / 64, cp % 64;
    var q2, r2 := q / 64, q % 64;
    var q3, r3 := q2 / 64, q2 % 64;
    assert cp == 64 * q + r && q == 64 * q2 + r2 && q2 == 64 * q3 + r3;
    assert cp / 4096 == q2 && cp / 262144 == q3;
    assert cp / 4096 % 64 == r3;
    var bs := EncodeChar(c) + rest;
    assert bs[0] as int == 0xF0 + q3 && bs[1] as int == 0x80 + r3
      && bs[2] as int == 0x80 + r2 && bs[3] as int == 0x80 + r;
    assert (bs[0] as int - 0xF0) * 262144 + (bs[1] as int - 0x80) * 4096
      + (bs[2] as int - 0x80) * 64 + (bs[3] as int - 0x80) == cp;
  }

  /** Every text decodes back from its encoding. */
  lemma {:induction false} DecodeEncode(s: string)
    ensures Decode(Encode(s)) == Some(s)
    decreases |s|
  {
    if |s| > 0 {
      var head := EncodeChar(s[0]);
      DecodeFirstOfEncodeChar(s[0], Encode(s[1..]));
      DecodeEncode(s[1..]);
      assert (head + Encode(s[1..]))[|head|..] == Encode(s[1..]);
      assert [s[0]] + s[1..] == s;
    }
  }

  lemma EncodeCharOfDecodeFirst(bs: seq<byte>)
    requires DecodeFirst(bs).Some?
    ensures EncodeChar(DecodeFirst(bs).value.0) == bs[..DecodeFirst(bs).value.1]
  {
    var b0 := bs[0] as int;
    if b0 < 0x80 {
      assert bs[..1] == [bs[0]];
    } else if b0 < 0xE0 {
      EncodeTwo(bs);
    } else if b0 < 0xF0 {
      EncodeThree(bs);
    } else {
      EncodeFour(bs);
    }
  }

  lemma EncodeTwo(bs: seq<byte>)
    requires |bs| >= 2 && 0xC2 <= bs[0] < 0xE0 && IsContinuation(bs[1])
    ensures DecodeFirst(bs).Some? && EncodeChar(DecodeFirst(bs).value.0) == bs[..2]
  {
    var a, b := bs[0] as int - 0xC0, bs[1] as int - 0x80;
    var cp := 64 * a + b;
    assert cp / 64 == a && cp % 64 == b;
    assert bs[..2] == [bs[0], bs[1]];
  }

  lemma EncodeThree(bs: seq<byte>)
    requires DecodeFirst(bs).Some? && 0xE0 <= bs[0] < 0xF0
    ensures EncodeChar(DecodeFirst(bs).value.0) == bs[..3]
  {
    var a, b, d := bs[0] as int - 0xE0, bs[1] as int - 0x80, bs[2] as int - 0x80;
    var cp := 4096 * a + 64 * b + d;
    assert cp / 64 == 64 * a + b && cp % 64 == d;
    assert cp / 64 % 64 == b && cp / 4096 == a;
    assert bs[..3] == [bs[0], bs[1], bs[2]];
  }

  lemma EncodeFour(bs: seq<byte>)
    requires DecodeFirst(bs).Some? && 0xF0 <= bs[0]
    ensures EncodeChar(DecodeFirst(bs).value.0) == bs[..4]
  {
    var a, b, d, e := bs[0] as int - 0xF0, bs[1] as int - 0x80, bs[2] as int - 0x80, bs[3] as int - 0x80;
    var cp := 262144 * a + 4096 * b + 64 * d + e;
    assert cp / 64 == 4096 * a + 64 * b + d && cp % 64 == e;
    assert cp / 4096 == 64 * a + b && cp / 262144 == a;
    assert cp / 64 % 64 == d && cp / 4096 % 64 == b;
    assert bs[..4] == [bs[0], bs[1], bs[2], bs[3]];
  }

  lemma DecodeCons(bs: seq<byte>)
    requires |bs| > 0 && Decode(bs).Some?
    ensures DecodeFirst(bs).Some? && Decode(bs[DecodeFirst(bs).value.1..]).Some?
    ensures Decode(bs).value == [DecodeFirst(bs).value.0] + Decode(bs[DecodeFirst(bs).value.1..]).value
  {
  }

  lemma EncodeCons(c: char, t: string)
    ensures Encode([c] + t) == EncodeChar(c) + Encode(t)
  {
    assert ([c] + t)[0] == c && ([c] + t)[1..] == t;
  }

  /** Only the encoding of a text decodes to it: decoding is strict. */
  lemma {:induction false} EncodeDecode(bs: seq<byte>)
    requires Decode(bs).Some?
    ensures Encode(Decode(bs).value) == bs
    decreases |bs|
  {
    if |bs| > 0 {
      DecodeCons(bs);
      var c := DecodeFirst(bs).value.0;
      var n := DecodeFirst(bs).value.1;
      var t := Decode(bs[n..]).value;
      calc {
        Encode(Decode(bs).value);
        Encode([c] + t);
        { EncodeCons(c, t); }
        EncodeChar(c) + Encode(t);
        { EncodeCharOfDecodeFirst(bs); EncodeDecode(bs[n..]); }
        bs[..n] + bs[n..];
        bs;
      }
    }
  }

  /** `bs` decodes to `s` exactly when `bs` is the encoding of `s`. */
  lemma DecodeIff(bs: seq<byte>, s: string)
    ensures Decode(bs) == Some(s) <==> Encode(s) == bs
  {
    if Decode(bs) == Some(s) {
      EncodeDecode(bs);
    }
    if Encode(s) == bs {
      DecodeEncode(s);
    }
  }
}
