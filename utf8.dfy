/** UTF-8 as defined in section 3 of RFC 3629: each Unicode scalar value
    becomes one to four octets. `Decode` accepts exactly the octet strings
    of the UTF8-octets syntax in section 4 of RFC 3629, and the two are
    proved inverse to each other. */
module Utf8 {
  import opened JavaTypes

  /** Octets of one code point: 1 byte below U+0080, 2 below U+0800,
      3 below U+10000, 4 above. */
  function EncodeChar(c: char): (bs: seq<byte>)
    ensures 1 <= |bs| <= 4
    ensures |bs| == 1 <==> c as int < 0x80
    ensures |bs| == 1 ==> bs[0] == c as int
  {
    var cp := c as int;
    if cp < 0x80 then
      [cp]
    else if cp < 0x800 then
      [0xC0 + cp / 0x40, 0x80 + cp % 0x40]
    else if cp < 0x1_0000 then
      [0xE0 + cp / 0x1000, 0x80 + cp / 0x40 % 0x40, 0x80 + cp % 0x40]
    else
      [0xF0 + cp / 0x4_0000, 0x80 + cp / 0x1000 % 0x40, 0x80 + cp / 0x40 % 0x40, 0x80 + cp % 0x40]
  }

  /** UTF-8 encoding of a string, one code point after another. */
  function Encode(s: string): (bs: seq<byte>)
    ensures |s| <= |bs| <= 4 * |s|
    ensures s == [] <==> bs == []
  {
    if s == [] then [] else EncodeChar(s[0]) + Encode(s[1..])
  }

  predicate IsContinuation(b: byte)
  {
    0x80 <= b < 0xC0
  }

  /** The first code point of `bs` and the number of octets it takes, or
      None when `bs` does not start with a well-formed UTF-8 sequence
      (a stray continuation byte, a truncated sequence, an overlong form,
      a surrogate, or a value above U+10FFFF). */
  function DecodeChar(bs: seq<byte>): (r: Option<(char, nat)>)
    ensures r.Some? ==> 1 <= r.value.1 <= |bs| && bs[..r.value.1] == EncodeChar(r.value.0)
  {
    if bs == [] then None
    else if bs[0] < 0x80 then
      var c := bs[0] as char;
      assert bs[..1] == EncodeChar(c);
      Some((c, 1))
    else if bs[0] < 0xC0 then None
    else if bs[0] < 0xE0 then
      if |bs| < 2 || !IsContinuation(bs[1]) then None
      else
        var cp := (bs[0] as int - 0xC0) * 0x40 + (bs[1] as int - 0x80);
        if cp < 0x80 then None
        else
          Encode2(bs[0], bs[1]);
          assert bs[..2] == [bs[0], bs[1]];
          Some((cp as char, 2))
    else if bs[0] < 0xF0 then
      if |bs| < 3 || !IsContinuation(bs[1]) || !IsContinuation(bs[2]) then None
      else
        var cp := (bs[0] as int - 0xE0) * 0x1000 + (bs[1] as int - 0x80) * 0x40 + (bs[2] as int - 0x80);
        if cp < 0x800 || (0xD800 <= cp < 0xE000) then None
        else
          Encode3(bs[0], bs[1], bs[2]);
          assert bs[..3] == [bs[0], bs[1], bs[2]];
          Some((cp as char, 3))
    else if bs[0] < 0xF8 then
      if |bs| < 4 || !IsContinuation(bs[1]) || !IsContinuation(bs[2]) || !IsContinuation(bs[3]) then None
      else
        var cp := (bs[0] as int - 0xF0) * 0x4_0000 + (bs[1] as int - 0x80) * 0x1000 + (bs[2] as int - 0x80) * 0x40 + (bs[3] as int - 0x80);
        if cp < 0x1_0000 || 0x10_FFFF < cp then None
        else
          Encode4(bs[0], bs[1], bs[2], bs[3]);
          assert bs[..4] == [bs[0], bs[1], bs[2], bs[3]];
          Some((cp as char, 4))
    else None
  }

  // The octets DecodeChar accepts are the encoding of the code point it computes.

  lemma Encode2(b0: byte, b1: byte)
    requires 0xC0 <= b0 < 0xE0 && IsContinuation(b1)
    requires 0x80 <= (b0 - 0xC0) * 0x40 + (b1 - 0x80)
    ensures EncodeChar(((b0 - 0xC0) * 0x40 + (b1 - 0x80)) as char) == [b0, b1]
  {
  }

  lemma Encode3(b0: byte, b1: byte, b2: byte)
    requires 0xE0 <= b0 < 0xF0 && IsContinuation(b1) && IsContinuation(b2)
    requires var cp := (b0 - 0xE0) * 0x1000 + (b1 - 0x80) * 0x40 + (b2 - 0x80);
      0x800 <= cp && !(0xD800 <= cp < 0xE000)
    ensures EncodeChar(((b0 - 0xE0) * 0x1000 + (b1 - 0x80) * 0x40 + (b2 - 0x80)) as char) == [b0, b1, b2]
  {
    Split3(b0 - 0xE0, b1 - 0x80, b2 - 0x80);
  }

  lemma Encode4(b0: byte, b1: byte, b2: byte, b3: byte)
    requires 0xF0 <= b0 < 0xF8 && IsContinuation(b1) && IsContinuation(b2) && IsContinuation(b3)
    requires var cp := (b0 - 0xF0) * 0x4_0000 + (b1 - 0x80) * 0x1000 + (b2 - 0x80) * 0x40 + (b3 - 0x80);
      0x1_0000 <= cp <= 0x10_FFFF
    ensures EncodeChar(((b0 - 0xF0) * 0x4_0000 + (b1 - 0x80) * 0x1000 + (b2 - 0x80) * 0x40 + (b3 - 0x80)) as char)
         == [b0, b1, b2, b3]
  {
    Split4(b0 - 0xF0, b1 - 0x80, b2 - 0x80, b3 - 0x80);
  }

  /** Decodes a whole octet string, or None when it is not well-formed UTF-8. */
  function Decode(bs: seq<byte>): (r: Option<string>)
    ensures r.Some? ==> Encode(r.value) == bs
    decreases |bs|
  {
    if bs == [] then Some([])
    else
      var first := DecodeChar(bs);
      if first.None? then None
      else
        var (c, n) := first.value;
        var rest := Decode(bs[n..]);
        if rest.None? then None
        else
          DecodeStep(bs, c, n, rest.value);
          Some([c] + rest.value)
  }

  lemma DecodeStep(bs: seq<byte>, c: char, n: nat, rest: string)
    requires 1 <= n <= |bs| && bs[..n] == EncodeChar(c) && Encode(rest) == bs[n..]
    ensures Encode([c] + rest) == bs
  {
  }

  /** Decoding the octets of a code point followed by anything gives back
      that code point and its length. */
  lemma DecodeEncodeChar(c: char, rest: seq<byte>)
    ensures DecodeChar(EncodeChar(c) + rest) == Some((c, |EncodeChar(c)|))
  {
    var cp := c as int;
    if cp < 0x80 {
    } else if cp < 0x800 {
      DecodeEncodeChar2(c, rest);
    } else if cp < 0x1_0000 {
      DecodeEncodeChar3(c, rest);
    } else {
      DecodeEncodeChar4(c, rest);
    }
  }

  lemma DecodeEncodeChar2(c: char, rest: seq<byte>)
    requires 0x80 <= c as int < 0x800
    ensures DecodeChar(EncodeChar(c) + rest) == Some((c, 2))
  {
  }

  lemma DecodeEncodeChar3(c: char, rest: seq<byte>)
    requires 0x800 <= c as int < 0x1_0000
    ensures DecodeChar(EncodeChar(c) + rest) == Some((c, 3))
  {
  }

  lemma DecodeEncodeChar4(c: char, rest: seq<byte>)
    requires 0x1_0000 <= c as int
    ensures DecodeChar(EncodeChar(c) + rest) == Some((c, 4))
  {
    var cp := c as int;
    var bs := EncodeChar(c) + rest;
    var a, b, d, e := cp / 0x4_0000, cp / 0x1000 % 0x40, cp / 0x40 % 0x40, cp % 0x40;
    Join4(cp);
    assert cp == a * 0x4_0000 + b * 0x1000 + d * 0x40 + e;
    assert bs[0] as int - 0xF0 == a && bs[1] as int - 0x80 == b && bs[2] as int - 0x80 == d && bs[3] as int - 0x80 == e;
  }

  /** Round trip: decoding the UTF-8 encoding of any string gives the string back. */
  lemma {:induction false} DecodeEncode(s: string)
    ensures Decode(Encode(s)) == Some(s)
  {
    if s != [] {
      var head := EncodeChar(s[0]);
      var tail := Encode(s[1..]);
      DecodeEncodeChar(s[0], tail);
      assert (head + tail)[|head|..] == tail;
      DecodeEncode(s[1..]);
      assert [s[0]] + s[1..] == s;
    }
  }

  /** Encoding is injective: different strings have different octets. */
  lemma EncodeInjective(s: string, t: string)
    requires Encode(s) == Encode(t)
    ensures s == t
  {
    DecodeEncode(s);
    DecodeEncode(t);
  }

  /** A string of ASCII characters encodes to its character codes, one octet each. */
  lemma {:induction false} EncodeAscii(s: string)
    requires forall i :: 0 <= i < |s| ==> s[i] as int < 0x80
    ensures |Encode(s)| == |s|
    ensures forall i :: 0 <= i < |s| ==> Encode(s)[i] == s[i] as int
  {
    if s != [] {
      EncodeAscii(s[1..]);
    }
  }

  // Digit-by-digit facts for base 0x40, relating a code point to its octets.

  lemma Split2(a: int, b: int)
    requires 0 <= b < 0x40
    ensures (a * 0x40 + b) / 0x40 == a && (a * 0x40 + b) % 0x40 == b
  {
  }

  lemma Split3(a: int, b: int, c: int)
    requires 0 <= b < 0x40 && 0 <= c < 0x40
    ensures (a * 0x1000 + b * 0x40 + c) / 0x1000 == a
    ensures (a * 0x1000 + b * 0x40 + c) / 0x40 % 0x40 == b
    ensures (a * 0x1000 + b * 0x40 + c) % 0x40 == c
  {
    Split2(a * 0x40 + b, c);
    Split2(a, b);
  }

  lemma Split4(a: int, b: int, c: int, d: int)
    requires 0 <= b < 0x40 && 0 <= c < 0x40 && 0 <= d < 0x40
    ensures (a * 0x4_0000 + b * 0x1000 + c * 0x40 + d) / 0x4_0000 == a
    ensures (a * 0x4_0000 + b * 0x1000 + c * 0x40 + d) / 0x1000 % 0x40 == b
    ensures (a * 0x4_0000 + b * 0x1000 + c * 0x40 + d) / 0x40 % 0x40 == c
    ensures (a * 0x4_0000 + b * 0x1000 + c * 0x40 + d) % 0x40 == d
  {
    Split2(a * 0x1000 + b * 0x40 + c, d);
    Split3(a * 0x40 + b, c, d);
    Split3(a, b, c);
  }

  lemma DivDiv(x: int)
    requires 0 <= x
    ensures x / 0x40 / 0x40 == x / 0x1000
    ensures x / 0x1000 / 0x40 == x / 0x4_0000
  {
  }

  /** A code point is the sum of its base-0x40 digits. */
  lemma Join4(x: int)
    requires 0 <= x
    ensures x == x / 0x4_0000 * 0x4_0000 + x / 0x1000 % 0x40 * 0x1000 + x / 0x40 % 0x40 * 0x40 + x % 0x40
  {
    DivDiv(x);
    var y := x / 0x40;
    var z := y / 0x40;
    assert x == y * 0x40 + x % 0x40;
    assert y == z * 0x40 + y % 0x40;
    assert z == z / 0x40 * 0x40 + z % 0x40;
  }
}
