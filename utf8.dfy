/**
 * UTF-8 as `URLSearchParams` uses it: encoding a string to bytes, and the
 * WHATWG Encoding Standard's UTF-8 decoder with replacement (every
 * malformed sequence yields one U+FFFD). `URLSearchParams` is a browser
 * built-in that app.js calls; it is modelled so that the hash round trip of
 * app.js:218-267 can be stated without assuming it.
 */
module Utf8 {

  type byte = x: int | 0 <= x < 256

  const Replacement: char := '\U{FFFD}'

  /** The UTF-8 bytes of one scalar value. */
  function EncodeChar(c: char): (r: seq<byte>)
    ensures 1 <= |r| <= 4
    ensures (c as int < 0x80) == (|r| == 1)
  {
    var cp := c as int;
    if cp < 0x80 then [cp]
    else if cp < 0x800 then [0xC0 + cp / 64, 0x80 + cp % 64]
    else if cp < 0x10000 then [0xE0 + cp / 4096, 0x80 + (cp / 64) % 64, 0x80 + cp % 64]
    else [0xF0 + cp / 262144, 0x80 + (cp / 4096) % 64, 0x80 + (cp / 64) % 64, 0x80 + cp % 64]
  }

  /** UTF-8 encode. */
  function Encode(s: string): seq<byte> {
    if s == [] then [] else EncodeChar(s[0]) + Encode(s[1..])
  }

  /** One step of the WHATWG UTF-8 decoder: the next scalar value (or U+FFFD)
      and the number of bytes it consumes. A bad continuation byte is not
      consumed; a sequence cut short by the end of input consumes the rest. */
  function DecodeOne(b: seq<byte>): (r: (char, nat))
    requires b != []
    ensures 1 <= r.1 <= |b|
  {
    var b0 := b[0] as int;
    if b0 < 0x80 then (b0 as char, 1)
    else if 0xC2 <= b0 <= 0xDF then
      if |b| < 2 || !(0x80 <= b[1] <= 0xBF) then (Replacement, 1)
      else (((b0 - 0xC0) * 64 + (b[1] as int - 0x80)) as char, 2)
    else if 0xE0 <= b0 <= 0xEF then
      var lower := if b0 == 0xE0 then 0xA0 else 0x80;
      var upper := if b0 == 0xED then 0x9F else 0xBF;
      if |b| < 2 || !(lower <= b[1] <= upper) then (Replacement, 1)
      else if |b| < 3 || !(0x80 <= b[2] <= 0xBF) then (Replacement, 2)
      else (((b0 - 0xE0) * 4096 + (b[1] as int - 0x80) * 64 + (b[2] as int - 0x80)) as char, 3)
    else if 0xF0 <= b0 <= 0xF4 then
      var lower := if b0 == 0xF0 then 0x90 else 0x80;
      var upper := if b0 == 0xF4 then 0x8F else 0xBF;
      if |b| < 2 || !(lower <= b[1] <= upper) then (Replacement, 1)
      else if |b| < 3 || !(0x80 <= b[2] <= 0xBF) then (Replacement, 2)
      else if |b| < 4 || !(0x80 <= b[3] <= 0xBF) then (Replacement, 3)
      else (((b0 - 0xF0) * 262144 + (b[1] as int - 0x80) * 4096 + (b[2] as int - 0x80) * 64 + (b[3] as int - 0x80)) as char, 4)
    else (Replacement, 1)
  }

  /** UTF-8 decode without BOM, replacing errors. */
  function Decode(b: seq<byte>): string
    decreases |b|
  {
    if b == [] then []
    else
      var (c, n) := DecodeOne(b);
      [c] + Decode(b[n..])
  }

  lemma Decode2(b: seq<byte>, cp: int)
    requires 0x80 <= cp < 0x800 && |b| >= 2
    requires b[0] == 0xC0 + cp / 64 && b[1] == 0x80 + cp % 64
    ensures 0 <= cp < 0xD800 && DecodeOne(b) == (cp as char, 2)
  {
    assert cp == (cp / 64) * 64 + cp % 64;
  }

  lemma Decode3(b: seq<byte>, cp: int, d2: int, d1: int, d0: int)
    requires 0x800 <= cp < 0x10000 && !(0xD800 <= cp < 0xE000) && |b| >= 3
    requires 0 <= d2 < 16 && 0 <= d1 < 64 && 0 <= d0 < 64
    requires cp == d2 * 4096 + d1 * 64 + d0
    requires b[0] == 0xE0 + d2 && b[1] == 0x80 + d1 && b[2] == 0x80 + d0
    ensures DecodeOne(b) == (cp as char, 3)
  {
    assert d2 == 0 ==> d1 >= 32;
    assert d2 == 13 ==> d1 < 32;
  }

  lemma Decode4(b: seq<byte>, cp: int, d3: int, d2: int, d1: int, d0: int)
    requires 0x10000 <= cp < 0x110000 && |b| >= 4
    requires 0 <= d3 < 8 && 0 <= d2 < 64 && 0 <= d1 < 64 && 0 <= d0 < 64
    requires cp == d3 * 262144 + d2 * 4096 + d1 * 64 + d0
    requires b[0] == 0xF0 + d3 && b[1] == 0x80 + d2 && b[2] == 0x80 + d1 && b[3] == 0x80 + d0
    ensures DecodeOne(b) == (cp as char, 4)
  {
    assert d3 <= 4;
    assert d3 == 0 ==> d2 >= 16;
    assert d3 == 4 ==> d2 < 16;
  }

  /** The decoder reads back exactly the bytes of one encoded scalar value. */
  lemma DecodeEncodedChar(c: char, rest: seq<byte>)
    ensures DecodeOne(EncodeChar(c) + rest) == (c, |EncodeChar(c)|)
  {
    var cp := c as int;
    var b := EncodeChar(c) + rest;
    if cp < 0x80 {
    } else if cp < 0x800 {
      Decode2(b, cp);
    } else if cp < 0x10000 {
      var q := cp / 64;
      assert cp == q * 64 + cp % 64;
      assert q == (q / 64) * 64 + q % 64;
      assert q / 64 == cp / 4096;
      Decode3(b, cp, cp / 4096, q % 64, cp % 64);
    } else {
      var q := cp / 64;
      var q2 := q / 64;
      assert cp == q * 64 + cp % 64;
      assert q == q2 * 64 + q % 64;
      assert q2 == (q2 / 64) * 64 + q2 % 64;
      assert q2 == cp / 4096 && q2 / 64 == cp / 262144;
      Decode4(b, cp, cp / 262144, q2 % 64, q % 64, cp % 64);
    }
  }

  /** Decoding undoes encoding. */
  lemma {:induction false} DecodeEncode(s: string)
    ensures Decode(Encode(s)) == s
  {
    if s != [] {
      var e := EncodeChar(s[0]);
      DecodeEncodedChar(s[0], Encode(s[1..]));
      assert (e + Encode(s[1..]))[|e|..] == Encode(s[1..]);
      DecodeEncode(s[1..]);
    }
  }

  lemma {:induction false} EncodeConcat(a: string, b: string)
    ensures Encode(a + b) == Encode(a) + Encode(b)
  {
    if a == [] {
      assert a + b == b;
    } else {
      assert (a + b)[1..] == a[1..] + b;
      EncodeConcat(a[1..], b);
    }
  }

  /** The string whose characters are the given ASCII bytes. */
  function Ascii(b: seq<byte>): string
    requires forall i :: 0 <= i < |b| ==> b[i] < 0x80
  {
    seq(|b|, i requires 0 <= i < |b| => b[i] as char)
  }

  /** An ASCII string is encoded byte for byte. */
  lemma {:induction false} EncodeAscii(b: seq<byte>)
    requires forall i :: 0 <= i < |b| ==> b[i] < 0x80
    ensures Encode(Ascii(b)) == b
  {
    if b != [] {
      assert Ascii(b)[1..] == Ascii(b[1..]);
      EncodeAscii(b[1..]);
    }
  }
}
