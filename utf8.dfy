/**
 * Python's `str.encode('utf-8')` and strict `bytes.decode('utf-8')`, which the BIN and
 * 8-bit ASCII string encodings use. A Dafny `char` is a Unicode scalar value; the
 * decoder accepts exactly the well-formed byte sequences of table 3-7 of the Unicode
 * Standard (no overlong forms, no surrogates, nothing above U+10FFFF).
 */
module Utf8 {
  import opened Bytes
  import opened Wrappers
  import opened Align

  predicate IsAscii(s: string)
  {
    forall i :: 0 <= i < |s| ==> s[i] as int < 0x80
  }

  /** The UTF-8 bytes of one character. */
  function EncodeChar(c: char): (bs: seq<byte>)
    ensures 1 <= |bs| <= 4
    ensures |bs| == 1 <==> c as int < 0x80
  {
    var n := c as int;
    if n < 0x80 then [n]
    else if n < 0x800 then [0xC0 + n / 64, 0x80 + n % 64]
    else if n < 0x1_0000 then [0xE0 + n / 4096, 0x80 + (n / 64) % 64, 0x80 + n % 64]
    else [0xF0 + n / 262144, 0x80 + (n / 4096) % 64, 0x80 + (n / 64) % 64, 0x80 + n % 64]
  }

  function Encode(s: string): seq<byte>
  {
    if |s| == 0 then [] else EncodeChar(s[0]) + Encode(s[1..])
  }

  predicate IsContinuation(b: byte)
  {
    0x80 <= b <= 0xBF
  }

  /**
   * The character that `bs` starts with and the number of bytes it takes, or None
   * when `bs` does not start with a well-formed UTF-8 sequence.
   */
  function DecodeFirst(bs: seq<byte>): (r: Option<(char, nat)>)
    requires |bs| > 0
    ensures r.Some? ==> 1 <= r.value.1 <= |bs|
  {
    var b0 := bs[0];
    if b0 < 0x80 then
      Some((b0 as char, 1))
    else if 0xC2 <= b0 <= 0xDF then
      if |bs| >= 2 && IsContinuation(bs[1]) then
        Some((((b0 as int - 0xC0) * 64 + (bs[1] as int - 0x80)) as char, 2))
      else None
    else if 0xE0 <= b0 <= 0xEF then
      var lo := if b0 == 0xE0 then 0xA0 else 0x80;
      var hi := if b0 == 0xED then 0x9F else 0xBF;
      if |bs| >= 3 && lo <= bs[1] <= hi && IsContinuation(bs[2]) then
        Some((((b0 as int - 0xE0) * 4096 + (bs[1] as int - 0x80) * 64 + (bs[2] as int - 0x80)) as char, 3))
      else None
    else if 0xF0 <= b0 <= 0xF4 then
      var lo := if b0 == 0xF0 then 0x90 else 0x80;
      var hi := if b0 == 0xF4 then 0x8F else 0xBF;
      if |bs| >= 4 && lo <= bs[1] <= hi && IsContinuation(bs[2]) && IsContinuation(bs[3]) then
        Some((((b0 as int - 0xF0) * 262144 + (bs[1] as int - 0x80) * 4096 + (bs[2] as int - 0x80) * 64 + (bs[3] as int - 0x80)) as char, 4))
      else None
    else
      None
  }

  /** Strict decoding: the text, or None if any part of `bs` is not well-formed. */
  function Decode(bs: seq<byte>): Option<string>
    decreases |bs|
  {
    if |bs| == 0 then
      Some([])
    else
      match DecodeFirst(bs)
      case None => None
      case Some((c, k)) =>
        match Decode(bs[k..])
        case None => None
        case Some(s) => Some([c] + s)
  }

  lemma DecodeFirstEncodeChar(c: char, rest: seq<byte>)
    ensures DecodeFirst(EncodeChar(c) + rest) == Some((c, |EncodeChar(c)|))
  {
    var n := c as int;
    if n < 0x80 {
    } else if n < 0x800 {
      DecodeTwo(c, rest);
    } else if n < 0x1_0000 {
      DecodeThree(c, rest);
    } else {
      DecodeFour(c, rest);
    }
  }

  lemma DecodeTwo(c: char, rest: seq<byte>)
    requires 0x80 <= c as int < 0x800
    ensures DecodeFirst(EncodeChar(c) + rest) == Some((c, 2))
  {
    var n := c as int;
    var bs := EncodeChar(c) + rest;
    var a, b := n / 64, n % 64;
    assert bs[0] == 0xC0 + a && bs[1] == 0x80 + b;
    assert a * 64 + b == n;
  }

  lemma DecodeThree(c: char, rest: seq<byte>)
    requires 0x800 <= c as int < 0x1_0000
    ensures DecodeFirst(EncodeChar(c) + rest) == Some((c, 3))
  {
    var n := c as int;
    var bs := EncodeChar(c) + rest;
    var a, m := n / 4096, n % 4096;
    var b, d := m / 64, m % 64;
    assert n == a * 4096 + m;
    assert m == b * 64 + d;
    assert (n / 64) % 64 == b && n % 64 == d by {
      assert n == (a * 64 + b) * 64 + d;
      DivMod64(n, a * 64 + b, d);
      DivMod64(a * 64 + b, a, b);
    }
    assert bs[0] == 0xE0 + a && bs[1] == 0x80 + b && bs[2] == 0x80 + d;
    assert a == 0 ==> b >= 32;
    assert a == 13 ==> b < 32;
  }

  lemma DecodeFour(c: char, rest: seq<byte>)
    requires 0x1_0000 <= c as int
    ensures DecodeFirst(EncodeChar(c) + rest) == Some((c, 4))
  {
    var n := c as int;
    var bs := EncodeChar(c) + rest;
    var x, d := n / 64, n % 64;
    var y, b2 := x / 64, x % 64;
    var a, b1 := y / 64, y % 64;
    DivMod64(n, x, d);
    DivMod64(x, y, b2);
    DivMod64(y, a, b1);
    assert n / 4096 == y by { assert n == y * 4096 + (b2 * 64 + d); DivModUnique(n, 4096, y, b2 * 64 + d); }
    assert n / 262144 == a by { assert n == a * 262144 + (b1 * 4096 + b2 * 64 + d); DivModUnique(n, 262144, a, b1 * 4096 + b2 * 64 + d); }
    assert bs[0] == 0xF0 + a && bs[1] == 0x80 + b1 && bs[2] == 0x80 + b2 && bs[3] == 0x80 + d;
    assert n == a * 262144 + b1 * 4096 + b2 * 64 + d;
    assert a == 0 ==> b1 >= 16;
    assert a == 4 ==> b1 < 16;
  }

  lemma DivMod64(n: int, q: int, r: int)
    requires n == q * 64 + r && 0 <= r < 64
    ensures n / 64 == q && n % 64 == r
  {
  }

  /** Decoding what was encoded gives the text back. */
  lemma {:induction false} DecodeEncode(s: string)
    ensures Decode(Encode(s)) == Some(s)
  {
    if |s| > 0 {
      var e := EncodeChar(s[0]);
      DecodeFirstEncodeChar(s[0], Encode(s[1..]));
      assert (e + Encode(s[1..]))[|e|..] == Encode(s[1..]);
      DecodeEncode(s[1..]);
      assert s == [s[0]] + s[1..];
    }
  }

  /** Every character takes at least one byte, and exactly one only when it is ASCII. */
  lemma {:induction false} EncodeLength(s: string)
    ensures |Encode(s)| >= |s|
    ensures |Encode(s)| == |s| <==> IsAscii(s)
  {
    if |s| > 0 {
      EncodeLength(s[1..]);
      assert IsAscii(s) <==> s[0] as int < 0x80 && IsAscii(s[1..]) by {
        if IsAscii(s) {
          assert forall i :: 0 <= i < |s| - 1 ==> s[1..][i] == s[i + 1];
        }
        if s[0] as int < 0x80 && IsAscii(s[1..]) {
          assert forall i :: 0 < i < |s| ==> s[i] == s[1..][i - 1];
        }
      }
    }
  }

  /** ASCII text is encoded one byte per character, each byte the character's code. */
  lemma {:induction false} EncodeAscii(s: string)
    requires IsAscii(s)
    ensures |Encode(s)| == |s|
    ensures forall i :: 0 <= i < |s| ==> Encode(s)[i] == s[i] as int
  {
    if |s| > 0 {
      assert forall i :: 0 <= i < |s| - 1 ==> s[1..][i] == s[i + 1];
      EncodeAscii(s[1..]);
    }
  }

  /** A well-formed sequence that DecodeFirst reads is exactly the encoding of the character it yields. */
  lemma EncodeCharDecodeFirst(bs: seq<byte>)
    requires |bs| > 0 && DecodeFirst(bs).Some?
    ensures EncodeChar(DecodeFirst(bs).value.0) == bs[..DecodeFirst(bs).value.1]
  {
    var b0 := bs[0];
    if b0 < 0x80 {
    } else if b0 <= 0xDF {
      var n := DecodeFirst(bs).value.0 as int;
      DivMod64(n, b0 as int - 0xC0, bs[1] as int - 0x80);
    } else if b0 <= 0xEF {
      var n := DecodeFirst(bs).value.0 as int;
      EncodeThree(n, bs[0] as int - 0xE0, bs[1] as int - 0x80, bs[2] as int - 0x80);
    } else {
      var n := DecodeFirst(bs).value.0 as int;
      EncodeFour(n, bs[0] as int - 0xF0, bs[1] as int - 0x80, bs[2] as int - 0x80, bs[3] as int - 0x80);
    }
  }

  lemma EncodeThree(n: int, a: int, b: int, d: int)
    requires 0 <= a < 16 && 0 <= b < 64 && 0 <= d < 64
    requires n == a * 4096 + b * 64 + d
    ensures n / 4096 == a && (n / 64) % 64 == b && n % 64 == d
  {
    DivMod64(n, a * 64 + b, d);
    DivMod64(a * 64 + b, a, b);
    DivModUnique(n, 4096, a, b * 64 + d);
  }

  lemma EncodeFour(n: int, a: int, b1: int, b2: int, d: int)
    requires 0 <= a < 8 && 0 <= b1 < 64 && 0 <= b2 < 64 && 0 <= d < 64
    requires n == a * 262144 + b1 * 4096 + b2 * 64 + d
    ensures n / 262144 == a && (n / 4096) % 64 == b1 && (n / 64) % 64 == b2 && n % 64 == d
  {
    DivMod64(n, (a * 64 + b1) * 64 + b2, d);
    DivMod64((a * 64 + b1) * 64 + b2, a * 64 + b1, b2);
    DivModUnique(n, 4096, a * 64 + b1, b2 * 64 + d);
    DivModUnique(n, 262144, a, b1 * 4096 + b2 * 64 + d);
    DivMod64(a * 64 + b1, a, b1);
  }

  /** Encoding what was decoded gives the bytes back: the decoder accepts nothing but encodings. */
  lemma {:induction false} EncodeDecode(bs: seq<byte>)
    requires Decode(bs).Some?
    ensures Encode(Decode(bs).value) == bs
    decreases |bs|
  {
    if |bs| > 0 {
      var k := DecodeFirst(bs).value.1;
      EncodeCharDecodeFirst(bs);
      EncodeDecode(bs[k..]);
      var s := Decode(bs).value;
      assert s[1..] == Decode(bs[k..]).value;
      assert bs == bs[..k] + bs[k..];
    }
  }
}
