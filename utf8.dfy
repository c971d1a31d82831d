/**
  Python's `str.encode("utf-8")`: each code point becomes one to four bytes
  (section 3 of RFC 3629), and a strict decoder accepts exactly what the
  encoder can produce.
 */
module Utf8 {

  import opened Wrappers
  import opened Bytes

  predicate IsAscii(s: string) {
    forall i :: 0 <= i < |s| ==> s[i] as int < 0x80
  }

  /** The continuation byte carrying the low six bits of `n`. */
  function Cont(n: nat): (x: byte)
    ensures 0x80 <= x < 0xC0
  {
    (0x80 + n % 64) as byte
  }

  /** The bytes of one code point. */
  function EncodeChar(c: char): (b: seq<byte>)
    ensures 1 <= |b| <= 4
    ensures |b| == 1 <==> c as int < 0x80
  {
    var n := c as int;
    if n < 0x80 then [n as byte]
    else if n < 0x800 then [(0xC0 + n / 64) as byte, Cont(n)]
    else if n < 0x10000 then [(0xE0 + n / 64 / 64) as byte, Cont(n / 64), Cont(n)]
    else [(0xF0 + n / 64 / 64 / 64) as byte, Cont(n / 64 / 64), Cont(n / 64), Cont(n)]
  }

  function Encode(s: string): (b: seq<byte>)
    ensures |b| >= |s|
  {
    if s == [] then [] else EncodeChar(s[0]) + Encode(s[1..])
  }

  predicate IsContinuation(x: byte) {
    0x80 <= x < 0xC0
  }

  /** A scalar value: what a Dafny `char` can hold. */
  predicate IsScalar(n: int) {
    0 <= n < 0xD800 || 0xE000 <= n < 0x110000
  }

  /** Decodes the code point at the front of `b` and says how many bytes it
      took; rejects overlong forms, surrogates and values past U+10FFFF. */
  function DecodeChar(b: seq<byte>): (r: Option<(char, nat)>)
    ensures r.Some? ==> 1 <= r.value.1 <= |b|
  {
    if |b| == 0 then None
    else if b[0] < 0x80 then Some((b[0] as int as char, 1))
    else if 0xC0 <= b[0] < 0xE0 && |b| >= 2 && IsContinuation(b[1]) then
      var n := (b[0] as int - 0xC0) * 64 + (b[1] as int - 0x80);
      if 0x80 <= n then Some((n as char, 2)) else None
    else if 0xE0 <= b[0] < 0xF0 && |b| >= 3 && IsContinuation(b[1]) && IsContinuation(b[2]) then
      var n := ((b[0] as int - 0xE0) * 64 + (b[1] as int - 0x80)) * 64 + (b[2] as int - 0x80);
      if 0x800 <= n && IsScalar(n) then Some((n as char, 3)) else None
    else if 0xF0 <= b[0] < 0xF8 && |b| >= 4 && IsContinuation(b[1]) && IsContinuation(b[2])
         && IsContinuation(b[3]) then
      var n := (((b[0] as int - 0xF0) * 64 + (b[1] as int - 0x80)) * 64
               + (b[2] as int - 0x80)) * 64 + (b[3] as int - 0x80);
      if 0x10000 <= n < 0x110000 then Some((n as char, 4)) else None
    else None
  }

  function Decode(b: seq<byte>): Option<string>
    decreases |b|
  {
    if b == [] then Some([])
    else match DecodeChar(b)
      case None => None
      case Some((c, k)) =>
        match Decode(b[k..])
        case None => None
        case Some(rest) => Some([c] + rest)
  }

  lemma DivMod64(n: int, q: int, r: int)
    requires n == q * 64 + r && 0 <= r < 64
    ensures n / 64 == q && n % 64 == r
  {
  }

  lemma DecodeEncodeChar(c: char, rest: seq<byte>)
    ensures DecodeChar(EncodeChar(c) + rest) == Some((c, |EncodeChar(c)|))
  {
    var n := c as int;
    var b := EncodeChar(c) + rest;
    if n < 0x80 {
    } else if n < 0x800 {
      assert b[0] as int == 0xC0 + n / 64 && b[1] == Cont(n);
    } else if n < 0x10000 {
      assert b[0] as int == 0xE0 + n / 64 / 64;
      assert b[1] == Cont(n / 64) && b[2] == Cont(n);
    } else {
      assert b[0] as int == 0xF0 + n / 64 / 64 / 64 && b[1] == Cont(n / 64 / 64);
      assert b[2] == Cont(n / 64) && b[3] == Cont(n);
    }
  }

  lemma EncodeDecodeChar(b: seq<byte>)
    requires DecodeChar(b).Some?
    ensures EncodeChar(DecodeChar(b).value.0) == b[..DecodeChar(b).value.1]
  {
    var c, k := DecodeChar(b).value.0, DecodeChar(b).value.1;
    if k == 1 {
      assert b[..1] == [b[0]];
    } else if k == 2 {
      TwoBytes(b[0] as int - 0xC0, b[1] as int - 0x80, c);
      assert b[..2] == [b[0], b[1]];
    } else if k == 3 {
      ThreeBytes(b[0] as int - 0xE0, b[1] as int - 0x80, b[2] as int - 0x80, c);
      assert b[..3] == [b[0], b[1], b[2]];
    } else {
      FourBytes(b[0] as int - 0xF0, b[1] as int - 0x80, b[2] as int - 0x80, b[3] as int - 0x80, c);
      assert b[..4] == [b[0], b[1], b[2], b[3]];
    }
  }

  lemma TwoBytes(x0: int, x1: int, c: char)
    requires 0 <= x0 < 32 && 0 <= x1 < 64 && c as int == x0 * 64 + x1 && 0x80 <= c as int
    ensures EncodeChar(c) == [(0xC0 + x0) as byte, (0x80 + x1) as byte]
  {
    DivMod64(c as int, x0, x1);
  }

  lemma ThreeBytes(x0: int, x1: int, x2: int, c: char)
    requires 0 <= x0 < 16 && 0 <= x1 < 64 && 0 <= x2 < 64
    requires c as int == (x0 * 64 + x1) * 64 + x2 && 0x800 <= c as int
    ensures EncodeChar(c) == [(0xE0 + x0) as byte, (0x80 + x1) as byte, (0x80 + x2) as byte]
  {
    var n := c as int;
    DivMod64(n, x0 * 64 + x1, x2);
    DivMod64(x0 * 64 + x1, x0, x1);
    assert n / 64 / 64 == x0 && n / 64 % 64 == x1 && n % 64 == x2;
  }

  lemma FourBytes(x0: int, x1: int, x2: int, x3: int, c: char)
    requires 0 <= x0 < 8 && 0 <= x1 < 64 && 0 <= x2 < 64 && 0 <= x3 < 64
    requires c as int == ((x0 * 64 + x1) * 64 + x2) * 64 + x3 && 0x10000 <= c as int
    ensures EncodeChar(c) == [(0xF0 + x0) as byte, (0x80 + x1) as byte, (0x80 + x2) as byte, (0x80 + x3) as byte]
  {
    var n := c as int;
    DivMod64(n, (x0 * 64 + x1) * 64 + x2, x3);
    DivMod64((x0 * 64 + x1) * 64 + x2, x0 * 64 + x1, x2);
    DivMod64(x0 * 64 + x1, x0, x1);
    assert n / 64 / 64 / 64 == x0 && n / 64 / 64 % 64 == x1 && n / 64 % 64 == x2 && n % 64 == x3;
  }

  /** Decoding the encoding gives the string back. */
  lemma {:induction false} DecodeEncode(s: string)
    ensures Decode(Encode(s)) == Some(s)
  {
    if s != [] {
      var e := EncodeChar(s[0]);
      DecodeEncodeChar(s[0], Encode(s[1..]));
      assert (e + Encode(s[1..]))[|e|..] == Encode(s[1..]);
      DecodeEncode(s[1..]);
      assert [s[0]] + s[1..] == s;
    }
  }

  /** Whatever the decoder accepts is the encoding of what it returns. */
  lemma {:induction false} EncodeDecode(b: seq<byte>)
    requires Decode(b).Some?
    ensures Encode(Decode(b).value) == b
    decreases |b|
  {
    if b != [] {
      var c, k := DecodeStep(b);
      EncodeDecode(b[k..]);
      EncodeCons(c, Decode(b[k..]).value, b[..k], b[k..]);
      assert b == b[..k] + b[k..];
    }
  }

  /** Non-empty bytes decode as their first code point and the rest. */
  lemma DecodeStep(b: seq<byte>) returns (c: char, k: nat)
    requires b != [] && Decode(b).Some?
    ensures 1 <= k <= |b| && EncodeChar(c) == b[..k] && Decode(b[k..]).Some?
    ensures Decode(b).value == [c] + Decode(b[k..]).value
  {
    c, k := DecodeChar(b).value.0, DecodeChar(b).value.1;
    EncodeDecodeChar(b);
  }

  lemma EncodeCons(c: char, t: string, e: seq<byte>, r: seq<byte>)
    requires EncodeChar(c) == e && Encode(t) == r
    ensures Encode([c] + t) == e + r
  {
    var s := [c] + t;
    assert s[0] == c && s[1..] == t;
  }

  /** An ASCII string encodes to one byte per character, its code. */
  lemma {:induction false} EncodeAscii(s: string)
    requires IsAscii(s)
    ensures |Encode(s)| == |s|
    ensures forall i :: 0 <= i < |s| ==> Encode(s)[i] as int == s[i] as int
  {
    if s != [] {
      EncodeAscii(s[1..]);
    }
  }
}
