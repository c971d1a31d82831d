/**
  Python's `base64.b64encode`: the base 64 encoding of section 4 of RFC 4648
  (standard alphabet, '=' padding), with a strict decoder that accepts exactly
  the canonical encodings (section 3.5 of RFC 4648: padding only at the end,
  unused pad bits zero).
 */
module Base64 {

  import opened Wrappers
  import opened Bytes

  /** The character for a 6-bit value (table 1 of RFC 4648). */
  function Sextet(v: int): (c: char)
    requires 0 <= v < 64
  {
    if v < 26 then ('A' as int + v) as char
    else if v < 52 then ('a' as int + (v - 26)) as char
    else if v < 62 then ('0' as int + (v - 52)) as char
    else if v == 62 then '+'
    else '/'
  }

  /** The 6-bit value of an alphabet character. */
  function SextetValue(c: char): (r: Option<int>)
    ensures r.Some? ==> 0 <= r.value < 64 && Sextet(r.value) == c
  {
    if 'A' <= c <= 'Z' then Some(c as int - 'A' as int)
    else if 'a' <= c <= 'z' then Some(c as int - 'a' as int + 26)
    else if '0' <= c <= '9' then Some(c as int - '0' as int + 52)
    else if c == '+' then Some(62)
    else if c == '/' then Some(63)
    else None
  }

  predicate IsAlphabet(c: char) {
    'A' <= c <= 'Z' || 'a' <= c <= 'z' || '0' <= c <= '9' || c == '+' || c == '/'
  }

  lemma SextetRoundTrip(v: int)
    requires 0 <= v < 64
    ensures SextetValue(Sextet(v)) == Some(v) && IsAlphabet(Sextet(v))
  {
  }

  /** Number of '=' that end the encoding of `n` bytes. */
  function PadLength(n: nat): nat {
    if n % 3 == 0 then 0 else 3 - n % 3
  }

  /** Four characters for three bytes. */
  function EncodeGroup(b0: byte, b1: byte, b2: byte): (r: string)
    ensures |r| == 4 && IsAlphabet(r[0]) && IsAlphabet(r[1]) && IsAlphabet(r[2]) && IsAlphabet(r[3])
  {
    SextetRoundTrip(b0 as int / 4);
    SextetRoundTrip((b0 as int % 4) * 16 + b1 as int / 16);
    SextetRoundTrip((b1 as int % 16) * 4 + b2 as int / 64);
    SextetRoundTrip(b2 as int % 64);
    [Sextet(b0 as int / 4), Sextet((b0 as int % 4) * 16 + b1 as int / 16),
     Sextet((b1 as int % 16) * 4 + b2 as int / 64), Sextet(b2 as int % 64)]
  }

  /** A last group of one byte: two characters and two '='. */
  function EncodeOne(b0: byte): (r: string)
    ensures |r| == 4 && IsAlphabet(r[0]) && IsAlphabet(r[1]) && r[2] == '=' && r[3] == '='
  {
    SextetRoundTrip(b0 as int / 4);
    SextetRoundTrip((b0 as int % 4) * 16);
    [Sextet(b0 as int / 4), Sextet((b0 as int % 4) * 16), '=', '=']
  }

  /** A last group of two bytes: three characters and one '='. */
  function EncodeTwo(b0: byte, b1: byte): (r: string)
    ensures |r| == 4 && IsAlphabet(r[0]) && IsAlphabet(r[1]) && IsAlphabet(r[2]) && r[3] == '='
  {
    SextetRoundTrip(b0 as int / 4);
    SextetRoundTrip((b0 as int % 4) * 16 + b1 as int / 16);
    SextetRoundTrip((b1 as int % 16) * 4);
    [Sextet(b0 as int / 4), Sextet((b0 as int % 4) * 16 + b1 as int / 16), Sextet((b1 as int % 16) * 4), '=']
  }

  /** The output of `b64encode`: a group of four characters for every three
      bytes, the last group padded. */
  function Encode(b: seq<byte>): string
  {
    if |b| == 0 then []
    else if |b| == 1 then EncodeOne(b[0])
    else if |b| == 2 then EncodeTwo(b[0], b[1])
    else EncodeGroup(b[0], b[1], b[2]) + Encode(b[3..])
  }

  /** `4 * ceil(n / 3)` characters for `n` bytes. */
  lemma {:induction false} EncodeLength(b: seq<byte>)
    ensures |Encode(b)| == 4 * ((|b| + 2) / 3)
  {
    if |b| > 2 {
      EncodeLength(b[3..]);
      GroupCount(|b|);
    }
  }

  lemma GroupCount(n: nat)
    requires n >= 3
    ensures 4 * ((n - 3 + 2) / 3) + 4 == 4 * ((n + 2) / 3)
  {
  }

  /** `r` is alphabet characters followed by exactly `pad` '='. */
  predicate Padded(r: string, pad: nat) {
    pad <= |r| &&
    (forall i :: 0 <= i < |r| - pad ==> IsAlphabet(r[i])) &&
    (forall i :: |r| - pad <= i < |r| ==> r[i] == '=')
  }

  lemma PaddedConcat(g: string, rest: string, pad: nat)
    requires |g| == 4 && Padded(g, 0) && Padded(rest, pad)
    ensures Padded(g + rest, pad)
  {
    var e := g + rest;
    forall i | 0 <= i < |e| - pad ensures IsAlphabet(e[i]) {
      if i >= 4 { assert e[i] == rest[i - 4]; }
    }
    forall i | |e| - pad <= i < |e| ensures e[i] == '=' {
      assert e[i] == rest[i - 4];
    }
  }

  /** Every character of an encoding is in the alphabet except the last
      `PadLength(n)`, which are '='. */
  lemma {:induction false} EncodeAlphabet(b: seq<byte>)
    ensures Padded(Encode(b), PadLength(|b|))
  {
    if |b| == 1 {
      LastPadded(EncodeOne(b[0]), 2);
    } else if |b| == 2 {
      LastPadded(EncodeTwo(b[0], b[1]), 1);
    } else if |b| > 2 {
      EncodeAlphabet(b[3..]);
      PadLengthStep(|b|);
      PaddedConcat(EncodeGroup(b[0], b[1], b[2]), Encode(b[3..]), PadLength(|b|));
    }
  }

  lemma PadLengthStep(n: nat)
    requires n >= 3
    ensures PadLength(n - 3) == PadLength(n)
  {
  }

  lemma LastPadded(r: string, pad: nat)
    requires |r| == 4 && 1 <= pad <= 2 && IsAlphabet(r[0]) && IsAlphabet(r[1])
    requires pad == 1 ==> IsAlphabet(r[2])
    requires pad == 2 ==> r[2] == '='
    requires r[3] == '='
    ensures Padded(r, pad)
  {
  }

  /** '=' is not in the alphabet, so the padding is told apart from the data. */
  lemma PadNotAlphabet()
    ensures !IsAlphabet('=')
  {
  }

  /** Bytes of a quadruple with no padding. */
  function DecodeFull(v0: int, v1: int, v2: int, v3: int): seq<byte>
    requires 0 <= v0 < 64 && 0 <= v1 < 64 && 0 <= v2 < 64 && 0 <= v3 < 64
  {
    [(v0 * 4 + v1 / 16) as byte, ((v1 % 16) * 16 + v2 / 4) as byte, ((v2 % 4) * 64 + v3) as byte]
  }

  /** Decodes four characters none of which is '='. */
  function DecodeQuad(s: string): Option<seq<byte>>
    requires |s| == 4
  {
    match (SextetValue(s[0]), SextetValue(s[1]), SextetValue(s[2]), SextetValue(s[3]))
    case (Some(v0), Some(v1), Some(v2), Some(v3)) => Some(DecodeFull(v0, v1, v2, v3))
    case _ => None
  }

  /** Decodes the last four characters, which may end in one or two '='. */
  function DecodeLastQuad(s: string): Option<seq<byte>>
    requires |s| == 4
  {
    if s[2] == '=' && s[3] == '=' then
      match (SextetValue(s[0]), SextetValue(s[1]))
      case (Some(v0), Some(v1)) =>
        if v1 % 16 == 0 then Some([(v0 * 4 + v1 / 16) as byte]) else None
      case _ => None
    else if s[3] == '=' then
      match (SextetValue(s[0]), SextetValue(s[1]), SextetValue(s[2]))
      case (Some(v0), Some(v1), Some(v2)) =>
        if v2 % 4 == 0 then Some([(v0 * 4 + v1 / 16) as byte, ((v1 % 16) * 16 + v2 / 4) as byte])
        else None
      case _ => None
    else DecodeQuad(s)
  }

  /** The strict decoder: `None` for anything `Encode` cannot produce. */
  function Decode(s: string): Option<seq<byte>>
  {
    if s == [] then Some([])
    else if |s| < 4 then None
    else if |s| == 4 then DecodeLastQuad(s)
    else match DecodeQuad(s[..4])
      case None => None
      case Some(g) =>
        match Decode(s[4..])
        case None => None
        case Some(rest) => Some(g + rest)
  }

  lemma DivMod4(n: int, q: int, r: int)
    requires n == q * 4 + r && 0 <= r < 4
    ensures n / 4 == q && n % 4 == r
  {
  }

  lemma DivMod16(n: int, q: int, r: int)
    requires n == q * 16 + r && 0 <= r < 16
    ensures n / 16 == q && n % 16 == r
  {
  }

  lemma DivMod64(n: int, q: int, r: int)
    requires n == q * 64 + r && 0 <= r < 64
    ensures n / 64 == q && n % 64 == r
  {
  }

  /** The arithmetic of a group: three bytes cut into four sextets. */
  lemma SplitJoin(x0: int, x1: int, x2: int)
    requires 0 <= x0 < 256 && 0 <= x1 < 256 && 0 <= x2 < 256
    ensures var v1, v2 := (x0 % 4) * 16 + x1 / 16, (x1 % 16) * 4 + x2 / 64;
      0 <= v1 < 64 && 0 <= v2 < 64 &&
      x0 / 4 * 4 + v1 / 16 == x0 && (v1 % 16) * 16 + v2 / 4 == x1 && (v2 % 4) * 64 + x2 % 64 == x2
  {
    var v1, v2 := (x0 % 4) * 16 + x1 / 16, (x1 % 16) * 4 + x2 / 64;
    DivMod16(v1, x0 % 4, x1 / 16);
    DivMod4(v2, x1 % 16, x2 / 64);
  }

  /** The arithmetic of a quadruple: four sextets joined into three bytes. */
  lemma JoinSplit(v0: int, v1: int, v2: int, v3: int)
    requires 0 <= v0 < 64 && 0 <= v1 < 64 && 0 <= v2 < 64 && 0 <= v3 < 64
    ensures var x0, x1, x2 := v0 * 4 + v1 / 16, (v1 % 16) * 16 + v2 / 4, (v2 % 4) * 64 + v3;
      0 <= x0 < 256 && 0 <= x1 < 256 && 0 <= x2 < 256 &&
      x0 / 4 == v0 && (x0 % 4) * 16 + x1 / 16 == v1 && (x1 % 16) * 4 + x2 / 64 == v2 && x2 % 64 == v3
  {
    var x0, x1, x2 := v0 * 4 + v1 / 16, (v1 % 16) * 16 + v2 / 4, (v2 % 4) * 64 + v3;
    DivMod4(x0, v0, v1 / 16);
    DivMod16(x1, v1 % 16, v2 / 4);
    DivMod64(x2, v2 % 4, v3);
  }

  /** Splitting three bytes into sextets and joining them again is the identity. */
  lemma GroupRoundTrip(b0: byte, b1: byte, b2: byte)
    ensures DecodeQuad(EncodeGroup(b0, b1, b2)) == Some([b0, b1, b2])
  {
    var x0, x1, x2 := b0 as int, b1 as int, b2 as int;
    SplitJoin(x0, x1, x2);
    SextetRoundTrip(x0 / 4);
    SextetRoundTrip((x0 % 4) * 16 + x1 / 16);
    SextetRoundTrip((x1 % 16) * 4 + x2 / 64);
    SextetRoundTrip(x2 % 64);
  }

  /** Joining four sextets into bytes and splitting them again is the identity. */
  lemma QuadRoundTrip(s: string)
    requires |s| == 4 && DecodeQuad(s).Some?
    ensures |DecodeQuad(s).value| == 3
    ensures EncodeGroup(DecodeQuad(s).value[0], DecodeQuad(s).value[1], DecodeQuad(s).value[2]) == s
  {
    var v0, v1 := SextetValue(s[0]).value, SextetValue(s[1]).value;
    var v2, v3 := SextetValue(s[2]).value, SextetValue(s[3]).value;
    JoinSplit(v0, v1, v2, v3);
    var b := DecodeFull(v0, v1, v2, v3);
    assert DecodeQuad(s).value == b;
    var x0, x1, x2 := b[0] as int, b[1] as int, b[2] as int;
    assert x0 / 4 == v0 && (x0 % 4) * 16 + x1 / 16 == v1;
    assert (x1 % 16) * 4 + x2 / 64 == v2 && x2 % 64 == v3;
    assert EncodeGroup(b[0], b[1], b[2]) == [Sextet(v0), Sextet(v1), Sextet(v2), Sextet(v3)];
    assert s == [s[0], s[1], s[2], s[3]];
  }

  /** The encodings of one and of two trailing bytes decode back. */
  lemma OneRoundTrip(b0: byte)
    ensures DecodeLastQuad(EncodeOne(b0)) == Some([b0])
  {
    var x0 := b0 as int;
    SextetRoundTrip(x0 / 4);
    SextetRoundTrip((x0 % 4) * 16);
    DivMod16((x0 % 4) * 16, x0 % 4, 0);
  }

  lemma TwoRoundTrip(b0: byte, b1: byte)
    ensures DecodeLastQuad(EncodeTwo(b0, b1)) == Some([b0, b1])
  {
    var x0, x1 := b0 as int, b1 as int;
    var v1 := (x0 % 4) * 16 + x1 / 16;
    SextetRoundTrip(x0 / 4);
    SextetRoundTrip(v1);
    SextetRoundTrip((x1 % 16) * 4);
    DivMod16(v1, x0 % 4, x1 / 16);
    DivMod4((x1 % 16) * 4, x1 % 16, 0);
  }

  /** Decoding an encoding gives the bytes back. */
  lemma {:induction false} DecodeEncode(b: seq<byte>)
    ensures Decode(Encode(b)) == Some(b)
  {
    if |b| == 1 {
      OneRoundTrip(b[0]);
      assert b == [b[0]];
    } else if |b| == 2 {
      TwoRoundTrip(b[0], b[1]);
      assert b == [b[0], b[1]];
    } else if |b| == 3 {
      LastGroupRoundTrip(b);
    } else if |b| > 3 {
      DecodeEncode(b[3..]);
      DecodeConcat(b);
    }
  }

  lemma LastGroupRoundTrip(b: seq<byte>)
    requires |b| == 3
    ensures Decode(Encode(b)) == Some(b)
  {
    var g := EncodeGroup(b[0], b[1], b[2]);
    GroupRoundTrip(b[0], b[1], b[2]);
    assert Encode(b) == g by { assert b[3..] == []; assert g + [] == g; }
    assert g[3] != '=';
    assert Decode(g) == DecodeQuad(g);
    assert b == [b[0], b[1], b[2]];
  }

  /** A full group in front of bytes that round-trip round-trips too. */
  lemma DecodeConcat(b: seq<byte>)
    requires |b| > 3 && Decode(Encode(b[3..])) == Some(b[3..])
    ensures Decode(Encode(b)) == Some(b)
  {
    var g, r := EncodeGroup(b[0], b[1], b[2]), Encode(b[3..]);
    GroupRoundTrip(b[0], b[1], b[2]);
    EncodeLength(b[3..]);
    assert Encode(b) == g + r;
    DecodeQuadThen(g, r, [b[0], b[1], b[2]], b[3..]);
    SplitThree(b);
  }

  /** A quadruple without padding in front of a non-empty valid rest decodes
      group by group. */
  lemma DecodeQuadThen(g: string, r: string, x: seq<byte>, y: seq<byte>)
    requires |g| == 4 && |r| > 0 && DecodeQuad(g) == Some(x) && Decode(r) == Some(y)
    ensures Decode(g + r) == Some(x + y)
  {
    var e := g + r;
    assert e[..4] == g && e[4..] == r;
  }

  lemma SplitThree(b: seq<byte>)
    requires |b| >= 3
    ensures b == [b[0], b[1], b[2]] + b[3..]
  {
  }

  /** Whatever the strict decoder accepts is the encoding of what it returns,
      so no two strings decode to the same bytes. */
  lemma {:induction false} EncodeDecode(s: string)
    requires Decode(s).Some?
    ensures Encode(Decode(s).value) == s
  {
    if |s| == 4 {
      LastQuadRoundTrip(s);
    } else if |s| > 4 {
      DecodeStep(s);
      QuadRoundTrip(s[..4]);
      EncodeDecode(s[4..]);
      EncodeThen(DecodeQuad(s[..4]).value, Decode(s[4..]).value, s[..4], s[4..]);
      assert s == s[..4] + s[4..];
    }
  }

  /** A text longer than one quadruple decodes as its first quadruple and the rest. */
  lemma DecodeStep(s: string)
    requires |s| > 4 && Decode(s).Some?
    ensures DecodeQuad(s[..4]).Some? && Decode(s[4..]).Some?
    ensures Decode(s).value == DecodeQuad(s[..4]).value + Decode(s[4..]).value
  {
  }

  /** Three bytes whose group is `g` in front of bytes encoded as `r`. */
  lemma EncodeThen(x: seq<byte>, y: seq<byte>, g: string, r: string)
    requires |x| == 3 && EncodeGroup(x[0], x[1], x[2]) == g && Encode(y) == r
    ensures Encode(x + y) == g + r
  {
    var e := x + y;
    assert e[0] == x[0] && e[1] == x[1] && e[2] == x[2] && e[3..] == y;
  }

  lemma LastQuadRoundTrip(s: string)
    requires |s| == 4 && DecodeLastQuad(s).Some?
    ensures Encode(DecodeLastQuad(s).value) == s
  {
    if s[2] == '=' && s[3] == '=' {
      OnePadRoundTrip(s);
    } else if s[3] == '=' {
      TwoPadRoundTrip(s);
    } else {
      QuadRoundTrip(s);
      var b := DecodeQuad(s).value;
      assert b[3..] == [];
      assert Encode(b) == EncodeGroup(b[0], b[1], b[2]) + Encode([]);
    }
  }

  lemma OnePadRoundTrip(s: string)
    requires |s| == 4 && s[2] == '=' && s[3] == '=' && DecodeLastQuad(s).Some?
    ensures Encode(DecodeLastQuad(s).value) == s
  {
    var v0, v1 := SextetValue(s[0]).value, SextetValue(s[1]).value;
    var x0 := v0 * 4 + v1 / 16;
    DivMod4(x0, v0, v1 / 16);
    assert (x0 % 4) * 16 == v1;
    assert DecodeLastQuad(s).value == [x0 as byte];
    assert EncodeOne(x0 as byte) == s;
  }

  lemma TwoPadRoundTrip(s: string)
    requires |s| == 4 && s[2] != '=' && s[3] == '=' && DecodeLastQuad(s).Some?
    ensures Encode(DecodeLastQuad(s).value) == s
  {
    var v0, v1, v2 := SextetValue(s[0]).value, SextetValue(s[1]).value, SextetValue(s[2]).value;
    var x0, x1 := v0 * 4 + v1 / 16, (v1 % 16) * 16 + v2 / 4;
    DivMod4(x0, v0, v1 / 16);
    DivMod16(x1, v1 % 16, v2 / 4);
    assert (x0 % 4) * 16 + x1 / 16 == v1;
    assert (x1 % 16) * 4 == v2;
    assert DecodeLastQuad(s).value == [x0 as byte, x1 as byte];
    assert EncodeTwo(x0 as byte, x1 as byte) == s;
  }

  /** The strict decoder is the exact inverse of the encoder. */
  lemma DecodeIff(s: string, b: seq<byte>)
    ensures Decode(s) == Some(b) <==> Encode(b) == s
  {
    if Decode(s) == Some(b) { EncodeDecode(s); }
    if Encode(b) == s { DecodeEncode(b); }
  }
}
