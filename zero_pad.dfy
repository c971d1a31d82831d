/**
  Python's `f"{i:04d}"`: the decimal digits of `i`, preceded by '-' for a
  negative `i`, zero-filled after the sign to a total width of at least four,
  together with a decimal parser that reads such a string back.
 */
module ZeroPad {

  import opened Wrappers

  predicate IsDigit(c: char) {
    '0' <= c <= '9'
  }

  predicate AllDigits(s: string) {
    forall i :: 0 <= i < |s| ==> IsDigit(s[i])
  }

  function DigitChar(d: nat): (c: char)
    requires d < 10
    ensures IsDigit(c) && c as int - '0' as int == d
  {
    ('0' as int + d) as char
  }

  function Pow10(k: nat): (p: nat)
    ensures p >= 1
  {
    if k == 0 then 1 else 10 * Pow10(k - 1)
  }

  /** The number a string of decimal digits denotes, most significant digit first. */
  function DecimalValue(s: string): nat
    requires AllDigits(s)
  {
    if s == [] then 0 else DecimalValue(s[..|s| - 1]) * 10 + (s[|s| - 1] as int - '0' as int)
  }

  /** `str(n)` for a non-negative integer: the shortest digit string denoting `n`. */
  function Digits(n: nat): string
  {
    if n < 10 then [DigitChar(n)] else Digits(n / 10) + [DigitChar(n % 10)]
  }

  /** The digits of `n` denote `n`; there are as many as `n` needs, and
      only zero itself starts with '0'. */
  lemma {:induction false} DigitsSpec(n: nat)
    ensures var r := Digits(n);
      |r| >= 1 && AllDigits(r) && DecimalValue(r) == n
      && n < Pow10(|r|) && (|r| == 1 || Pow10(|r| - 1) <= n)
      && (r[0] == '0' ==> n == 0)
  {
    if n >= 10 {
      DigitsSpec(n / 10);
      var r := Digits(n);
      assert r[..|r| - 1] == Digits(n / 10);
    }
  }

  function Zeros(k: nat): string
  {
    seq(k, _ => '0')
  }

  /** Left-fill `s` with '0' up to `width` characters. */
  function ZeroFill(s: string, width: nat): (r: string)
    ensures |r| == if |s| >= width then |s| else width
  {
    if |s| >= width then s else Zeros(width - |s|) + s
  }

  /** Filling only ever adds zeros in front. */
  lemma ZeroFillSpec(s: string, width: nat)
    ensures ZeroFill(s, width) == Zeros(|ZeroFill(s, width)| - |s|) + s
  {
    if |s| >= width {
      assert s == Zeros(0) + s;
    }
  }

  /** `f"{i:04d}"`. */
  function Format04(i: int): string
  {
    if i >= 0 then ZeroFill(Digits(i), 4) else "-" + ZeroFill(Digits(-i), 3)
  }

  /** Reads an optional '-' followed by one or more decimal digits. */
  function ParseDecimal(s: string): (r: Option<int>)
    ensures r.Some? ==> |s| > 0
  {
    if |s| > 1 && s[0] == '-' && AllDigits(s[1..]) then Some(0 - DecimalValue(s[1..]) as int)
    else if |s| > 0 && AllDigits(s) then Some(DecimalValue(s))
    else None
  }

  /** Leading zeros do not change the value of a digit string. */
  lemma {:induction false} LeadingZeros(k: nat, s: string)
    requires AllDigits(s)
    ensures AllDigits(Zeros(k) + s) && DecimalValue(Zeros(k) + s) == DecimalValue(s)
  {
    var t := Zeros(k) + s;
    if s == [] {
      assert t == Zeros(k);
      ZerosValue(k);
    } else {
      assert t[..|t| - 1] == Zeros(k) + s[..|s| - 1];
      LeadingZeros(k, s[..|s| - 1]);
    }
  }

  lemma {:induction false} ZerosValue(k: nat)
    ensures DecimalValue(Zeros(k)) == 0
  {
    if k > 0 {
      assert Zeros(k)[..k - 1] == Zeros(k - 1);
      ZerosValue(k - 1);
    }
  }

  /** For every id of the generator's range, the formatted id is exactly four
      decimal digits whose value is the id. */
  lemma Format04FourDigits(i: int)
    requires 0 <= i <= 9999
    ensures |Format04(i)| == 4 && AllDigits(Format04(i)) && DecimalValue(Format04(i)) == i
  {
    var d := Digits(i);
    DigitsSpec(i);
    if |d| > 4 {
      assert Pow10(4) == 10000;
      PowMonotone(4, |d| - 1);
    }
    LeadingZeros(4 - |d|, d);
  }

  lemma {:induction false} PowMonotone(j: nat, k: nat)
    requires j <= k
    ensures Pow10(j) <= Pow10(k)
  {
    if j < k { PowMonotone(j, k - 1); }
  }

  /** A non-negative id is never truncated: it keeps all its digits and is
      padded only when it has fewer than four. */
  lemma Format04Width(i: nat)
    ensures |Format04(i)| == if |Digits(i)| >= 4 then |Digits(i)| else 4
    ensures Format04(i)[|Format04(i)| - |Digits(i)|..] == Digits(i)
  {
    DigitsSpec(i);
  }

  /** The decimal parser reads every formatted id back, negative ones included. */
  lemma Format04RoundTrip(i: int)
    ensures ParseDecimal(Format04(i)) == Some(i)
  {
    if i >= 0 {
      UnsignedRoundTrip(i, 4);
    } else {
      UnsignedRoundTrip(-i, 3);
      var f := ZeroFill(Digits(-i), 3);
      assert Format04(i) == "-" + f;
      assert Format04(i)[1..] == f;
    }
  }

  /** The zero-filled digits of `n` are digits denoting `n`, and start
      with a digit rather than '-'. */
  lemma UnsignedRoundTrip(n: nat, width: nat)
    ensures var f := ZeroFill(Digits(n), width);
      |f| > 0 && AllDigits(f) && DecimalValue(f) == n && ParseDecimal(f) == Some(n)
  {
    var d := Digits(n);
    DigitsSpec(n);
    var f := ZeroFill(d, width);
    ZeroFillSpec(d, width);
    LeadingZeros(|f| - |d|, d);
    assert f[0] != '-' by { assert IsDigit(f[0]); }
  }

  /** Distinct ids give distinct strings. */
  lemma Format04Injective(i: int, j: int)
    requires Format04(i) == Format04(j)
    ensures i == j
  {
    Format04RoundTrip(i);
    Format04RoundTrip(j);
  }

  /** The text is at least four characters wide, ends with a digit, and
      starts with '-' exactly for a negative number. */
  lemma Format04Shape(i: int)
    ensures |Format04(i)| >= 4
    ensures IsDigit(Format04(i)[|Format04(i)| - 1])
    ensures Format04(i)[0] == '-' <==> i < 0
  {
    var d := if i >= 0 then Digits(i) else Digits(-i);
    if i >= 0 { DigitsSpec(i); } else { DigitsSpec(-i); }
    var z := ZeroFill(d, if i >= 0 then 4 else 3);
    assert z[|z| - 1] == d[|d| - 1];
    if i >= 0 { assert IsDigit(z[0]); }
  }
}
