/**
 * Decimal and hexadecimal digit strings, and the part of Go's `strconv`
 * the validators call: `ParseInt(s, 10, 64)`.
 */
module Strconv {

  import opened Wrappers

  /** The ASCII digits `0`..`9`. */
  predicate IsDigit(c: char) {
    '0' <= c <= '9'
  }

  /** `0`..`9` and `a`..`f`: the character class `[a-f0-9]`. */
  predicate IsLowerHex(c: char) {
    IsDigit(c) || 'a' <= c <= 'f'
  }

  predicate AllDigits(s: string) {
    forall i :: 0 <= i < |s| ==> IsDigit(s[i])
  }

  /** The value of a digit character, or -1 for any other character. */
  function CharValue(c: char): (v: int)
    ensures -1 <= v < 16
    ensures IsDigit(c) <==> 0 <= v < 10
    ensures IsLowerHex(c) <==> 0 <= v < 16
  {
    if '0' <= c <= '9' then c as int - '0' as int
    else if 'a' <= c <= 'f' then c as int - 'a' as int + 10
    else -1
  }

  predicate IsDigitIn(c: char, base: nat) {
    0 <= CharValue(c) < base
  }

  predicate AllDigitsIn(s: string, base: nat) {
    forall i :: 0 <= i < |s| ==> IsDigitIn(s[i], base)
  }

  /** The lower-case character of digit `d`. */
  function DigitChar(d: nat): (c: char)
    requires d < 16
    ensures CharValue(c) == d
  {
    if d < 10 then ('0' as int + d) as char else ('a' as int + d - 10) as char
  }

  lemma CharOfValue(c: char)
    requires 0 <= CharValue(c)
    ensures DigitChar(CharValue(c)) == c
  {
  }

  /** The value of a digit string in `base`, most significant digit first. */
  function ValueIn(s: string, base: nat): nat
    requires AllDigitsIn(s, base)
  {
    if s == [] then 0 else ValueIn(s[..|s| - 1], base) * base + CharValue(s[|s| - 1])
  }

  function Pow(b: nat, e: nat): nat {
    if e == 0 then 1 else b * Pow(b, e - 1)
  }

  /** `n` written with exactly `width` digits of `base`, zero-padded on the left. */
  function PadDigits(n: nat, width: nat, base: nat): (s: string)
    requires 2 <= base <= 16
    ensures |s| == width && AllDigitsIn(s, base)
  {
    if width == 0 then [] else PadDigits(n / base, width - 1, base) + [DigitChar(n % base)]
  }

  lemma DivModOf(q: nat, r: nat, b: nat)
    requires r < b
    ensures (q * b + r) / b == q && (q * b + r) % b == r
  {
    var x := q * b + r;
    var k, m := x / b, x % b;
    assert x == k * b + m && 0 <= m < b;
    if k > q {
      assert (q + 1) * b == q * b + b;
      MulMonotone(q + 1, k, b);
    } else if k < q {
      assert (k + 1) * b == k * b + b;
      MulMonotone(k + 1, q, b);
    }
  }

  lemma Euclid(n: nat, b: nat)
    requires b > 0
    ensures n == (n / b) * b + n % b
  {
  }

  lemma MulMonotone(a: nat, c: nat, b: nat)
    requires a <= c
    ensures a * b <= c * b
  {
  }

  lemma {:induction false} ValueBelowPow(s: string, base: nat)
    requires AllDigitsIn(s, base)
    ensures ValueIn(s, base) < Pow(base, |s|)
  {
    if s != [] {
      var p := s[..|s| - 1];
      ValueBelowPow(p, base);
      var v := ValueIn(p, base);
      assert ValueIn(s, base) < v * base + base;
      MulMonotone(v + 1, Pow(base, |p|), base);
      assert (v + 1) * base == v * base + base;
      assert Pow(base, |s|) == base * Pow(base, |p|);
    }
  }

  lemma QuotientBelowPow(n: nat, base: nat, width: nat)
    requires 2 <= base && 0 < width && n < Pow(base, width)
    ensures n / base < Pow(base, width - 1)
  {
    var q, m := n / base, Pow(base, width - 1);
    assert n >= q * base;
    if q >= m {
      MulMonotone(m, q, base);
    }
  }

  /** Reading back a padded rendering gives the number, when it fits in `width` digits. */
  lemma {:induction false} ValueOfPadDigits(n: nat, width: nat, base: nat)
    requires 2 <= base <= 16 && n < Pow(base, width)
    ensures ValueIn(PadDigits(n, width, base), base) == n
    decreases width
  {
    if width > 0 {
      var q, r := n / base, n % base;
      QuotientBelowPow(n, base, width);
      ValueOfPadDigits(q, width - 1, base);
      var s := PadDigits(n, width, base);
      var p := PadDigits(q, width - 1, base);
      assert s[..|s| - 1] == p;
      assert s[|s| - 1] == DigitChar(r);
      assert ValueIn(s, base) == ValueIn(p, base) * base + r;
      Euclid(n, base);
    }
  }

  /** Every digit string is the padded rendering of its own value. */
  lemma {:induction false} PadDigitsOfValue(s: string, base: nat)
    requires 2 <= base <= 16 && AllDigitsIn(s, base)
    ensures PadDigits(ValueIn(s, base), |s|, base) == s
  {
    if s != [] {
      var p := s[..|s| - 1];
      var d := CharValue(s[|s| - 1]);
      DivModOf(ValueIn(p, base), d, base);
      PadDigitsOfValue(p, base);
      CharOfValue(s[|s| - 1]);
      assert s == p + [s[|s| - 1]];
    }
  }

  /** A leading zero does not change the value of a digit string. */
  lemma {:induction false} ValueInLeadingZero(s: string, base: nat)
    requires 1 <= base && AllDigitsIn(s, base)
    ensures AllDigitsIn("0" + s, base) && ValueIn("0" + s, base) == ValueIn(s, base)
  {
    var z := "0" + s;
    if s != [] {
      assert z[..|z| - 1] == "0" + s[..|s| - 1];
      ValueInLeadingZero(s[..|s| - 1], base);
    } else {
      assert z[..|z| - 1] == [];
    }
  }

  /** `n` in decimal without leading zeros: Go's `strconv.Itoa` for a non-negative `n`. */
  function FormatNat(n: nat): (s: string)
    ensures s != [] && AllDigits(s)
  {
    if n < 10 then [DigitChar(n)] else FormatNat(n / 10) + [DigitChar(n % 10)]
  }

  /** `strconv.FormatInt(n, 10)`: a minus sign for negative numbers, then the digits. */
  function FormatInt(n: int): string {
    if n < 0 then "-" + FormatNat(-n) else FormatNat(n)
  }

  lemma {:induction false} ValueOfFormatNat(n: nat)
    ensures AllDigitsIn(FormatNat(n), 10) && ValueIn(FormatNat(n), 10) == n
  {
    var s := FormatNat(n);
    if n >= 10 {
      assert s[..|s| - 1] == FormatNat(n / 10);
      ValueOfFormatNat(n / 10);
    }
  }

  const MinInt64: int := -0x8000_0000_0000_0000
  const MaxInt64: int := 0x7fff_ffff_ffff_ffff

  /**
   * `strconv.ParseInt(s, 10, 64)`: an optional `+` or `-`, then one or more
   * ASCII digits (leading zeros allowed); `None` for a syntax error and for a
   * value outside the 64-bit range.
   */
  function ParseInt(s: string): (r: Option<int>)
    ensures r.Some? ==> MinInt64 <= r.value <= MaxInt64
    ensures r.Some? ==> s != [] && IsDigit(s[|s| - 1]) && forall i :: 0 < i < |s| ==> IsDigit(s[i])
    ensures r.Some? ==> s[0] == '+' || s[0] == '-' || IsDigit(s[0])
  {
    if s == [] then None
    else
      var digits := if s[0] == '+' || s[0] == '-' then s[1..] else s;
      if digits == [] || !AllDigitsIn(digits, 10) then None
      else
        var v: int := if s[0] == '-' then -(ValueIn(digits, 10) as int) else ValueIn(digits, 10);
        if MinInt64 <= v <= MaxInt64 then Some(v) else None
  }

  /** Every 64-bit integer survives formatting and parsing. */
  lemma ParseFormatInt(n: int)
    requires MinInt64 <= n <= MaxInt64
    ensures ParseInt(FormatInt(n)) == Some(n)
  {
    var m: nat := if n < 0 then -n else n;
    ValueOfFormatNat(m);
    if n < 0 {
      assert FormatInt(n)[1..] == FormatNat(m);
    }
  }

  /** Leading zeros are accepted and ignored: `"01920"` parses as 1920. */
  lemma ParseIntLeadingZero(s: string)
    requires s != [] && AllDigits(s)
    ensures ParseInt("0" + s) == ParseInt(s)
  {
    assert AllDigitsIn(s, 10);
    ValueInLeadingZero(s, 10);
  }

  /**
   * The converse: an optional sign followed by digits parses to its signed
   * value exactly when that value fits in 64 bits, and is a range error otherwise.
   */
  lemma ParseSigned(sign: string, d: string)
    requires sign == "" || sign == "+" || sign == "-"
    requires d != [] && AllDigits(d)
    ensures AllDigitsIn(d, 10)
    ensures var v := if sign == "-" then -(ValueIn(d, 10) as int) else ValueIn(d, 10);
            ParseInt(sign + d) == if MinInt64 <= v <= MaxInt64 then Some(v) else None
  {
    assert AllDigitsIn(d, 10);
    var s := sign + d;
    if sign == "" {
      assert s == d;
    } else {
      assert s[0] == sign[0] && s[1..] == d;
    }
  }
}
