/** Behaviour of the few Rust standard-library primitives the core relies on:
    integer division and remainder, `to_string` and `parse` of integers, and
    `chars().rev()`. */
module Primitives {
  import opened Wrappers

  function Abs(x: int): nat { if x < 0 then -x else x }

  /** Rust's `/` on signed integers: the quotient is truncated toward zero. */
  function TruncDiv(a: int, b: int): int
    requires b != 0
  {
    var q := Abs(a) / Abs(b);
    if (a >= 0) == (b > 0) then q else -q
  }

  /** Rust's `%` on signed integers: the remainder has the sign of the dividend. */
  function TruncMod(a: int, b: int): int
    requires b != 0
  {
    a - b * TruncDiv(a, b)
  }

  /** Truncating division and remainder form a division with remainder whose
      quotient rounds toward zero. */
  lemma TruncDivMod(a: int, b: int)
    requires b != 0
    ensures a == b * TruncDiv(a, b) + TruncMod(a, b)
    ensures Abs(TruncMod(a, b)) < Abs(b)
    ensures TruncMod(a, b) == 0 || (TruncMod(a, b) < 0 <==> a < 0)
    ensures Abs(TruncDiv(a, b)) == Abs(a) / Abs(b)
  {
    TruncModSign(a, b);
  }

  /** The truncated remainder is the remainder of the magnitudes, with the
      sign of the dividend. */
  lemma TruncModSign(a: int, b: int)
    requires b != 0
    ensures 0 <= Abs(a) % Abs(b) < Abs(b) && Abs(a) / Abs(b) >= 0
    ensures TruncMod(a, b) == (if a >= 0 then Abs(a) % Abs(b) else -(Abs(a) % Abs(b)))
  {
    var x: nat, y: nat := Abs(a), Abs(b);
    var q, m := x / y, x % y;
    var p := y * q;
    assert x == p + m;
    QuotientNonNegative(x, y);
    assert b * TruncDiv(a, b) == (if a >= 0 then p else -p) by {
      SignedProduct(a, b, y, q);
    }
  }

  /** Euclidean division of a natural number by a positive one is not
      negative. */
  lemma QuotientNonNegative(x: nat, y: nat)
    requires y > 0
    ensures x / y >= 0
  {
    var q, m := x / y, x % y;
    assert x == y * q + m && m < y;
    NegativeFactor(y, q);
  }

  lemma NegativeFactor(y: int, q: int)
    requires y > 0
    ensures q <= -1 ==> y * q <= -y
  {
    if q <= -1 {
      assert y * q + y == y * (q + 1);
    }
  }

  /** The product of the signed divisor and the signed quotient. */
  lemma SignedProduct(a: int, b: int, y: int, q: int)
    requires y == Abs(b)
    ensures b * (if (a >= 0) == (b > 0) then q else -q) == (if a >= 0 then y * q else -(y * q))
  {
    MulNeg(y, q);
  }

  lemma MulNeg(y: int, q: int)
    ensures (-y) * q == -(y * q) && y * (-q) == -(y * q) && (-y) * (-q) == y * q
  {
  }

  /** Decimal digit character of a value below ten. */
  function DigitChar(d: nat): char
    requires d < 10
  {
    ('0' as int + d) as char
  }

  predicate IsDigit(c: char) { '0' <= c <= '9' }

  /** `to_string` of a non-negative integer. */
  function NatToDecimal(n: nat): string
  {
    if n < 10 then [DigitChar(n)] else NatToDecimal(n / 10) + [DigitChar(n % 10)]
  }

  /** `to_string` of a signed integer: a minus sign, then the magnitude. */
  function IntToDecimal(i: int): string
  {
    if i < 0 then "-" + NatToDecimal(-i) else NatToDecimal(i)
  }

  predicate AllDigits(s: string) { forall k :: 0 <= k < |s| ==> IsDigit(s[k]) }

  /** Value of a string of decimal digits, most significant first. */
  function DecimalValue(s: string): nat
    requires AllDigits(s)
  {
    if s == [] then 0 else 10 * DecimalValue(s[..|s| - 1]) + (s[|s| - 1] as int - '0' as int)
  }

  /** `str::parse::<isize>` without the width limit: an optional `+` or `-`,
      then one or more decimal digits; anything else is an error. */
  function ParseInt(s: string): Option<int>
  {
    if s == [] then None
    else if s[0] == '-' || s[0] == '+' then
      var body := s[1..];
      if body != [] && AllDigits(body) then
        Some(if s[0] == '-' then -(DecimalValue(body) as int) else DecimalValue(body))
      else None
    else if AllDigits(s) then Some(DecimalValue(s))
    else None
  }

  lemma {:induction false} NatToDecimalDigits(n: nat)
    ensures NatToDecimal(n) != [] && AllDigits(NatToDecimal(n))
    ensures DecimalValue(NatToDecimal(n)) == n
  {
    var s := NatToDecimal(n);
    if n >= 10 {
      NatToDecimalDigits(n / 10);
      var p := NatToDecimal(n / 10);
      assert s[..|s| - 1] == p;
    }
  }

  /** Printing an integer and parsing it back gives the integer. */
  lemma IntToDecimalRoundTrip(i: int)
    ensures ParseInt(IntToDecimal(i)) == Some(i)
  {
    if i < 0 {
      NatToDecimalDigits(-i);
      var s := IntToDecimal(i);
      assert s[1..] == NatToDecimal(-i);
    } else {
      NatToDecimalDigits(i);
      assert IsDigit(IntToDecimal(i)[0]);
    }
  }

  /** `chars().rev().collect()`. */
  function Reverse<T>(s: seq<T>): (r: seq<T>)
    ensures |r| == |s|
  {
    if s == [] then [] else [s[|s| - 1]] + Reverse(s[..|s| - 1])
  }
}
