/** Single precision floats by their 32 bits (IEEE 754, binary32), and the comparison of two of them. */
module Floats {

  const SIGN := 0x8000_0000
  const HIDDEN_BIT := 0x80_0000

  predicate IsNaN(bits: nat) { bits % SIGN > 0x7F80_0000 }

  /** Bit patterns of floats that are numbers in the order of the numbers: by magnitude, negated below zero; both zeros
      have rank 0. */
  function FloatRank(bits: nat): int { if bits < SIGN then bits else SIGN - bits }

  predicate FloatLess(a: nat, b: nat) { !IsNaN(a) && !IsNaN(b) && FloatRank(a) < FloatRank(b) }

  // ---------------------------------------------------------------- the number a float stands for

  function Pow2(n: nat): nat { if n == 0 then 1 else 2 * Pow2(n - 1) }

  function Exponent(bits: nat): nat { bits % SIGN / HIDDEN_BIT }

  function Fraction(bits: nat): nat { bits % HIDDEN_BIT }

  /** In units of the least positive float, two to the power of -149. A biased exponent of zero means a fraction without
      hidden bit and counts as one; infinity is taken for the number above the greatest finite one. */
  function Scaled(exponent: nat, fraction: nat): nat {
    if exponent == 0 then fraction else (HIDDEN_BIT + fraction) * Pow2(exponent - 1)
  }

  function Magnitude(bits: nat): nat { Scaled(Exponent(bits), Fraction(bits)) }

  function FloatNumber(bits: nat): int { if bits < SIGN then Magnitude(bits) else 0 - Magnitude(bits) }

  /** The patterns that stand for no number. */
  lemma NaNHasTopExponent(bits: nat)
    ensures IsNaN(bits) <==> Exponent(bits) == 255 && Fraction(bits) != 0
  {
    assert bits % SIGN % HIDDEN_BIT == Fraction(bits);
  }

  // ---------------------------------------------------------------- comparing bits compares numbers

  lemma {:induction false} Pow2Grows(m: nat, n: nat)
    requires m <= n
    ensures 0 < Pow2(m) <= Pow2(n)
  {
    if m < n {
      Pow2Grows(m, n - 1);
    } else if n > 0 {
      Pow2Grows(m - 1, n - 1);
    }
  }

  lemma Product(x: nat, y: nat, unit: nat)
    requires x < y && unit > 0
    ensures x * unit < y * unit
  {
  }

  /** All floats of one exponent lie below those of the next. */
  lemma ScaledBounds(e: nat, f: nat)
    requires f < HIDDEN_BIT
    ensures e > 0 ==> Scaled(e, f) >= HIDDEN_BIT * Pow2(e - 1)
    ensures Scaled(e, f) < HIDDEN_BIT * Pow2(e)
  {
    if e > 0 {
      Pow2Grows(0, e - 1);
      Product(HIDDEN_BIT + f, HIDDEN_BIT + HIDDEN_BIT, Pow2(e - 1));
      if f > 0 { Product(HIDDEN_BIT, HIDDEN_BIT + f, Pow2(e - 1)); }
    }
  }

  lemma ScaledGrows(e: nat, f: nat, e': nat, f': nat)
    requires f < HIDDEN_BIT && f' < HIDDEN_BIT && (e < e' || (e == e' && f < f'))
    ensures Scaled(e, f) < Scaled(e', f')
  {
    if e < e' {
      ScaledBounds(e, f);
      ScaledBounds(e', f');
      Pow2Grows(e, e' - 1);
    } else if e > 0 {
      Pow2Grows(0, e - 1);
      Product(HIDDEN_BIT + f, HIDDEN_BIT + f', Pow2(e - 1));
    }
  }

  lemma MagnitudeGrows(a: nat, b: nat)
    requires a < b < SIGN
    ensures Magnitude(a) < Magnitude(b)
  {
    ScaledGrows(Exponent(a), Fraction(a), Exponent(b), Fraction(b));
  }

  lemma FractionIgnoresSign(rest: nat)
    ensures (SIGN + rest) % HIDDEN_BIT == rest % HIDDEN_BIT
  {
    assert SIGN + rest == 256 * HIDDEN_BIT + rest;
  }

  lemma MagnitudeIgnoresSign(bits: nat)
    requires SIGN <= bits < 2 * SIGN
    ensures Magnitude(bits) == Magnitude(bits - SIGN)
  {
    var rest := bits - SIGN;
    assert bits % SIGN == rest == rest % SIGN;
    FractionIgnoresSign(rest);
  }

  /** The rank of a float is the rank of its number. */
  lemma RankIsNumber(a: nat, b: nat)
    requires a < 2 * SIGN && b < 2 * SIGN
    ensures FloatRank(a) < FloatRank(b) <==> FloatNumber(a) < FloatNumber(b)
    ensures FloatRank(a) == FloatRank(b) <==> FloatNumber(a) == FloatNumber(b)
  {
    var x, y := if a < SIGN then a else a - SIGN, if b < SIGN then b else b - SIGN;
    if a >= SIGN { MagnitudeIgnoresSign(a); }
    if b >= SIGN { MagnitudeIgnoresSign(b); }
    assert Magnitude(0) == 0;
    if x < y { MagnitudeGrows(x, y); }
    if y < x { MagnitudeGrows(y, x); }
    if 0 < x { MagnitudeGrows(0, x); }
    if 0 < y { MagnitudeGrows(0, y); }
  }
}
