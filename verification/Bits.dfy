/** Unsigned bitwise arithmetic on natural numbers: the C operators `&`, `|`, `<<` and `>>`
    given by their binary meaning, and the mask identities the modelled code relies on. */
module Bits {

  function Min(a: nat, b: nat): nat { if a < b then a else b }

  function Pow2(k: nat): (p: nat)
    ensures p >= 1
  {
    if k == 0 then 1 else 2 * Pow2(k - 1)
  }

  /** Bitwise and: digit by digit, least significant first. */
  function And(a: nat, b: nat): nat {
    if a == 0 || b == 0 then 0
    else 2 * And(a / 2, b / 2) + (if a % 2 == 1 && b % 2 == 1 then 1 else 0)
  }

  /** Bitwise or: digit by digit, least significant first. */
  function Or(a: nat, b: nat): nat {
    if a == 0 then b
    else if b == 0 then a
    else 2 * Or(a / 2, b / 2) + (if a % 2 == 1 || b % 2 == 1 then 1 else 0)
  }

  /** Shift right, one place at a time. */
  function Shr(a: nat, k: nat): nat {
    if k == 0 then a else Shr(a / 2, k - 1)
  }

  /** Shift left, one place at a time. */
  function Shl(a: nat, k: nat): nat {
    if k == 0 then a else 2 * Shl(a, k - 1)
  }

  /** The k least significant bits. */
  function Low(a: nat, k: nat): nat {
    if k == 0 then 0 else 2 * Low(a / 2, k - 1) + a % 2
  }

  lemma MulBound(m: int, d: int)
    requires m > 0
    ensures d >= 1 ==> m * d >= m
    ensures d <= -1 ==> m * d <= -m
  {
  }

  /** Quotient and remainder are unique. */
  lemma DivModUnique(a: int, m: int, q: int, r: int)
    requires m > 0 && 0 <= r < m && a == m * q + r
    ensures a / m == q && a % m == r
  {
    var d := a / m - q;
    assert m * d == r - a % m by {
      assert a == m * (a / m) + a % m;
      assert m * (a / m - q) == m * (a / m) - m * q;
    }
    MulBound(m, d);
  }

  /** Shifting right divides by 2^k, and what is shifted out is the remainder. */
  lemma {:induction false} ShrLow(a: nat, k: nat)
    ensures Shr(a, k) == a / Pow2(k)
    ensures Low(a, k) == a % Pow2(k)
    ensures a == Pow2(k) * Shr(a, k) + Low(a, k) && Low(a, k) < Pow2(k)
  {
    if k == 0 {
    } else {
      ShrLow(a / 2, k - 1);
      DoubleMul(Pow2(k - 1), Shr(a, k));
      DivModUnique(a, Pow2(k), Shr(a, k), Low(a, k));
    }
  }

  lemma DoubleMul(p: int, x: int)
    ensures (2 * p) * x == 2 * (p * x)
  {
  }

  lemma {:induction false} ShlMul(a: nat, k: nat)
    ensures Shl(a, k) == a * Pow2(k)
  {
    if k > 0 {
      ShlMul(a, k - 1);
      DoubleMul(Pow2(k - 1), a);
    }
  }

  /** `a & (2^k - 1)` keeps the low k bits: the remainder modulo 2^k. */
  lemma {:induction false} AndMask(a: nat, k: nat)
    ensures And(a, Pow2(k) - 1) == Low(a, k) == a % Pow2(k)
  {
    AndMaskLow(a, k);
    ShrLow(a, k);
  }

  /** The powers of two behind the masks and shifts used elsewhere. */
  lemma Pow2Values()
    ensures Pow2(3) == 8 && Pow2(4) == 16 && Pow2(5) == 32 && Pow2(6) == 64
    ensures Pow2(7) == 128 && Pow2(8) == 256 && Pow2(10) == 1024
  {
  }

  lemma {:induction false} AndMaskLow(a: nat, k: nat)
    ensures And(a, Pow2(k) - 1) == Low(a, k)
  {
    if k == 0 {
    } else {
      AndMaskLow(a / 2, k - 1);
      if a == 0 {
        LowZero(k);
      } else {
        var p := Pow2(k - 1);
        assert (2 * p - 1) / 2 == p - 1 && (2 * p - 1) % 2 == 1;
      }
    }
  }

  lemma LowStep(a: nat, k: nat)
    requires k > 0
    ensures Low(a, k) / 2 == Low(a / 2, k - 1) && Low(a, k) % 2 == a % 2
    ensures Shr(a, k) == Shr(a / 2, k - 1)
  {
  }

  lemma {:induction false} LowZero(k: nat)
    ensures Low(0, k) == 0
  {
    if k > 0 { LowZero(k - 1); }
  }

  /** The high bits and the low bits of a conjunction are computed apart. */
  lemma {:induction false} AndSplit(a: nat, b: nat, k: nat)
    ensures And(a, b) == Pow2(k) * And(Shr(a, k), Shr(b, k)) + And(Low(a, k), Low(b, k))
  {
    if k > 0 {
      AndSplit(a / 2, b / 2, k - 1);
      LowStep(a, k);
      LowStep(b, k);
      AndStep(a, b);
      AndStep(Low(a, k), Low(b, k));
      DoubleMul(Pow2(k - 1), And(Shr(a, k), Shr(b, k)));
    }
  }

  lemma AndStep(a: nat, b: nat)
    ensures And(a, b) == 2 * And(a / 2, b / 2) + (if a % 2 == 1 && b % 2 == 1 then 1 else 0)
  {
  }

  /** The high bits and the low bits of a disjunction are computed apart. */
  lemma {:induction false} OrSplit(a: nat, b: nat, k: nat)
    ensures Or(a, b) == Pow2(k) * Or(Shr(a, k), Shr(b, k)) + Or(Low(a, k), Low(b, k))
  {
    if k > 0 {
      OrSplit(a / 2, b / 2, k - 1);
      LowStep(a, k);
      LowStep(b, k);
      OrStep(a, b);
      OrStep(Low(a, k), Low(b, k));
      DoubleMul(Pow2(k - 1), Or(Shr(a, k), Shr(b, k)));
    }
  }

  lemma OrStep(a: nat, b: nat)
    ensures Or(a, b) == 2 * Or(a / 2, b / 2) + (if a % 2 == 1 || b % 2 == 1 then 1 else 0)
  {
  }
}
