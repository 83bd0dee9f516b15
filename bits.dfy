/** Python's bitwise operators on non-negative integers of unbounded width:
    `^` as `Xor`, `&` as `And`, and `v >> k` as `v / Pow2(k)`. */
module Bits {

  function Pow2(n: nat): (p: nat)
    ensures p >= 1
  {
    if n == 0 then 1 else 2 * Pow2(n - 1)
  }

  /** Python's `^` on non-negative integers, bit by bit from the lowest. */
  function Xor(a: nat, b: nat): nat
    decreases a + b
  {
    if a == 0 && b == 0 then 0
    else if a % 2 == b % 2 then 2 * Xor(a / 2, b / 2)
    else 2 * Xor(a / 2, b / 2) + 1
  }

  /** The low bit of `a ^ b` and the xor of the remaining bits, for all operands. */
  lemma XorUnfold(a: nat, b: nat)
    ensures Xor(a, b) / 2 == Xor(a / 2, b / 2)
    ensures Xor(a, b) % 2 == (if a % 2 == b % 2 then 0 else 1)
    ensures Xor(a, b) == 2 * Xor(a / 2, b / 2) + Xor(a, b) % 2
  {
  }

  lemma {:induction false} XorZero(a: nat)
    decreases a
    ensures Xor(a, 0) == a && Xor(0, a) == a
  {
    if a != 0 {
      XorZero(a / 2);
    }
  }

  lemma {:induction false} XorSelf(a: nat)
    decreases a
    ensures Xor(a, a) == 0
  {
    if a != 0 {
      XorSelf(a / 2);
    }
  }

  lemma {:induction false} XorCommutes(a: nat, b: nat)
    decreases a + b
    ensures Xor(a, b) == Xor(b, a)
  {
    if !(a == 0 && b == 0) {
      XorCommutes(a / 2, b / 2);
    }
  }

  lemma {:induction false} XorAssociates(a: nat, b: nat, c: nat)
    decreases a + b + c
    ensures Xor(Xor(a, b), c) == Xor(a, Xor(b, c))
  {
    if !(a == 0 && b == 0 && c == 0) {
      XorAssociates(a / 2, b / 2, c / 2);
      XorUnfold(a, b);
      XorUnfold(b, c);
      XorUnfold(Xor(a, b), c);
      XorUnfold(a, Xor(b, c));
    }
  }

  /** Xor-ing the same value in twice undoes it. */
  lemma XorTwice(a: nat, b: nat)
    ensures Xor(Xor(a, b), b) == a
  {
    XorAssociates(a, b, b);
    XorSelf(b);
    XorZero(a);
  }

  /** Xor never sets a bit above the highest bit of its operands. */
  lemma {:induction false} XorBound(a: nat, b: nat, n: nat)
    requires a < Pow2(n) && b < Pow2(n)
    ensures Xor(a, b) < Pow2(n)
  {
    if n > 0 && !(a == 0 && b == 0) {
      XorBound(a / 2, b / 2, n - 1);
    }
  }

  /** Python's `&` on non-negative integers, bit by bit from the lowest. */
  function And(a: nat, b: nat): nat
    decreases a + b
  {
    if a == 0 || b == 0 then 0
    else if a % 2 == 1 && b % 2 == 1 then 2 * And(a / 2, b / 2) + 1
    else 2 * And(a / 2, b / 2)
  }

  /** Masking with `2**n - 1` keeps the low `n` bits: `a & (2**n - 1) == a % 2**n`. */
  lemma {:induction false} AndLowMask(a: nat, n: nat)
    decreases n
    ensures And(a, Pow2(n) - 1) == a % Pow2(n)
  {
    if n == 0 {
      assert Pow2(n) == 1;
      assert And(a, 0) == 0;
    } else if a == 0 {
      assert And(a, Pow2(n) - 1) == 0;
    } else {
      AndLowMask(a / 2, n - 1);
      AndLowMaskStep(a, n);
    }
  }

  /** The inductive step of `AndLowMask`: the low bit, then the rest. */
  lemma AndLowMaskStep(a: nat, n: nat)
    requires n > 0
    requires And(a / 2, Pow2(n - 1) - 1) == (a / 2) % Pow2(n - 1)
    ensures And(a, Pow2(n) - 1) == a % Pow2(n)
  {
    var p := Pow2(n - 1);
    assert Pow2(n) == 2 * p;
    AndOddMask(a, Pow2(n) - 1, p - 1);
    ModDouble(a, Pow2(n), p);
  }

  /** With an odd mask the low bit of `a` is kept and the rest is masked
      by the mask's upper bits. */
  lemma AndOddMask(a: nat, mask: nat, half: nat)
    requires mask == 2 * half + 1
    ensures And(a, mask) == 2 * And(a / 2, half) + a % 2
  {
    DivModOfSum(mask, 2, half, 1);
  }

  /** The remainder by `2 * p` is the remainder of the upper bits by `p`
      followed by the low bit. */
  lemma ModDouble(a: nat, m: nat, p: nat)
    requires p >= 1 && m == 2 * p
    ensures a % m == 2 * ((a / 2) % p) + a % 2
  {
    var q, r := (a / 2) / p, (a / 2) % p;
    assert a == m * q + (2 * r + a % 2);
    DivModOfSum(a, m, q, 2 * r + a % 2);
  }

  /** Division with remainder is unique. */
  lemma DivModOfSum(a: int, m: int, q: int, r: int)
    requires m > 0 && 0 <= r < m && a == m * q + r
    ensures a / m == q && a % m == r
  {
    var q', r' := a / m, a % m;
    assert m * (q - q') == r' - r;
    if q - q' >= 1 {
      MulAtLeast(m, q - q');
    } else if q' - q >= 1 {
      MulAtLeast(m, q' - q);
    }
  }

  lemma MulAtLeast(m: int, k: int)
    requires m > 0 && k >= 1
    ensures m * k >= m
  {
    assert m * k == m + m * (k - 1);
  }
}
