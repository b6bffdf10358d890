/** Bitwise operations on natural numbers and the masks the compiler builds. */
module Bits {

  function Pow2(n: nat): (p: nat)
    ensures p > 0
  {
    if n == 0 then 1 else 2 * Pow2(n - 1)
  }

  /** Access widths the machine has. */
  predicate WidthOk(w: nat) { w == 1 || w == 2 || w == 4 || w == 8 }

  function And(a: nat, b: nat): nat {
    if a == 0 || b == 0 then 0 else (if a % 2 == 1 && b % 2 == 1 then 1 else 0) + 2 * And(a / 2, b / 2)
  }

  function Or(a: nat, b: nat): nat
    decreases a + b
  {
    if a == 0 && b == 0 then 0 else (if a % 2 == 1 || b % 2 == 1 then 1 else 0) + 2 * Or(a / 2, b / 2)
  }

  lemma {:induction false} Pow2Monotone(k: nat, n: nat)
    requires k <= n
    ensures Pow2(k) <= Pow2(n)
  {
    if k < n { Pow2Monotone(k, n - 1); }
  }

  lemma {:induction false} Pow2Add(a: nat, b: nat)
    ensures Pow2(a + b) == Pow2(a) * Pow2(b)
  {
    if a > 0 {
      Pow2Add(a - 1, b);
      assert Pow2(a + b) == 2 * Pow2(a - 1 + b);
    }
  }

  /** Dropping the lowest bit commutes with reducing modulo a power of two. */
  lemma ModHalf(x: nat, p: nat)
    requires p > 0
    ensures x % (2 * p) == 2 * ((x / 2) % p) + x % 2
  {
    var h, q, r := x / 2, (x / 2) / p, (x / 2) % p;
    assert h == q * p + r;
    assert x == q * (2 * p) + (2 * r + x % 2);
    DivUnique(x, 2 * p, q, 2 * r + x % 2);
  }

  lemma MulMonotone(a: nat, b: nat, d: nat)
    requires a <= b
    ensures a * d <= b * d
  {
  }

  lemma SmallMultiple(k: int, d: int)
    requires d > 0 && -d < k * d < d
    ensures k == 0
  {
  }

  lemma DivUnique(x: nat, d: nat, q: nat, r: nat)
    requires d > 0 && r < d && x == q * d + r
    ensures x / d == q && x % d == r
  {
    var k, m := x / d, x % d;
    assert x == k * d + m;
    assert (k - q) * d == k * d - q * d;
    SmallMultiple(k - q, d);
  }

  function Mod(x: nat, d: nat): nat
    requires d > 0
  {
    x % d
  }

  /** The mask with bits `k` to `n - 1` keeps exactly those bits. */
  lemma AndMask(x: nat, k: nat, n: nat)
    requires k <= n
    ensures Pow2(k) <= Pow2(n) && And(x, Pow2(n) - Pow2(k)) == x % Pow2(n) - x % Pow2(k)
  {
    hide And, Pow2;
    Pow2Monotone(k, n);
    AndMaskMod(x, k, n);
  }

  lemma {:induction false} AndMaskMod(x: nat, k: nat, n: nat)
    requires k <= n
    ensures Pow2(k) <= Pow2(n) && And(x, Pow2(n) - Pow2(k)) == Mod(x, Pow2(n)) - Mod(x, Pow2(k))
    decreases n
  {
    hide And, Mod;
    Pow2Monotone(k, n);
    if n == k {
      AndZero(x);
    } else if k > 0 {
      AndMaskMod(x / 2, k - 1, n - 1);
      AndDouble(x, Pow2(n - 1) - Pow2(k - 1), 0);
      ModDouble(x, Pow2(n - 1));
      ModDouble(x, Pow2(k - 1));
    } else {
      AndMaskMod(x / 2, 0, n - 1);
      AndDouble(x, Pow2(n - 1) - 1, 1);
      ModDouble(x, Pow2(n - 1));
      ModOne(x);
      ModOne(x / 2);
    }
  }

  lemma AndZero(x: nat)
    ensures And(x, 0) == 0
  {
  }

  lemma ModOne(x: nat)
    ensures Mod(x, 1) == 0
  {
  }

  lemma ModDouble(x: nat, p: nat)
    requires p > 0
    ensures Mod(x, 2 * p) == 2 * Mod(x / 2, p) + x % 2
  {
    ModHalf(x, p);
  }

  lemma AndDouble(x: nat, m: nat, low: nat)
    requires low < 2
    ensures And(x, 2 * m + low) == 2 * And(x / 2, m) + if low == 1 then x % 2 else 0
  {
    assert (2 * m + low) / 2 == m && (2 * m + low) % 2 == low;
  }

  /** Or-ing a value below an aligned one adds them. */
  lemma {:induction false} OrBelow(a: nat, r: nat, k: nat)
    requires a % Pow2(k) == 0 && r < Pow2(k)
    ensures Or(a, r) == a + r
    decreases k
  {
    if k == 0 {
      OrZero(a);
    } else {
      ModHalf(a, Pow2(k - 1));
      OrBelow(a / 2, r / 2, k - 1);
    }
  }

  lemma {:induction false} OrCommutes(a: nat, b: nat)
    ensures Or(a, b) == Or(b, a)
    decreases a + b
  {
    if a != 0 || b != 0 { OrCommutes(a / 2, b / 2); }
  }

  lemma {:induction false} OrZero(a: nat)
    ensures Or(a, 0) == a
  {
    if a > 0 { OrZero(a / 2); }
  }

  /** A residue modulo a power of two has the residues of smaller ones. */
  lemma {:induction false} ModOfMod(x: nat, k: nat, n: nat)
    requires k <= n
    ensures (x % Pow2(n)) % Pow2(k) == x % Pow2(k) <= x % Pow2(n)
    decreases n
  {
    if k > 0 {
      var r := x % Pow2(n);
      ModHalf(x, Pow2(n - 1));
      ModHalf(x, Pow2(k - 1));
      ModHalf(r, Pow2(k - 1));
      assert r / 2 == (x / 2) % Pow2(n - 1) && r % 2 == x % 2;
      ModOfMod(x / 2, k - 1, n - 1);
    }
  }

  lemma ResidueOff(r: nat, d: nat)
    requires d > 0
    ensures r % d <= r && (r - r % d) % d == 0
  {
    var q, m := r / d, r % d;
    assert r == q * d + m && q * d >= 0;
    DivUnique(q * d, d, q, 0);
  }

  lemma MaskedIsAligned(x: nat, k: nat, n: nat)
    requires k <= n
    ensures x % Pow2(k) <= x % Pow2(n) && (x % Pow2(n) - x % Pow2(k)) % Pow2(k) == 0
  {
    ModOfMod(x, k, n);
    ResidueOff(x % Pow2(n), Pow2(k));
  }
}
