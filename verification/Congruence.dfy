/** Integers modulo a power of two: the low bits of a value that wraps. */
module Congruence {
  import opened Bits

  function Wrap(x: int, bits: nat): nat { x % Pow2(bits) }

  ghost predicate Same(x: int, y: int, bits: nat) {
    Wrap(x, bits) == Wrap(y, bits)
  }

  lemma ModSum(x: int, k: int, d: int)
    requires d > 0
    ensures (x + k * d) % d == x % d
  {
    var q, r := x / d, x % d;
    assert x + k * d == (q + k) * d + r;
    var q', r' := (x + k * d) / d, (x + k * d) % d;
    assert (q' - (q + k)) * d == r - r';
    SmallMultiple(q' - (q + k), d);
  }

  lemma SameAdd(x: int, x': int, y: int, y': int, bits: nat)
    requires Same(x, x', bits) && Same(y, y', bits)
    ensures Same(x + y, x' + y', bits) && Same(x - y, x' - y', bits)
  {
    var d := Pow2(bits);
    var a, b := x / d - x' / d, y / d - y' / d;
    assert x == x' + a * d && y == y' + b * d;
    assert x + y == (x' + y') + (a + b) * d;
    assert x - y == (x' - y') + (a - b) * d;
    ModSum(x' + y', a + b, d);
    ModSum(x' - y', a - b, d);
  }

  lemma ModProduct(x: int, e: int, d: int)
    requires d > 0 && e > 0 && e * d > 0
    ensures (x % (e * d)) % d == x % d
  {
    var q, r := x / (e * d), x % (e * d);
    assert x == r + (q * e) * d by { assert x == q * (e * d) + r; assert q * (e * d) == (q * e) * d; }
    ModSum(r, q * e, d);
  }

  /** Wrapping at a wider width does not change the low bits. */
  lemma SameWrap(x: int, wide: nat, bits: nat)
    requires bits <= wide
    ensures Same(Wrap(x, wide), x, bits)
  {
    hide Pow2;
    Pow2Add(wide - bits, bits);
    ModProduct(x, Pow2(wide - bits), Pow2(bits));
  }

  lemma SameNarrow(x: int, y: int, wide: nat, bits: nat)
    requires bits <= wide && Same(x, y, wide)
    ensures Same(x, y, bits)
  {
    SameWrap(x, wide, bits);
    SameWrap(y, wide, bits);
  }

  /** Shifting both sides by one amount changes nothing. */
  lemma SameShift(x: int, y: int, z: int, bits: nat)
    ensures Same(x, y, bits) <==> Same(x + z, y + z, bits)
  {
    hide Pow2;
    if Same(x, y, bits) { SameAdd(x, y, z, z, bits); }
    if Same(x + z, y + z, bits) { SameAdd(x + z, y + z, z, z, bits); }
  }
}
