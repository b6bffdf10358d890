/** Words as little-endian byte strings. */
module Endian {
  import opened Bits

  type Byte = b: nat | b < 256

  const WORD: nat := 0x1_0000_0000_0000_0000

  function Little(s: seq<Byte>): nat {
    if s == [] then 0 else s[0] + 256 * Little(s[1..])
  }

  function Bytes(v: nat, w: nat): (s: seq<Byte>)
    ensures |s| == w
  {
    if w == 0 then [] else [v % 256] + Bytes(v / 256, w - 1)
  }

  lemma {:induction false} LittleBound(s: seq<Byte>)
    ensures Little(s) < Pow2(8 * |s|)
  {
    if s != [] {
      LittleBound(s[1..]);
      Pow2Add(8, 8 * |s[1..]|);
    }
  }

  lemma Regroup(x: nat, y: nat, p: nat, q: nat)
    ensures x + 256 * (y + p * q) == (x + 256 * y) + (256 * p) * q
  {
    assert 256 * (p * q) == (256 * p) * q;
  }

  lemma {:induction false} LittleConcat(a: seq<Byte>, b: seq<Byte>)
    ensures Little(a + b) == Little(a) + Pow2(8 * |a|) * Little(b)
  {
    if a == [] {
      assert a + b == b;
    } else {
      LittleConcat(a[1..], b);
      assert (a + b)[1..] == a[1..] + b;
      Pow2Add(8, 8 * |a[1..]|);
      Regroup(a[0], Little(a[1..]), Pow2(8 * |a[1..]|), Little(b));
      hide Pow2;
    }
  }

  function ShiftRight(v: nat, bits: nat): nat {
    if bits == 0 then v else ShiftRight(v / 2, bits - 1)
  }

  lemma {:induction false} ShiftTwice(v: nat, a: nat, b: nat)
    ensures ShiftRight(ShiftRight(v, a), b) == ShiftRight(v, a + b)
  {
    if a > 0 { ShiftTwice(v / 2, a - 1, b); }
  }

  lemma ShiftByte(v: nat)
    ensures ShiftRight(v, 8) == v / 256
  {
    ShiftNibble(v);
    ShiftNibble(v / 16);
    ShiftTwice(v, 4, 4);
  }

  lemma ShiftNibble(v: nat)
    ensures ShiftRight(v, 4) == v / 16
  {
    assert ShiftRight(v, 4) == ShiftRight(v / 2, 3) == ShiftRight(v / 2 / 2, 2) == ShiftRight(v / 2 / 2 / 2, 1);
    assert ShiftRight(v / 2 / 2 / 2, 1) == v / 2 / 2 / 2 / 2;
  }

  lemma {:induction false} BytesConcat(v: nat, m: nat, n: nat)
    ensures Bytes(v, m + n) == Bytes(v, m) + Bytes(ShiftRight(v, 8 * m), n)
  {
    if m != 0 {
      BytesConcat(v / 256, m - 1, n);
      ShiftByte(v);
      ShiftTwice(v, 8, 8 * (m - 1));
    }
  }

  lemma Distribute(p: nat, b: nat, s: nat, a: nat)
    requires s < b
    ensures (p * b + s) * a == p * (a * b) + s * a && s * a <= a * b - a
  {
    assert (p * b) * a == p * (a * b);
    assert (b - 1 - s) * a >= 0;
  }

  /** Division by a product, digit by digit. */
  lemma DivDiv(v: nat, a: nat, b: nat, product: nat)
    requires a > 0 && b > 0 && product == a * b && product > 0
    ensures v / a / b == v / product && v % product == a * (v / a % b) + v % a
  {
    var q, r := v / a, v % a;
    var p, s := q / b, q % b;
    assert v == q * a + r && q == p * b + s;
    Distribute(p, b, s, a);
    DivUnique(v, product, p, s * a + r);
  }

  /** Reading back a stored word gives its low bytes. */
  lemma {:induction false} LittleOfBytes(v: nat, w: nat)
    ensures Little(Bytes(v, w)) == v % Pow2(8 * w)
  {
    if w != 0 {
      LittleOfBytes(v / 256, w - 1);
      Pow2Add(8, 8 * (w - 1));
      DivDiv(v, 256, Pow2(8 * (w - 1)), Pow2(8 * w));
    }
  }

  /** Reading a word and writing it back moves its bytes unchanged. */
  lemma {:induction false} BytesOfLittle(s: seq<Byte>)
    ensures Bytes(Little(s), |s|) == s
  {
    if s != [] { BytesOfLittle(s[1..]); }
  }
}
