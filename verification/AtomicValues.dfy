/** What the atomic operations compute, as numbers modulo the lane's width and as truth tables per bit. */
module AtomicValues {
  import opened Bits
  import opened Atomics

  function Half(x: bv32): bv32 { x >> 1 }

  predicate Odd(x: bv32) { x & 1 == 1 }

  /** Bit `k` of a word. */
  predicate Bit(x: bv32, k: nat) { if k == 0 then Odd(x) else Bit(Half(x), k - 1) }

  /** The number in the `n` lowest bits. */
  function Number(x: bv32, n: nat): (v: nat)
    ensures v < Pow2(n)
  {
    if n == 0 then 0 else (if Odd(x) then 1 else 0) + 2 * Number(Half(x), n - 1)
  }

  /** The result `after` of an operation on the `n` lowest bits. */
  ghost predicate Computes(k: Kind, n: nat, before: bv32, operand: bv32, after: bv32) {
    match k
    case Add => Number(after, n) == (Number(before, n) + Number(operand, n)) % Pow2(n)
    case Sub => Number(after, n) == (Number(before, n) - Number(operand, n)) % Pow2(n)
    case BitAnd => forall i: nat :: i < n ==> (Bit(after, i) <==> Bit(before, i) && Bit(operand, i))
    case Nand => forall i: nat :: i < n ==> (Bit(after, i) <==> !(Bit(before, i) && Bit(operand, i)))
    case BitOr => forall i: nat :: i < n ==> (Bit(after, i) <==> Bit(before, i) || Bit(operand, i))
    case BitXor => forall i: nat :: i < n ==> (Bit(after, i) <==> Bit(before, i) != Bit(operand, i))
    case Xchg => Number(after, n) == Number(operand, n)
  }

  // ----- one bit at a time -----

  function Both(x: bv32, y: bv32): bv32 { x & y }

  function Either(x: bv32, y: bv32): bv32 { x | y }

  function Differ(x: bv32, y: bv32): bv32 { x ^ y }

  function Plus(x: bv32, y: bv32): bv32 { x + y }

  function Minus(x: bv32, y: bv32): bv32 { x - y }

  lemma BothBits(x: bv32, y: bv32)
    ensures Half(Both(x, y)) == Both(Half(x), Half(y)) && (Odd(Both(x, y)) <==> Odd(x) && Odd(y))
  {
  }

  lemma EitherBits(x: bv32, y: bv32)
    ensures Half(Either(x, y)) == Either(Half(x), Half(y)) && (Odd(Either(x, y)) <==> Odd(x) || Odd(y))
  {
  }

  lemma DifferBits(x: bv32, y: bv32)
    ensures Half(Differ(x, y)) == Differ(Half(x), Half(y)) && (Odd(Differ(x, y)) <==> Odd(x) != Odd(y))
  {
  }

  // ----- addition, one bit at a time -----

  lemma PlusCommutes(x: bv32, y: bv32)
    ensures Plus(x, y) == Plus(y, x)
  {
  }

  lemma PlusRegroups(x: bv32, y: bv32, z: bv32)
    ensures Plus(x + y, z) == Plus(x, y + z)
  {
  }

  lemma PlusAssociatesFrom(x: bv32, y: bv32, z: bv32, xy: bv32, yz: bv32)
    requires xy == x + y && yz == y + z
    ensures Plus(xy, z) == Plus(x, yz)
  {
    PlusRegroups(x, y, z);
  }

  lemma PlusAssociates(x: bv32, y: bv32, z: bv32)
    ensures Plus(Plus(x, y), z) == Plus(x, Plus(y, z))
  {
    PlusAssociatesFrom(x, y, z, Plus(x, y), Plus(y, z));
  }

  lemma PlusSwaps(w: bv32, x: bv32, y: bv32, z: bv32)
    ensures Plus(Plus(w, x), Plus(y, z)) == Plus(Plus(w, y), Plus(x, z))
  {
    hide Plus;
    PlusAssociates(w, x, Plus(y, z));
    PlusAssociates(x, y, z);
    PlusCommutes(x, y);
    PlusAssociates(y, x, z);
    PlusAssociates(w, y, Plus(x, z));
  }

  function Carried(c: bool): bv32 { if c then 1 else 0 }

  predicate Majority(a: bool, b: bool, c: bool) { (a && b) || (a && c) || (b && c) }

  lemma ThreeBits(a: bool, b: bool, c: bool)
    ensures var m := Carried(Majority(a, b, c));
            Plus(Plus(Carried(a), Carried(b)), Carried(c)) == Plus(Plus(m, m), Carried((a != b) != c))
  {
  }

  /** Twice a word and a low bit. */
  function Twice(s: bv32, low: bool): bv32 { Plus(Plus(s, s), Carried(low)) }

  /** The sum of two words and a carry. */
  function Sum(x: bv32, y: bv32, c: bool): bv32 { Plus(Plus(x, y), Carried(c)) }

  lemma Even(s: bv32)
    ensures Half(Plus(s, s)) == Both(s, 0x7FFF_FFFF) && !Odd(Plus(s, s))
  {
  }

  lemma LowBitAdded(t: bv32, low: bool)
    requires !Odd(t)
    ensures Half(Plus(t, Carried(low))) == Half(t) && (Odd(Plus(t, Carried(low))) <==> low)
  {
  }

  lemma TwiceBits(s: bv32, low: bool)
    ensures Half(Twice(s, low)) == Both(s, 0x7FFF_FFFF) && (Odd(Twice(s, low)) <==> low)
  {
    hide Half, Odd, Plus, Carried, Both;
    Even(s);
    LowBitAdded(Plus(s, s), low);
  }

  lemma EvenPart(x: bv32)
    ensures Plus(Half(x), Half(x)) == x & 0xFFFF_FFFE
  {
  }

  lemma Halves(x: bv32)
    ensures x == Twice(Half(x), Odd(x))
  {
    EvenPart(x);
  }

  lemma SumOfTwice(h: bv32, k: bv32, a: bool, b: bool, c: bool)
    ensures Sum(Twice(h, a), Twice(k, b), c) == Twice(Sum(h, k, Majority(a, b, c)), (a != b) != c)
  {
    hide Plus, Carried, Majority;
    var (m, r) := (Carried(Majority(a, b, c)), Carried((a != b) != c));
    var hk := Plus(h, k);
    ThreeBits(a, b, c);
    PlusSwaps(Plus(h, h), Carried(a), Plus(k, k), Carried(b));
    PlusAssociates(Plus(Plus(h, h), Plus(k, k)), Plus(Carried(a), Carried(b)), Carried(c));
    PlusSwaps(h, h, k, k);
    PlusAssociates(Plus(hk, hk), Plus(m, m), r);
    PlusSwaps(hk, hk, m, m);
  }

  // ----- masks -----

  /** The `m` lowest bits are ones. */
  predicate LowOnes(mask: bv32, m: nat) { m == 0 || (Odd(mask) && LowOnes(Half(mask), m - 1)) }

  lemma {:induction false} FewerOnes(mask: bv32, m: nat, n: nat)
    requires LowOnes(mask, m) && n <= m
    ensures LowOnes(mask, n)
    decreases n
  {
    hide Half, Odd;
    if n > 0 { FewerOnes(Half(mask), m - 1, n - 1); }
  }

  lemma {:induction false} NumberMasked(x: bv32, mask: bv32, m: nat)
    requires LowOnes(mask, m)
    ensures Number(Both(x, mask), m) == Number(x, m)
    decreases m
  {
    hide Half, Odd, Both;
    if m > 0 {
      NumberMasked(Half(x), Half(mask), m - 1);
      BothBits(x, mask);
    }
  }

  lemma {:induction false} BitMasked(x: bv32, mask: bv32, m: nat, k: nat)
    requires LowOnes(mask, m) && k < m
    ensures Bit(Both(x, mask), k) == Bit(x, k)
    decreases k
  {
    hide Half, Odd, Both;
    BothBits(x, mask);
    if k > 0 { BitMasked(Half(x), Half(mask), m - 1, k - 1); }
  }

  lemma EightOnes(mask: bv32, m: nat)
    requires mask & 0xFF == 0xFF && LowOnes(mask >> 8, m)
    ensures LowOnes(mask, m + 8)
  {
    var a, b, c, d := mask, Half(mask), Half(Half(mask)), Half(Half(Half(mask)));
    var e := Half(d);
    var f, g, h := Half(e), Half(Half(e)), Half(Half(Half(e)));
    assert Odd(a) && Odd(b) && Odd(c) && Odd(d) && Odd(e) && Odd(f) && Odd(g) && Odd(h);
    assert Half(h) == mask >> 8;
    hide Half, Odd;
    assert LowOnes(h, m + 1);
    assert LowOnes(g, m + 2);
    assert LowOnes(f, m + 3);
    assert LowOnes(e, m + 4);
    assert LowOnes(d, m + 5);
    assert LowOnes(c, m + 6);
    assert LowOnes(b, m + 7);
  }

  lemma MasksAreOnes()
    ensures LowOnes(0xFF, 8) && LowOnes(0xFFFF, 16) && LowOnes(0xFFFF_FFFF, 32) && LowOnes(0x7FFF_FFFF, 31)
  {
    EightOnes(0xFF, 0);
    EightOnes(0xFFFF, 8);
    EightOnes(0xFF_FFFF, 16);
    EightOnes(0xFFFF_FFFF, 24);
    assert Half(0xFFFF_FFFF) == 0x7FFF_FFFF;
  }

  // ----- numbers -----

  lemma SumNumber(x: bv32, y: bv32, c: bool, n: nat)
    requires 0 < n <= 32
    ensures var low := (Odd(x) != Odd(y)) != c; var carry := Majority(Odd(x), Odd(y), c);
            Number(Sum(x, y, c), n) == (if low then 1 else 0) + 2 * Number(Sum(Half(x), Half(y), carry), n - 1)
  {
    hide Half, Odd, Sum, Twice, Both, Majority, LowOnes;
    var s := Sum(Half(x), Half(y), Majority(Odd(x), Odd(y), c));
    Halves(x);
    Halves(y);
    SumOfTwice(Half(x), Half(y), Odd(x), Odd(y), c);
    TwiceBits(s, (Odd(x) != Odd(y)) != c);
    MasksAreOnes();
    FewerOnes(0x7FFF_FFFF, 31, n - 1);
    NumberMasked(s, 0x7FFF_FFFF, n - 1);
  }

  lemma LowBitOfSum(a: bool, b: bool, c: bool, x: nat, y: nat, p: nat)
    requires p > 0
    ensures var carry := if Majority(a, b, c) then 1 else 0;
            Mod((if a then 1 else 0) + 2 * x + ((if b then 1 else 0) + 2 * y) + (if c then 1 else 0), 2 * p)
            == (if (a != b) != c then 1 else 0) + 2 * Mod(x + y + carry, p)
  {
    ModDouble((if a then 1 else 0) + 2 * x + ((if b then 1 else 0) + 2 * y) + (if c then 1 else 0), p);
    hide Mod;
  }

  /** Adding words adds their numbers, modulo the width looked at. */
  lemma {:induction false} SumIsModular(x: bv32, y: bv32, c: bool, n: nat)
    requires n <= 32
    ensures Number(Sum(x, y, c), n) == Mod(Number(x, n) + Number(y, n) + (if c then 1 else 0), Pow2(n))
    decreases n
  {
    hide Half, Odd, Sum, Mod, Majority;
    if n == 0 {
      ModOne(if c then 1 else 0);
    } else {
      SumNumber(x, y, c, n);
      SumIsModular(Half(x), Half(y), Majority(Odd(x), Odd(y), c), n - 1);
      LowBitOfSum(Odd(x), Odd(y), c, Number(Half(x), n - 1), Number(Half(y), n - 1), Pow2(n - 1));
    }
  }

  lemma PlusZero(x: bv32)
    ensures Plus(x, Carried(false)) == x
  {
  }

  lemma MinusThenPlus(x: bv32, y: bv32)
    ensures Plus(x - y, y) == x
  {
  }

  lemma MinusFrom(x: bv32, y: bv32, d: bv32)
    requires d == x - y
    ensures Plus(d, y) == x
  {
    MinusThenPlus(x, y);
  }

  lemma DifferenceSums(x: bv32, y: bv32)
    ensures Sum(Minus(x, y), y, false) == x
  {
    MinusFrom(x, y, Minus(x, y));
    hide Plus, Minus, Carried;
    PlusZero(x);
  }

  lemma ModTwice(v: nat, p: nat)
    requires v < 2 * p
    ensures Mod(v, p) == if v < p then v else v - p
  {
    if v < p { DivUnique(v, p, 0, v); } else { DivUnique(v, p, 1, v - p); }
  }

  lemma ModBelow(v: int, p: nat)
    requires p > 0 && 0 - p <= v < p
    ensures v % p == if v < 0 then v + p else v
  {
    if v < 0 {
      DivUnique(v + p, p, 0, v + p);
      assert v == -1 * p + (v + p);
    } else {
      DivUnique(v, p, 0, v);
    }
  }

  /** Subtracting words subtracts their numbers, modulo the width looked at. */
  lemma DifferenceIsModular(x: bv32, y: bv32, n: nat)
    requires n <= 32
    ensures Number(Minus(x, y), n) == (Number(x, n) - Number(y, n)) % Pow2(n)
  {
    hide Number, Sum, Mod, Pow2, Minus;
    var d := Minus(x, y);
    DifferenceSums(x, y);
    SumIsModular(d, y, false, n);
    ModTwice(Number(d, n) + Number(y, n), Pow2(n));
    ModBelow(Number(x, n) - Number(y, n), Pow2(n));
  }

  // ----- bits -----

  lemma {:induction false} BitOfBoth(x: bv32, y: bv32, k: nat)
    ensures Bit(Both(x, y), k) <==> Bit(x, k) && Bit(y, k)
    decreases k
  {
    hide Half, Odd, Both;
    BothBits(x, y);
    if k > 0 { BitOfBoth(Half(x), Half(y), k - 1); }
  }

  lemma {:induction false} BitOfEither(x: bv32, y: bv32, k: nat)
    ensures Bit(Either(x, y), k) <==> Bit(x, k) || Bit(y, k)
    decreases k
  {
    hide Half, Odd, Either;
    EitherBits(x, y);
    if k > 0 { BitOfEither(Half(x), Half(y), k - 1); }
  }

  lemma {:induction false} BitOfDiffer(x: bv32, y: bv32, k: nat)
    ensures Bit(Differ(x, y), k) <==> Bit(x, k) != Bit(y, k)
    decreases k
  {
    hide Half, Odd, Differ;
    DifferBits(x, y);
    if k > 0 { BitOfDiffer(Half(x), Half(y), k - 1); }
  }

  lemma ComplementDiffers(x: bv32)
    ensures !x == Differ(x, 0xFFFF_FFFF)
  {
  }

  lemma {:induction false} BitOfOnes(mask: bv32, m: nat, k: nat)
    requires LowOnes(mask, m) && k < m
    ensures Bit(mask, k)
    decreases k
  {
    hide Half, Odd;
    if k > 0 { BitOfOnes(Half(mask), m - 1, k - 1); }
  }

  lemma BitOfComplement(x: bv32, k: nat)
    requires k < 32
    ensures Bit(!x, k) <==> !Bit(x, k)
  {
    ComplementDiffers(x);
    hide Bit, Differ;
    MasksAreOnes();
    BitOfOnes(0xFFFF_FFFF, 32, k);
    BitOfDiffer(x, 0xFFFF_FFFF, k);
  }

  // ----- operations -----

  lemma LaneMask(l: Lane)
    requires LaneOk(l)
    ensures LowOnes(LowMask(l), 8 * l.size) && 8 * l.size <= 32
  {
    hide LowOnes;
    MasksAreOnes();
  }

  lemma ComputesSeen(k: Kind, n: nat, before: bv32, operand: bv32, after: bv32, seen: bv32)
    requires Computes(k, n, before, operand, after)
    requires Number(seen, n) == Number(after, n) && forall i: nat :: i < n ==> Bit(seen, i) == Bit(after, i)
    ensures Computes(k, n, before, operand, seen)
  {
    hide Bit, Number, Pow2;
  }

  /** Looking at a lane's bits does not see what is above it. */
  lemma MaskedComputes(k: Kind, l: Lane, before: bv32, operand: bv32, after: bv32)
    requires LaneOk(l) && Computes(k, 8 * l.size, before, operand, after)
    ensures Computes(k, 8 * l.size, before, operand, Both(after, LowMask(l)))
  {
    hide Computes, LowMask, LowOnes, Both, LaneOk, Bit, Number;
    var n, mask := 8 * l.size, LowMask(l);
    LaneMask(l);
    NumberMasked(after, mask, n);
    forall i: nat | i < n ensures Bit(Both(after, mask), i) == Bit(after, i) { BitMasked(after, mask, n, i); }
    ComputesSeen(k, n, before, operand, after, Both(after, mask));
  }

  lemma SumComputes(n: nat, x: bv32, y: bv32)
    requires n <= 32
    ensures Computes(Add, n, x, y, Plus(x, y)) && Computes(Sub, n, x, y, Minus(x, y)) && Computes(Xchg, n, x, y, y)
  {
    hide Number, Plus, Minus, Carried, Pow2;
    PlusZero(Plus(x, y));
    SumIsModular(x, y, false, n);
    DifferenceIsModular(x, y, n);
  }

  lemma BitsCompute(n: nat, x: bv32, y: bv32)
    requires n <= 32
    ensures Computes(BitAnd, n, x, y, Both(x, y)) && Computes(BitOr, n, x, y, Either(x, y))
    ensures Computes(BitXor, n, x, y, Differ(x, y)) && Computes(Nand, n, x, y, !Both(x, y))
  {
    hide Bit, Both, Either, Differ;
    forall i: nat | i < n
      ensures Bit(Both(x, y), i) <==> Bit(x, i) && Bit(y, i)
      ensures Bit(Either(x, y), i) <==> Bit(x, i) || Bit(y, i)
      ensures Bit(Differ(x, y), i) <==> Bit(x, i) != Bit(y, i)
      ensures Bit(!Both(x, y), i) <==> !Bit(Both(x, y), i)
    {
      BitOfBoth(x, y, i);
      BitOfEither(x, y, i);
      BitOfDiffer(x, y, i);
      BitOfComplement(Both(x, y), i);
    }
  }

  lemma CombinedAdd(x: bv32, y: bv32)
    ensures Combined(Add, x, y) == Plus(x, y)
  {
  }

  lemma CombinedSub(x: bv32, y: bv32)
    ensures Combined(Sub, x, y) == Minus(x, y)
  {
  }

  lemma CombinedBitAnd(x: bv32, y: bv32)
    ensures Combined(BitAnd, x, y) == Both(x, y)
  {
  }

  lemma CombinedNand(x: bv32, y: bv32)
    ensures Combined(Nand, x, y) == !Both(x, y)
  {
  }

  lemma CombinedBitOr(x: bv32, y: bv32)
    ensures Combined(BitOr, x, y) == Either(x, y)
  {
  }

  lemma CombinedBitXor(x: bv32, y: bv32)
    ensures Combined(BitXor, x, y) == Differ(x, y)
  {
  }

  lemma CombinedXchg(x: bv32, y: bv32)
    ensures Combined(Xchg, x, y) == y
  {
  }

  lemma CombinedComputes(k: Kind, n: nat, x: bv32, y: bv32)
    requires n <= 32
    ensures Computes(k, n, x, y, Combined(k, x, y))
  {
    hide Computes, Combined, Both, Either, Differ, Plus, Minus;
    SumComputes(n, x, y);
    BitsCompute(n, x, y);
    CombinedAdd(x, y);
    CombinedSub(x, y);
    CombinedBitAnd(x, y);
    CombinedNand(x, y);
    CombinedBitOr(x, y);
    CombinedBitXor(x, y);
    CombinedXchg(x, y);
  }

  lemma CutIs(x: bv32, l: Lane)
    ensures Cut(x, l) == Both(x, LowMask(l))
  {
  }

  lemma AppliedIs(k: Kind, l: Lane, x: bv32, y: bv32)
    ensures Applied(k, l, x, y) == Both(Combined(k, x, y), LowMask(l))
  {
    hide Cut, Combined, Both, LowMask;
    CutIs(Combined(k, x, y), l);
  }

  /** The loop's arithmetic is the operation's, in the lane's width. */
  lemma AppliedComputes(k: Kind, l: Lane, x: bv32, y: bv32)
    requires LaneOk(l)
    ensures Computes(k, 8 * l.size, x, y, Applied(k, l, x, y))
  {
    hide Computes, Applied, Combined, Both, LowMask;
    CombinedComputes(k, 8 * l.size, x, y);
    MaskedComputes(k, l, x, y, Combined(k, x, y));
    AppliedIs(k, l, x, y);
  }

  // ----- what a successful step leaves in memory -----

  /** Reading back a lane just replaced. */
  lemma ExtractReplaced(w: bv32, l: Lane, v: bv32)
    requires LaneOk(l)
    ensures Extract(Replace(w, l, v), l) == Both(v, LowMask(l))
  {
    hide Extract, Replace, Both, LowMask;
    if l.size == 1 {
      if l.byte == 0 { ExtractByte0(w, v); }
      else if l.byte == 1 { ExtractByte1(w, v); }
      else if l.byte == 2 { ExtractByte2(w, v); }
      else { ExtractByte3(w, v); }
    } else if l.size == 2 {
      if l.byte == 0 { ExtractHalf0(w, v); } else { ExtractHalf2(w, v); }
    } else {
      ExtractWord(w, v);
    }
  }

  lemma ExtractByte0(w: bv32, v: bv32)
    ensures Extract(Replace(w, Lane(0, 1), v), Lane(0, 1)) == Both(v, LowMask(Lane(0, 1)))
  {
  }

  lemma ExtractByte1(w: bv32, v: bv32)
    ensures Extract(Replace(w, Lane(1, 1), v), Lane(1, 1)) == Both(v, LowMask(Lane(1, 1)))
  {
  }

  lemma ExtractByte2(w: bv32, v: bv32)
    ensures Extract(Replace(w, Lane(2, 1), v), Lane(2, 1)) == Both(v, LowMask(Lane(2, 1)))
  {
  }

  lemma ExtractByte3(w: bv32, v: bv32)
    ensures Extract(Replace(w, Lane(3, 1), v), Lane(3, 1)) == Both(v, LowMask(Lane(3, 1)))
  {
  }

  lemma ExtractHalf0(w: bv32, v: bv32)
    ensures Extract(Replace(w, Lane(0, 2), v), Lane(0, 2)) == Both(v, LowMask(Lane(0, 2)))
  {
    LowHalf(w, v);
    hide Extract, Replace;
  }

  lemma LowHalf(w: bv32, v: bv32)
    ensures Extract(Replace(w, Lane(0, 2), v), Lane(0, 2)) == v & 0xFFFF
  {
  }

  lemma ExtractHalf2(w: bv32, v: bv32)
    ensures Extract(Replace(w, Lane(2, 2), v), Lane(2, 2)) == Both(v, LowMask(Lane(2, 2)))
  {
  }

  lemma ExtractWord(w: bv32, v: bv32)
    ensures Extract(Replace(w, FULL, v), FULL) == Both(v, LowMask(FULL))
  {
    ReplaceFull(w, v);
    hide Replace;
  }

  lemma MaskedTwice(x: bv32, mask: bv32)
    ensures Both(Both(x, mask), mask) == Both(x, mask)
  {
  }

  /** The swap of a read-modify-write leaves the operation's result in the lane and reports what was there. */
  lemma SwapComputes(s: State, i: nat, t: State)
    requires StateOk(s) && Next(s, Run(i), t)
    requires s.threads[i].Looping? && s.threads[i].job.op.Rmw? && s.mem[s.threads[i].job.word] == s.threads[i].current
    ensures var j := s.threads[i].job; var was := Extract(s.mem[j.word], j.lane);
            && t.threads[i] == Done(j, was, true)
            && Computes(j.op.kind, 8 * j.lane.size, was, j.op.operand, Extract(t.mem[j.word], j.lane))
  {
    var j := s.threads[i].job;
    var (w, l, k, operand) := (s.mem[j.word], j.lane, j.op.kind, j.op.operand);
    assert t.mem[j.word] == Replace(w, l, Applied(k, l, Extract(w, l), operand));
    hide Extract, Replace, Applied, Combined, LowMask, Computes, Both;
    var v := Applied(k, l, Extract(w, l), operand);
    AppliedIs(k, l, Extract(w, l), operand);
    MaskedTwice(Combined(k, Extract(w, l), operand), LowMask(l));
    ExtractReplaced(w, l, v);
    AppliedComputes(k, l, Extract(w, l), operand);
  }

  // ----- comparing lanes is comparing numbers -----

  /** All bits from `n` up are zero. */
  predicate Narrow(x: bv32, n: nat) { if n == 0 then x == 0 else Narrow(Half(x), n - 1) }

  lemma {:induction false} NarrowShifted(x: bv32, n: nat)
    requires Narrow(Half(Half(Half(Half(Half(Half(Half(Half(x)))))))), n)
    ensures Narrow(x, n + 8)
  {
    hide Half;
    var a, b, c := Half(x), Half(Half(x)), Half(Half(Half(x)));
    var d := Half(c);
    var e, g, h := Half(d), Half(Half(d)), Half(Half(Half(d)));
    assert Narrow(h, n + 1);
    assert Narrow(g, n + 2);
    assert Narrow(e, n + 3);
    assert Narrow(d, n + 4);
    assert Narrow(c, n + 5);
    assert Narrow(b, n + 6);
    assert Narrow(a, n + 7);
  }

  lemma EightHalves(x: bv32)
    ensures Half(Half(Half(Half(Half(Half(Half(Half(x)))))))) == x >> 8
  {
  }

  lemma NarrowZero()
    ensures Narrow(0, 0)
  {
  }

  lemma MasksAreNarrow(l: Lane)
    requires LaneOk(l)
    ensures Narrow(LowMask(l), 8 * l.size)
  {
    hide Half, Narrow;
    assert Narrow(0, 0) by { NarrowZero(); }
    EightHalves(0xFF);
    EightHalves(0xFFFF);
    EightHalves(0xFF_FFFF);
    EightHalves(0xFFFF_FFFF);
    NarrowShifted(0xFF, 0);
    NarrowShifted(0xFFFF, 8);
    NarrowShifted(0xFF_FFFF, 16);
    NarrowShifted(0xFFFF_FFFF, 24);
  }

  lemma NothingOf(x: bv32)
    ensures Both(x, 0) == 0
  {
  }

  lemma {:induction false} NarrowMasked(x: bv32, mask: bv32, n: nat)
    requires Narrow(mask, n)
    ensures Narrow(Both(x, mask), n)
    decreases n
  {
    hide Half, Odd, Both;
    if n == 0 {
      NothingOf(x);
    } else {
      BothBits(x, mask);
      NarrowMasked(Half(x), Half(mask), n - 1);
    }
  }

  lemma {:induction false} NumberDetermines(x: bv32, y: bv32, n: nat)
    requires Narrow(x, n) && Narrow(y, n) && Number(x, n) == Number(y, n)
    ensures x == y
    decreases n
  {
    hide Half, Odd, Twice;
    if n > 0 {
      NumberDetermines(Half(x), Half(y), n - 1);
      Halves(x);
      Halves(y);
    }
  }

  /** A lane's value equals an operand, cut to the lane, exactly when their numbers agree in its width. */
  lemma LaneEquals(v: bv32, l: Lane, e: bv32)
    requires LaneOk(l) && v == Both(v, LowMask(l))
    ensures v == Both(e, LowMask(l)) <==> Number(v, 8 * l.size) == Number(e, 8 * l.size)
  {
    hide Number, Narrow, LowOnes, Both, LowMask;
    var n, mask := 8 * l.size, LowMask(l);
    LaneMask(l);
    MasksAreNarrow(l);
    NumberMasked(e, mask, n);
    NarrowMasked(v, mask, n);
    NarrowMasked(e, mask, n);
    if Number(v, n) == Number(e, n) { NumberDetermines(v, Both(e, mask), n); }
  }

  // ----- runs -----

  /** What an operation means on the `n` bits of a lane that held `was` and then holds `now`. */
  ghost predicate Meaning(op: Op, n: nat, was: bv32, now: bv32, ok: bool) {
    match op
    case Rmw(k, operand) => ok && Computes(k, n, was, operand, now)
    case CmpXchg(expected, desired) =>
      && (ok <==> Number(was, n) == Number(expected, n))
      && Number(now, n) == Number(if ok then desired else was, n)
  }

  lemma ExchangeIs(expected: bv32, desired: bv32, l: Lane, v: bv32)
    ensures var (new_, ret, ok) := Effect(CmpXchg(expected, desired), l, v);
            && (ok <==> v == Both(expected, LowMask(l))) && ret == v
            && new_ == if ok then Both(desired, LowMask(l)) else v
  {
    hide Cut, LowMask, Both;
    CutIs(expected, l);
    CutIs(desired, l);
  }

  lemma ExchangeMeans(expected: bv32, desired: bv32, l: Lane, v: bv32)
    requires LaneOk(l) && v == Both(v, LowMask(l))
    ensures var (new_, ret, ok) := Effect(CmpXchg(expected, desired), l, v);
            && ret == v && new_ == Both(new_, LowMask(l))
            && Meaning(CmpXchg(expected, desired), 8 * l.size, v, new_, ok)
  {
    hide Effect, Number, Both, LowMask;
    ExchangeIs(expected, desired, l, v);
    LaneEquals(v, l, expected);
    LaneMask(l);
    NumberMasked(desired, LowMask(l), 8 * l.size);
    MaskedTwice(desired, LowMask(l));
  }

  lemma EffectMeans(op: Op, l: Lane, v: bv32)
    requires LaneOk(l) && v == Both(v, LowMask(l))
    ensures var (new_, ret, ok) := Effect(op, l, v);
            ret == v && new_ == Both(new_, LowMask(l)) && Meaning(op, 8 * l.size, v, new_, ok)
  {
    hide Computes, Applied, Combined, Both, LowMask;
    if op.Rmw? {
      AppliedComputes(op.kind, l, v, op.operand);
      AppliedIs(op.kind, l, v, op.operand);
      MaskedTwice(Combined(op.kind, v, op.operand), LowMask(l));
    } else {
      hide Effect, Meaning;
      ExchangeMeans(op.expected, op.desired, l, v);
    }
  }

  lemma LowLane(v: bv32, size: nat)
    requires SizeOk(size)
    ensures Extract(v, Lane(0, size)) == Both(v, LowMask(Lane(0, size)))
  {
  }

  lemma LaneWritten(bytes: seq<bv32>, word: nat, l: Lane, v: bv32)
    requires LaneOk(l) && 4 * word + 3 < |bytes|
    ensures LaneAt(WithLane(bytes, word, l, v), word, l) == Both(v, LowMask(l))
  {
    hide Join, ByteOf, Both, LowMask, Extract;
    var at := 4 * word + l.byte;
    var low := Lane(0, l.size);
    assert WithLane(bytes, word, l, v)[at..at + l.size] == LaneBytes(v, low);
    ExtractIsBytes(v, low);
    LowLane(v, l.size);
    SameMask(l);
  }

  lemma SameMask(l: Lane)
    ensures LowMask(l) == LowMask(Lane(0, l.size))
  {
  }

  lemma ExtractIsCut(w: bv32, l: Lane)
    requires LaneOk(l)
    ensures Extract(w, l) == Both(Extract(w, l), LowMask(l))
  {
    MaskedTwice(Shr(w, l.byte), LowMask(l));
    hide Shr, LowMask;
  }

  /** At the instant an operation happens, its lane goes from one value to what the operation makes of it,
      the caller is handed the first, and no other byte changes. */
  lemma HappensMeans(states: seq<State>, moves: seq<Move>, i: nat, k: nat)
    requires IsRun(states, moves) && i < |states[0].threads| && HappensAt(states, moves, i, k)
    ensures var j := states[k].threads[i].job;
            var a, b := Bytes(states[k].mem), Bytes(states[k + 1].mem);
            var was, now := LaneAt(a, j.word, j.lane), LaneAt(b, j.word, j.lane);
            var c := CallerOf(states[k + 1], i);
            && c.Returned? && c.old_ == was && Meaning(j.op, 8 * j.lane.size, was, now, c.success)
            && forall x :: 0 <= x < |a| && !(4 * j.word + j.lane.byte <= x < 4 * j.word + j.lane.byte + j.lane.size) ==>
              b[x] == a[x]
  {
    var s, t := states[k], states[k + 1];
    var j := s.threads[i].job;
    var a, b := Bytes(s.mem), Bytes(t.mem);
    assert View(s).callers[i] == Waiting(j) && View(t).callers[i] == CallerOf(t, i);
    var was := LaneAt(a, j.word, j.lane);
    hide Bytes, LaneAt, Effect, Meaning, Extract, Both, LowMask, Abstract;
    ViewLane(s.mem, j.word, j.lane);
    ExtractIsCut(s.mem[j.word], j.lane);
    EffectMeans(j.op, j.lane, was);
    var (new_, ret, ok) := Effect(j.op, j.lane, was);
    if ok {
      LaneWritten(a, j.word, j.lane, new_);
    } else {
      NoEffect(j.op, j.lane, was);
    }
  }

  lemma NoEffect(op: Op, l: Lane, v: bv32)
    ensures !Effect(op, l, v).2 ==> Effect(op, l, v).0 == v
  {
    hide Applied, LowMask;
  }
}
