/** Software-stack accesses that share one frame root: the group is surveyed, one masked and bounded
    offset into the fiber's slice is computed at run time, and each access is placed relative to it. */
module StackRoot {
  import opened Wrappers
  import opened Bits
  import opened Congruence

  const INT_MAX: int := 0x7FFF_FFFF_FFFF_FFFF
  const WORD := 64
  const HALF := 32
  const FRAME_SHIFT := 4 // frame roots are 16-byte aligned

  /** `width` bytes at a constant offset from the root, promised alignment `2^shift`. Unaligned accesses
      have been split before, so the promise is at least the width. */
  datatype Access = Access(offset: int, width: nat, shift: nat)

  function Min(a: nat, b: nat): nat { if a < b then a else b }

  // ----- grouping -----

  /** Offsets share a root only if they constrain its alignment alike; `recovered` says that the
      root is a masked offset of the current frame. */
  function Constraint(a: Access, recovered: bool): nat {
    var residue := Wrap(-a.offset, a.shift);
    if recovered && a.shift <= FRAME_SHIFT && residue == 0 then 0 else Pow2(a.shift) + residue
  }

  ghost predicate SameConstraint(group: seq<Access>, recovered: bool) {
    forall i, j :: 0 <= i < |group| && 0 <= j < |group| ==>
        Constraint(group[i], recovered) == Constraint(group[j], recovered)
  }

  method GroupAccesses(accesses: seq<Access>, recovered: bool) returns (groups: map<nat, seq<Access>>)
    ensures forall a :: a in accesses ==> Constraint(a, recovered) in groups && a in groups[Constraint(a, recovered)]
    ensures forall c, a :: c in groups && a in groups[c] ==> a in accesses && Constraint(a, recovered) == c
    ensures forall c :: c in groups ==> SameConstraint(groups[c], recovered)
  {
    groups := map[];
    for n := 0 to |accesses|
      invariant forall a :: a in accesses[..n] ==>
          Constraint(a, recovered) in groups && a in groups[Constraint(a, recovered)]
      invariant forall c, a :: c in groups && a in groups[c] ==> a in accesses && Constraint(a, recovered) == c
    {
      var c := Constraint(accesses[n], recovered);
      groups := groups[c := (if c in groups then groups[c] else []) + [accesses[n]]];
      assert accesses[..n + 1] == accesses[..n] + [accesses[n]];
    }
    assert accesses[..|accesses|] == accesses;
  }

  lemma {:induction false} SumIsUnique(j: nat, r: nat, k: nat, s: nat)
    requires r < Pow2(j) && s < Pow2(k) && Pow2(j) + r == Pow2(k) + s
    ensures j == k && r == s
  {
    if j < k {
      Pow2Monotone(j + 1, k);
      assert false;
    }
    if k < j {
      Pow2Monotone(k + 1, j);
      assert false;
    }
  }

  // ----- survey -----

  datatype Survey = Survey(minimum: int, maximum: int, shift: nat, at: int)

  /** Accesses whose end does not fit a signed word are left out of the survey. */
  predicate Covered(a: Access) { a.width <= INT_MAX && a.offset <= INT_MAX - a.width }

  ghost predicate Surveyed(group: seq<Access>, s: Survey) {
    && (forall a :: a in group && Covered(a) ==>
        s.minimum <= a.offset && a.offset + a.width <= s.maximum && a.shift <= s.shift)
    && (exists a :: a in group && Covered(a) && a.offset == s.minimum)
    && (exists a :: a in group && Covered(a) && a.offset + a.width == s.maximum)
    && (if s.shift == 0 then s.at == 0 else exists a ::
        a in group && Covered(a) && a.shift == s.shift && a.offset == s.at)
  }

  /** Least offset, greatest end, and an access of the strictest alignment. */
  method SurveyGroup(group: seq<Access>) returns (r: Option<Survey>)
    requires forall a :: a in group ==> -INT_MAX - 1 <= a.offset <= INT_MAX
    ensures r.None? <==> forall a :: a in group ==> !Covered(a)
    ensures r.Some? ==> Surveyed(group, r.value)
  {
    var minimum, maximum, shift, at := INT_MAX, -INT_MAX - 1, 0, 0;
    var found := false;
    for i := 0 to |group|
      invariant found <==> exists a :: a in group[..i] && Covered(a)
      invariant found ==> Surveyed(group[..i], Survey(minimum, maximum, shift, at))
      invariant !found ==> minimum == INT_MAX && maximum == -INT_MAX - 1 && shift == 0 && at == 0
    {
      var a := group[i];
      assert group[..i + 1] == group[..i] + [a];
      if Covered(a) {
        ghost var was := Survey(minimum, maximum, shift, at);
        if a.offset < minimum { minimum := a.offset; }
        if a.offset + a.width > maximum { maximum := a.offset + a.width; }
        if a.shift > shift { shift, at := a.shift, a.offset; }
        SurveyNext(group[..i], a, found, was, Survey(minimum, maximum, shift, at));
        found := true;
      } else {
        SurveySkip(group[..i], a, Survey(minimum, maximum, shift, at));
      }
    }
    assert group[..|group|] == group;
    if !found { return None; }
    return Some(Survey(minimum, maximum, shift, at));
  }

  lemma SurveyNext(done: seq<Access>, a: Access, found: bool, was: Survey, s: Survey)
    requires Covered(a) && a.offset >= -INT_MAX - 1
    requires found <==> exists x :: x in done && Covered(x)
    requires if found then Surveyed(done, was) else was == Survey(INT_MAX, -INT_MAX - 1, 0, 0)
    requires s.minimum == (if a.offset < was.minimum then a.offset else was.minimum)
    requires s.maximum == (if a.offset + a.width > was.maximum then a.offset + a.width else was.maximum)
    requires s.shift == (if a.shift > was.shift then a.shift else was.shift)
    requires s.at == (if a.shift > was.shift then a.offset else was.at)
    ensures Surveyed(done + [a], s)
  {
    var more := done + [a];
    assert a in more && forall x :: x in done ==> x in more;
    if found {
      var x :| x in done && Covered(x) && x.offset == was.minimum;
      var y :| y in done && Covered(y) && y.offset + y.width == was.maximum;
      assert x in more && y in more;
      if was.shift > 0 {
        var z :| z in done && Covered(z) && z.shift == was.shift && z.offset == was.at;
        assert z in more;
      }
    }
  }

  lemma SurveySkip(done: seq<Access>, a: Access, s: Survey)
    requires !Covered(a)
    ensures (exists x :: x in done + [a] && Covered(x)) <==> exists x :: x in done && Covered(x)
    ensures Surveyed(done, s) ==> Surveyed(done + [a], s)
  {
    var more := done + [a];
    assert forall x :: x in done ==> x in more;
    assert forall x :: x in more && Covered(x) ==> x in done;
  }

  // ----- plan and translation -----

  /** One shared pointer: `extent` bytes from `minimum`, offsets congruent to `residue` modulo `2^bits`. */
  datatype Plan = Plan(minimum: int, extent: nat, bits: nat, residue: nat)

  /** A frame root is known to be 16-byte aligned even when its fields are less so. */
  predicate UsesFrame(s: Survey, recovered: bool) { recovered && s.shift < FRAME_SHIFT }

  function PlanShift(s: Survey, recovered: bool): nat { if UsesFrame(s, recovered) then FRAME_SHIFT else s.shift }

  function PlanAt(s: Survey, recovered: bool): int { if UsesFrame(s, recovered) then 0 else s.at }

  /** The slice has `2^n` bytes. None: the group does not fit and is left alone. */
  function MakePlan(s: Survey, recovered: bool, n: nat): Option<Plan>
    requires s.minimum <= s.maximum
  {
    var extent := s.maximum - s.minimum;
    var bits := Min(PlanShift(s, recovered), n);
    var residue := Wrap(s.minimum - PlanAt(s, recovered), bits);
    if extent > Pow2(n) || residue > Pow2(n) - extent then None else Some(Plan(s.minimum, extent, bits, residue))
  }

  /** The masked offset: the root's low word inside the slice, with the group's residue put in. */
  function Low(p: Plan, n: nat, root: nat): nat
    requires Pow2(p.bits) <= Pow2(n)
  {
    Or(And(Wrap(Wrap(root + p.minimum, WORD), HALF), Pow2(n) - Pow2(p.bits)), p.residue)
  }

  /** The bounded offset: a root out of range falls back to the residue. */
  function Bounded(p: Plan, n: nat, root: nat): nat
    requires Pow2(p.bits) <= Pow2(n) && p.extent <= Pow2(n)
  {
    var low := Low(p, n, root);
    if low <= Pow2(n) - p.extent then low else p.residue
  }

  /** Where the rewritten access goes, as an offset in the slice. */
  function Target(p: Plan, n: nat, root: nat, a: Access): int
    requires Pow2(p.bits) <= Pow2(n) && p.extent <= Pow2(n)
  {
    Bounded(p, n, root) + (a.offset - p.minimum)
  }

  ghost predicate PlanOk(p: Plan, n: nat) {
    && p.bits <= n <= 22 && Pow2(p.bits) <= Pow2(n) && p.extent <= Pow2(n)
    && p.residue < Pow2(p.bits) && p.residue <= Pow2(n) - p.extent
  }

  lemma PlanIsOk(s: Survey, recovered: bool, n: nat)
    requires s.minimum <= s.maximum && MakePlan(s, recovered, n).Some? && n <= 22
    ensures PlanOk(MakePlan(s, recovered, n).value, n)
  {
    Pow2Monotone(MakePlan(s, recovered, n).value.bits, n);
  }

  predicate Room(t: nat, d: nat, residue: nat, extent: nat, size: nat)
    requires d > 0
  {
    t % d == residue && t + extent <= size
  }

  /** Some offset congruent to `residue` leaves room for `extent` bytes. */
  ghost predicate HasRoom(d: nat, residue: nat, extent: nat, size: nat)
    requires d > 0
  {
    exists t: nat :: Room(t, d, residue, extent, size)
  }

  lemma LeastRoom(d: nat, residue: nat, extent: nat, size: nat)
    requires residue < d
    ensures HasRoom(d, residue, extent, size) <==> residue + extent <= size
  {
    if residue + extent <= size {
      DivUnique(residue, d, 0, residue);
      assert Room(residue, d, residue, extent, size);
    } else {
      forall t: nat ensures !Room(t, d, residue, extent, size) {
        if t % d == residue { assert t == t / d * d + residue && t / d * d >= 0; }
      }
    }
  }

  /** A group is rewritten exactly when its bytes fit the slice at some offset of the alignment it implies,
      and then the plan keeps the least such offset: for the root of a frame, 16 bytes at least. */
  lemma PlanExactly(s: Survey, recovered: bool, n: nat)
    requires s.minimum <= s.maximum
    ensures var frame := recovered && s.shift < 4;
            var d := Pow2(Min(if frame then 4 else s.shift, n));
            var residue := (s.minimum - if frame then 0 else s.at) % d;
            var extent, plan := s.maximum - s.minimum, MakePlan(s, recovered, n);
            && (plan.Some? <==> HasRoom(d, residue, extent, Pow2(n)))
            && (plan.Some? ==>
                plan.value == Plan(s.minimum, extent, Min(if frame then 4 else s.shift, n), residue))
  {
    hide Pow2, HasRoom;
    var frame := recovered && s.shift < 4;
    var d := Pow2(Min(if frame then 4 else s.shift, n));
    LeastRoom(d, (s.minimum - if frame then 0 else s.at) % d, s.maximum - s.minimum, Pow2(n));
  }

  /** The masked offset has the plan's residue and the high bits of the true offset. */
  lemma LowIs(p: Plan, n: nat, root: nat)
    requires PlanOk(p, n)
    ensures Low(p, n, root) == Wrap(root + p.minimum, n) - Wrap(root + p.minimum, p.bits) + p.residue
    ensures Low(p, n, root) < Pow2(n) && Same(Low(p, n, root), p.residue, p.bits)
  {
    hide Wrap, And, Or, Pow2;
    var r := root + p.minimum;
    var x := Wrap(Wrap(r, WORD), HALF);
    SameDeep(r, n);
    SameDeep(r, p.bits);
    MaskWrap(x, p.bits, n);
    LowBound(Wrap(x, n) - Wrap(x, p.bits), p.residue, p.bits, n);
  }

  lemma SameDeep(r: int, bits: nat)
    requires bits <= HALF
    ensures Wrap(Wrap(Wrap(r, WORD), HALF), bits) == Wrap(r, bits)
  {
    hide Pow2;
    SameWrap(Wrap(r, WORD), HALF, bits);
    SameWrap(r, WORD, bits);
  }

  lemma MaskWrap(x: nat, k: nat, n: nat)
    requires k <= n
    ensures Wrap(x, k) <= Wrap(x, n) < Pow2(n) && Same(Wrap(x, n) - Wrap(x, k), 0, k)
    ensures Pow2(k) <= Pow2(n) && And(x, Pow2(n) - Pow2(k)) == Wrap(x, n) - Wrap(x, k)
  {
    hide And, Pow2;
    AndMask(x, k, n);
    MaskedIsAligned(x, k, n);
  }

  lemma LowBound(high: nat, residue: nat, bits: nat, n: nat)
    requires bits <= n && Same(high, 0, bits) && high < Pow2(n) && residue < Pow2(bits)
    ensures Or(high, residue) == high + residue < Pow2(n) && Same(high + residue, residue, bits)
  {
    hide Pow2, Or;
    Pow2Add(n - bits, bits);
    OrBelow(high, residue, bits);
    SameShift(high, 0, residue, bits);
    BelowProduct(high, residue, Pow2(bits), Pow2(n - bits));
  }

  lemma BelowProduct(high: nat, residue: nat, d: nat, e: nat)
    requires d > 0 && high % d == 0 && high < e * d && residue < d
    ensures high + residue < e * d
  {
    var q := high / d;
    assert high == q * d;
    assert q < e by { if q >= e { MulMonotone(e, q, d); } }
    MulMonotone(q + 1, e, d);
  }

  // ----- every access stays in the slice -----

  /** The greatest offset the bounded root can take. */
  function LargestLow(p: Plan, n: nat): nat
    requires PlanOk(p, n)
  {
    LastStep(Pow2(n) - p.extent, p.residue, Pow2(p.bits))
  }

  /** The last of `residue`, `residue + d`, ... that is at most `limit`. */
  function LastStep(limit: nat, residue: nat, d: nat): (r: nat)
    requires residue <= limit && d > 0
  {
    limit - (limit - residue) % d
  }

  lemma LastStepIs(limit: nat, residue: nat, d: nat)
    requires residue <= limit && residue < d
    ensures residue <= LastStep(limit, residue, d) <= limit && LastStep(limit, residue, d) % d == residue
    ensures forall x: nat :: x <= limit && Mod(x, d) == residue ==> residue <= x <= LastStep(limit, residue, d)
  {
    var last, q, m := LastStep(limit, residue, d), (limit - residue) / d, (limit - residue) % d;
    assert limit - residue == q * d + m;
    assert last == q * d + residue && q * d >= 0;
    DivUnique(last, d, q, residue);
    forall x: nat | x <= limit && Mod(x, d) == residue ensures residue <= x <= last {
      StepBelow(x, d, residue, q, m);
    }
  }

  lemma StepBelow(x: nat, d: nat, residue: nat, q: nat, m: nat)
    requires d > 0 && x % d == residue && m < d && x <= q * d + m + residue
    ensures residue <= x <= q * d + residue
  {
    var k := x / d;
    assert x == k * d + residue && k * d >= 0;
    if k > q { MulMonotone(q + 1, k, d); } else { MulMonotone(k, q, d); }
  }

  lemma BoundedRange(p: Plan, n: nat, root: nat)
    requires PlanOk(p, n)
    ensures p.residue <= Bounded(p, n, root) <= LargestLow(p, n) && Same(Bounded(p, n, root), p.residue, p.bits)
  {
    hide Low, LastStep, Pow2;
    LowIs(p, n, root);
    LastStepIs(Pow2(n) - p.extent, p.residue, Pow2(p.bits));
    ResidueWraps(p, n);
    var low := Low(p, n, root);
    assert Mod(low, Pow2(p.bits)) == p.residue;
  }

  lemma ResidueWraps(p: Plan, n: nat)
    requires PlanOk(p, n)
    ensures Wrap(p.residue, p.bits) == p.residue
  {
    hide Pow2;
    DivUnique(p.residue, Pow2(p.bits), 0, p.residue);
  }

  /** A root that is at `target` for the group's first byte is translated to it. */
  lemma Reached(p: Plan, n: nat, target: nat)
    requires PlanOk(p, n) && target < Pow2(n) && target <= Pow2(n) - p.extent && Same(target, p.residue, p.bits)
    ensures Bounded(p, n, Wrap(target - p.minimum, WORD)) == target
  {
    hide Low, Pow2, Wrap;
    var root := Wrap(target - p.minimum, WORD);
    LowIs(p, n, root);
    ReachedWrap(p, target, n);
    ReachedWrap(p, target, p.bits);
    WrapSmall(target, n);
    ResidueWraps(p, n);
  }

  lemma ReachedWrap(p: Plan, target: nat, bits: nat)
    requires bits <= WORD
    ensures Wrap(Wrap(target - p.minimum, WORD) + p.minimum, bits) == Wrap(target, bits)
  {
    hide Pow2;
    SameWrap(target - p.minimum, WORD, bits);
    SameShift(Wrap(target - p.minimum, WORD), target - p.minimum, p.minimum, bits);
  }

  lemma WrapSmall(x: nat, bits: nat)
    requires x < Pow2(bits)
    ensures Wrap(x, bits) == x
  {
    hide Pow2;
    DivUnique(x, Pow2(bits), 0, x);
  }

  ghost predicate Inside(p: Plan, n: nat, root: nat, a: Access)
    requires PlanOk(p, n)
  {
    0 <= Target(p, n, root, a) && Target(p, n, root, a) + a.width <= Pow2(n)
  }

  /** An access stays inside the slice for every root exactly when its bytes fit at the least and
      at the greatest offset. */
  lemma InsideExactly(p: Plan, n: nat, a: Access)
    requires PlanOk(p, n) && p.extent > 0
    ensures (forall root: nat :: Inside(p, n, root, a))
            <==>
            p.residue + (a.offset - p.minimum) >= 0
            && LargestLow(p, n) + (a.offset - p.minimum) + a.width <= Pow2(n)
  {
    hide Bounded, LargestLow, Pow2;
    forall root: nat ensures p.residue <= Bounded(p, n, root) <= LargestLow(p, n) {
      BoundedRange(p, n, root);
    }
    if forall root: nat :: Inside(p, n, root, a) {
      EndsReached(p, n);
      assert Inside(p, n, Wrap(p.residue - p.minimum, WORD), a);
      assert Inside(p, n, Wrap(LargestLow(p, n) - p.minimum, WORD), a);
    }
  }

  lemma EndsReached(p: Plan, n: nat)
    requires PlanOk(p, n) && p.extent > 0
    ensures Bounded(p, n, Wrap(p.residue - p.minimum, WORD)) == p.residue
    ensures Bounded(p, n, Wrap(LargestLow(p, n) - p.minimum, WORD)) == LargestLow(p, n)
  {
    hide Bounded, LastStep, Pow2;
    Reached(p, n, p.residue);
    LastStepIs(Pow2(n) - p.extent, p.residue, Pow2(p.bits));
    ResidueWraps(p, n);
    Reached(p, n, LargestLow(p, n));
  }

  /** Whatever the root holds, every surveyed access lands inside the slice. */
  lemma SurveyedInside(group: seq<Access>, s: Survey, recovered: bool, n: nat, a: Access, root: nat)
    requires Surveyed(group, s) && a in group && Covered(a) && s.minimum <= s.maximum && n <= 22
    requires MakePlan(s, recovered, n).Some?
    ensures PlanOk(MakePlan(s, recovered, n).value, n) && Inside(MakePlan(s, recovered, n).value, n, root, a)
  {
    hide Low, LargestLow, Pow2;
    PlanIsOk(s, recovered, n);
    BoundedRange(MakePlan(s, recovered, n).value, n, root);
  }

  /** An access left out of the survey is rewritten all the same: the last byte of the signed range,
      grouped with any byte at least a slice below it, leaves the slice, of whatever size, for every root. */
  lemma SkippedLeaves(offset: int, n: nat, root: nat) returns (p: Plan)
    requires n <= 22 && offset + Pow2(n) <= INT_MAX
    ensures var near, far, s := Access(offset, 1, 0), Access(INT_MAX, 1, 0), Survey(offset, offset + 1, 0, 0);
            && Surveyed([near, far], s) && Constraint(near, false) == Constraint(far, false)
            && MakePlan(s, false, n) == Some(p) && PlanOk(p, n) && !Inside(p, n, root, far)
  {
    hide Pow2, MakePlan, Surveyed, Constraint, PlanOk, Inside;
    assert offset < INT_MAX by { Pow2Monotone(0, n); }
    SkippedSurvey(offset);
    LonePlan(offset, n);
    p := Plan(offset, 1, 0, 0);
    PlanIsOk(Survey(offset, offset + 1, 0, 0), false, n);
    TooFar(p, n, root, Access(INT_MAX, 1, 0));
  }

  lemma TooFar(p: Plan, n: nat, root: nat, a: Access)
    requires PlanOk(p, n) && a.offset - p.minimum + a.width > Pow2(n)
    ensures !Inside(p, n, root, a)
  {
    hide Low, Pow2;
  }

  lemma SkippedSurvey(offset: int)
    requires offset < INT_MAX
    ensures var near, far := Access(offset, 1, 0), Access(INT_MAX, 1, 0);
            Surveyed([near, far], Survey(offset, offset + 1, 0, 0)) && Constraint(near, false) == Constraint(far, false)
  {
    var near, far := Access(offset, 1, 0), Access(INT_MAX, 1, 0);
    assert near in [near, far] && Covered(near) && !Covered(far);
    assert Pow2(0) == 1;
  }

  lemma LonePlan(offset: int, n: nat)
    ensures MakePlan(Survey(offset, offset + 1, 0, 0), false, n) == Some(Plan(offset, 1, 0, 0))
  {
    assert Pow2(0) == 1;
    Pow2Monotone(0, n);
  }

  // ----- exactness -----

  /** The masked offset is the true one exactly when the root has the alignment the group implies. */
  lemma LowExact(s: Survey, recovered: bool, n: nat, root: nat)
    requires s.minimum <= s.maximum && n <= 22 && MakePlan(s, recovered, n).Some?
    ensures var p := MakePlan(s, recovered, n).value;
            && PlanOk(p, n)
            && (Low(p, n, root) == Wrap(root + s.minimum, n) <==> Same(root + PlanAt(s, recovered), 0, p.bits))
  {
    hide Low, Pow2, Wrap, PlanShift, PlanAt;
    PlanIsOk(s, recovered, n);
    var p := MakePlan(s, recovered, n).value;
    LowIs(p, n, root);
    SameShift(root + PlanAt(s, recovered), 0, s.minimum - PlanAt(s, recovered), p.bits);
  }

  /** For an aligned root whose extent fits, each access goes to its true offset modulo the slice. */
  lemma TargetExact(group: seq<Access>, s: Survey, recovered: bool, n: nat, a: Access, root: nat)
    requires Surveyed(group, s) && a in group && Covered(a) && s.minimum <= s.maximum && n <= 22 && a.width > 0
    requires MakePlan(s, recovered, n).Some? && PlanOk(MakePlan(s, recovered, n).value, n)
    requires Same(root + PlanAt(s, recovered), 0, MakePlan(s, recovered, n).value.bits)
    requires Wrap(root + s.minimum, n) + (s.maximum - s.minimum) <= Pow2(n)
    ensures Target(MakePlan(s, recovered, n).value, n, root, a) == Wrap(root + a.offset, n)
  {
    hide Low, Pow2, Wrap, PlanShift, PlanAt;
    var p := MakePlan(s, recovered, n).value;
    LowExact(s, recovered, n, root);
    var first, step := Wrap(root + s.minimum, n), a.offset - s.minimum;
    assert Target(p, n, root, a) == first + step;
    Advance(root + s.minimum, step, n);
  }

  lemma Advance(x: int, step: nat, n: nat)
    requires Wrap(x, n) + step < Pow2(n)
    ensures Wrap(x + step, n) == Wrap(x, n) + step
  {
    SameWrap(x, n, n);
    SameShift(Wrap(x, n), x, step, n);
    WrapSmall(Wrap(x, n) + step, n);
  }

  // ----- alignment -----

  /** Members of one group agree on the root's alignment. */
  lemma ConstraintAgrees(a: Access, z: Access, recovered: bool)
    requires Constraint(a, recovered) == Constraint(z, recovered)
    ensures if Constraint(a, recovered) == 0 then
              && recovered && a.shift <= FRAME_SHIFT && z.shift <= FRAME_SHIFT
              && Same(-a.offset, 0, a.shift) && Same(-z.offset, 0, z.shift)
            else a.shift == z.shift && Same(-a.offset, -z.offset, a.shift)
  {
    if Constraint(a, recovered) != 0 {
      SumIsUnique(a.shift, Wrap(-a.offset, a.shift), z.shift, Wrap(-z.offset, z.shift));
    }
  }

  /** An access that every frame root serves. */
  predicate FrameField(a: Access, recovered: bool) {
    recovered && a.shift <= 4 && a.offset % Pow2(a.shift) == 0
  }

  /** Two accesses share a group exactly when they are both frame fields, or both not and of one alignment
      with offsets that differ by a multiple of it. */
  lemma GroupedExactly(a: Access, z: Access, recovered: bool)
    ensures Constraint(a, recovered) == Constraint(z, recovered) <==>
            if FrameField(a, recovered) || FrameField(z, recovered) then
              FrameField(a, recovered) && FrameField(z, recovered)
            else a.shift == z.shift && (a.offset - z.offset) % Pow2(a.shift) == 0
  {
    FrameConstraint(a, recovered);
    FrameConstraint(z, recovered);
    hide Pow2, Wrap, FrameField, Constraint;
    if !FrameField(a, recovered) && !FrameField(z, recovered) {
      if Constraint(a, recovered) == Constraint(z, recovered) {
        SumIsUnique(a.shift, Wrap(-a.offset, a.shift), z.shift, Wrap(-z.offset, z.shift));
      }
      OffsetsAgree(a.offset, z.offset, a.shift);
    }
  }

  lemma FrameConstraint(a: Access, recovered: bool)
    ensures Constraint(a, recovered) == 0 <==> FrameField(a, recovered)
    ensures !FrameField(a, recovered) ==> Constraint(a, recovered) == Pow2(a.shift) + Wrap(-a.offset, a.shift)
    ensures Wrap(-a.offset, a.shift) < Pow2(a.shift)
  {
    hide Pow2;
    NegatedResidue(a.offset, a.shift);
  }

  lemma OffsetsAgree(x: int, y: int, bits: nat)
    ensures Wrap(-x, bits) == Wrap(-y, bits) <==> (x - y) % Pow2(bits) == 0
  {
    hide Pow2;
    SameShift(-x, -y, x, bits);
    DivUnique(0, Pow2(bits), 0, 0);
  }

  lemma NegatedResidue(x: int, bits: nat)
    ensures Wrap(-x, bits) == 0 <==> x % Pow2(bits) == 0
  {
    hide Pow2;
    SameShift(-x, 0, x, bits);
    DivUnique(0, Pow2(bits), 0, 0);
  }

  /** Any target differs from the access's offset by the group's aligned offset. */
  lemma TargetResidue(s: Survey, recovered: bool, n: nat, a: Access, root: nat)
    requires s.minimum <= s.maximum && n <= 22 && MakePlan(s, recovered, n).Some?
    ensures var p := MakePlan(s, recovered, n).value;
            PlanOk(p, n) && Same(Target(p, n, root, a), a.offset - PlanAt(s, recovered), p.bits)
  {
    hide Bounded, Pow2, PlanShift, PlanAt, LargestLow;
    PlanIsOk(s, recovered, n);
    var p := MakePlan(s, recovered, n).value;
    BoundedRange(p, n, root);
    SameWrap(s.minimum - PlanAt(s, recovered), p.bits, p.bits);
    SameShift(Bounded(p, n, root), s.minimum - PlanAt(s, recovered), a.offset - p.minimum, p.bits);
  }

  lemma SameNegate(x: int, y: int, bits: nat)
    requires Same(-x, -y, bits)
    ensures Same(x - y, 0, bits)
  {
    hide Pow2;
    SameShift(-x, -y, x, bits);
  }

  /** Outside the frame rule the group's aligned offset and each member's differ by a multiple. */
  lemma MemberAligned(group: seq<Access>, s: Survey, recovered: bool, a: Access)
    requires Surveyed(group, s) && SameConstraint(group, recovered) && a in group && !UsesFrame(s, recovered)
    ensures a.shift <= s.shift && Same(a.offset - s.at, 0, a.shift)
    ensures recovered && a.shift < FRAME_SHIFT ==> Same(a.offset, 0, a.shift)
  {
    hide Pow2, Wrap, Constraint;
    var z :| z in group && Covered(z) && (s.shift == 0 || (z.shift == s.shift && z.offset == s.at));
    ConstraintAgrees(a, z, recovered);
    if Constraint(a, recovered) == 0 {
      SameNarrow(-z.offset, 0, z.shift, a.shift);
      SameAdd(-z.offset, 0, -a.offset, 0, a.shift);
      SameAdd(0, 0, -a.offset, 0, a.shift);
    } else if s.shift == 0 {
      EveryBit(a.offset - s.at);
    } else {
      SameNegate(a.offset, z.offset, a.shift);
    }
  }

  lemma EveryBit(x: int)
    ensures Same(x, 0, 0)
  {
  }

  /** For every root each access keeps its promised alignment (up to the slice's own), exactly unless
      the root is a recovered frame offset and the access, weaker than a frame, has an offset that is
      no multiple of its alignment; then it never does. */
  lemma AlignmentKept(group: seq<Access>, s: Survey, recovered: bool, n: nat, a: Access, root: nat)
    requires Surveyed(group, s) && SameConstraint(group, recovered) && a in group && s.minimum <= s.maximum && n <= 22
    requires MakePlan(s, recovered, n).Some?
    ensures var p, bits := MakePlan(s, recovered, n).value, Min(a.shift, n);
            && PlanOk(p, n)
            && (Same(Target(p, n, root, a), 0, bits) <==>
                !(recovered && a.shift < FRAME_SHIFT && !Same(a.offset, 0, bits)))
  {
    hide Pow2, Wrap, Bounded, Surveyed, SameConstraint;
    var p, bits := MakePlan(s, recovered, n).value, Min(a.shift, n);
    TargetResidue(s, recovered, n, a, root);
    if UsesFrame(s, recovered) {
      FrameShift(group, s, recovered, a);
      if a.shift == FRAME_SHIFT { SameNarrow(a.offset, 0, a.shift, bits); }
      SameNarrow(Target(p, n, root, a), a.offset, p.bits, bits);
    } else {
      MemberAligned(group, s, recovered, a);
      SameNarrow(a.offset - s.at, 0, a.shift, bits);
      SameNarrow(Target(p, n, root, a), a.offset - s.at, p.bits, bits);
      if recovered && a.shift < FRAME_SHIFT { SameNarrow(a.offset, 0, a.shift, bits); }
    }
  }

  lemma FrameShift(group: seq<Access>, s: Survey, recovered: bool, a: Access)
    requires Surveyed(group, s) && SameConstraint(group, recovered) && a in group && UsesFrame(s, recovered)
    ensures a.shift <= FRAME_SHIFT && (a.shift == FRAME_SHIFT ==> Same(a.offset, 0, a.shift))
  {
    hide Pow2, Wrap, Constraint;
    var z :| z in group && Covered(z) && z.shift <= s.shift;
    ConstraintAgrees(a, z, recovered);
    if Constraint(a, recovered) == 0 { SameAdd(0, 0, -a.offset, 0, a.shift); }
  }

  /** An 8-byte aligned access 4 bytes into a recovered frame is 4 bytes off for every root. */
  lemma FrameRuleMisaligns(root: nat)
    ensures var a, s := Access(4, 8, 3), Survey(4, 12, 3, 4);
            && Surveyed([a], s) && SameConstraint([a], true) && MakePlan(s, true, 10).Some?
            && PlanOk(MakePlan(s, true, 10).value, 10) && !Same(Target(MakePlan(s, true, 10).value, 10, root, a), 0, 3)
  {
    var a, s := Access(4, 8, 3), Survey(4, 12, 3, 4);
    assert a in [a] && Covered(a);
    assert Pow2(10) == 1024 && Pow2(4) == 16 && Pow2(3) == 8;
    assert MakePlan(s, true, 10) == Some(Plan(4, 8, 4, 4));
    AlignmentKept([a], s, true, 10, a, root);
  }
}
