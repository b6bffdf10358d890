/** Placing globals in the 32-bit address domain so that each one of region size or less lies in
    one region, and the compile-time choice of a region that this placement allows. */
module GlobalLayout {
  import opened Wrappers
  import opened Bits
  import opened Endian
  import opened RegionMemory

  const PAGE: nat := 4096
  const LIMIT: nat := 0x1_0000_0000

  // ----- alignment -----

  ghost predicate IsPow2(n: nat) { exists k: nat :: Pow2(k) == n }

  /** A single bit: no other bit in common with its predecessor. */
  predicate OneBit(n: nat) { n > 0 && And(n, n - 1) == 0 }

  lemma {:induction false} OneBitIsPow2(n: nat)
    ensures OneBit(n) <==> IsPow2(n)
  {
    if n == 0 {
    } else if n == 1 {
      assert Pow2(0) == 1;
    } else if n % 2 == 1 {
      AndSelfPositive(n / 2);
      assert (n - 1) / 2 == n / 2;
      forall k: nat ensures Pow2(k) != n { if k > 0 { assert Pow2(k) == 2 * Pow2(k - 1); } }
    } else {
      OneBitIsPow2(n / 2);
      assert (n - 1) / 2 == n / 2 - 1;
      if OneBit(n / 2) {
        var k: nat :| Pow2(k) == n / 2;
        assert Pow2(k + 1) == n;
      }
      if IsPow2(n) {
        var k: nat :| Pow2(k) == n;
        assert Pow2(k - 1) == n / 2;
      }
    }
  }

  lemma {:induction false} AndSelfPositive(n: nat)
    ensures And(n, n) == n
  {
    if n > 0 { AndSelfPositive(n / 2); }
  }

  /** Round `value` up to the alignment without passing the limit. */
  function AlignWithin(value: nat, alignment: nat, limit: nat): Option<nat> {
    if !OneBit(alignment) || value > limit then None
    else
      AndAtMost(value, alignment - 1);
      var remainder := And(value, alignment - 1);
      var padding := if remainder != 0 then alignment - remainder else 0;
      if padding > limit - value then None else Some(value + padding)
  }

  lemma {:induction false} AndAtMost(a: nat, b: nat)
    ensures And(a, b) <= b
  {
    if a != 0 && b != 0 { AndAtMost(a / 2, b / 2); }
  }

  lemma Remainder(value: nat, alignment: nat)
    requires alignment > 0 && IsPow2(alignment)
    ensures OneBit(alignment) && And(value, alignment - 1) == value % alignment
  {
    OneBitIsPow2(alignment);
    var k: nat :| Pow2(k) == alignment;
    AndMask(value, 0, k);
    assert Pow2(0) == 1;
  }

  predicate Multiple(x: nat, d: nat) { d > 0 && x % d == 0 }

  /** `r` is the least multiple of the alignment in `value..limit`, or there is none. */
  ghost predicate LeastMultiple(r: Option<nat>, value: nat, alignment: nat, limit: nat) {
    && (r.Some? ==> value <= r.value <= limit && Multiple(r.value, alignment))
    && (forall x :: value <= x <= limit && Multiple(x, alignment) ==> r.Some? && r.value <= x)
  }

  lemma RoundUp(value: nat, d: nat, m: nat)
    requires d > 0 && m == value % d && m != 0
    ensures Multiple(value + (d - m), d)
    ensures forall x :: value <= x && Multiple(x, d) ==> value + (d - m) <= x
  {
    var q := value / d;
    var up := (q + 1) * d;
    assert up == value + (d - m) by { assert value == q * d + m; }
    DivUnique(up, d, q + 1, 0);
    forall x | value <= x && Multiple(x, d) ensures up <= x { NextMultiple(x, d, q, m); }
  }

  lemma AlignWithinIsLeast(value: nat, alignment: nat, limit: nat)
    requires IsPow2(alignment) && alignment > 0 && value <= limit
    ensures LeastMultiple(AlignWithin(value, alignment, limit), value, alignment, limit)
  {
    Remainder(value, alignment);
    var m := value % alignment;
    assert m == 0 ==> Multiple(value, alignment);
    if m != 0 { RoundUp(value, alignment, m); }
    hide OneBit, IsPow2, And, Multiple;
  }

  lemma NextMultiple(x: nat, d: nat, q: nat, m: nat)
    requires Multiple(x, d) && q * d + m <= x && m > 0
    ensures (q + 1) * d <= x
  {
    var p := x / d;
    assert x == p * d;
    assert p > q by { if p <= q { MulMonotone(p, q, d); } }
    MulMonotone(q + 1, p, d);
  }

  // ----- placement -----

  datatype Global = Global(size: nat, align: nat)

  datatype Layout = Layout(offsets: seq<nat>, heapBase: nat, spanning: seq<(nat, nat)>)

  function Alignment(g: Global): (a: nat)
    ensures a >= 8
  { 
    if g.align > 8 then g.align else 8
  }

  /** An acceptable address: aligned, inside the domain, and in one region if it can be. */
  predicate Placeable(g: Global, o: nat) {
    && Multiple(o, Alignment(g))
    && o + g.size <= LIMIT
    && (0 < g.size <= SPAN ==> o / SPAN == (o + g.size - 1) / SPAN)
  }

  /** For a power-of-two alignment the acceptable addresses are the multiples of it and of 8 where the
      object ends inside the 32-bit domain and, unless wider than a region, lies in one. */
  lemma PlaceableExactly(g: Global, o: nat)
    requires IsPow2(g.align) && g.align > 0
    ensures Placeable(g, o) <==>
            && o % 8 == 0 && o % g.align == 0 && o + g.size <= 0x1_0000_0000
            && (forall a, b :: o <= a < o + g.size <= o + SPAN && o <= b < o + g.size ==> a / SPAN == b / SPAN)
  {
    assert Pow2(3) == 8;
    if g.align > 8 {
      if Multiple(o, g.align) { PowersDivide(8, g.align, o); }
    } else if Multiple(o, 8) {
      PowersDivide(g.align, 8, o);
    }
    if 0 < g.size <= SPAN && o / SPAN == (o + g.size - 1) / SPAN {
      forall a, b | o <= a < o + g.size && o <= b < o + g.size ensures a / SPAN == b / SPAN {
        OneRegion(o, g.size, a, b);
      }
    }
  }

  /** The first acceptable address at or after `cursor`. */
  ghost predicate FirstFit(g: Global, cursor: nat, o: nat) {
    && cursor <= o && Placeable(g, o)
    && forall x :: cursor <= x < o ==> !Placeable(g, x)
  }

  ghost predicate NoFit(g: Global, cursor: nat) {
    !IsPow2(Alignment(g)) || forall x :: cursor <= x ==> !Placeable(g, x)
  }

  function RegionEnd(c: nat): nat { (c / SPAN + 1) * SPAN }

  lemma PowersDivide(a: nat, b: nat, x: nat)
    requires IsPow2(a) && IsPow2(b) && a <= b && a > 0 && Multiple(x, b)
    ensures Multiple(x, a)
  {
    var i: nat, j: nat :| Pow2(i) == a && Pow2(j) == b;
    if i > j { Pow2Strict(j, i); }
    ModOfMod(x, i, j);
  }

  lemma Pow2Strict(j: nat, i: nat)
    requires j < i
    ensures Pow2(j) < Pow2(i)
  {
    Pow2Monotone(j, i - 1);
  }

  /** An aligned address where the object straddles: nothing before the next region will do, and
      the next region's first address is aligned. */
  lemma NextRegion(g: Global, c: nat)
    requires IsPow2(Alignment(g)) && Multiple(c, Alignment(g)) && c + g.size <= LIMIT
    requires 0 < g.size <= SPAN && c / SPAN != (c + g.size - 1) / SPAN
    ensures c < RegionEnd(c) <= LIMIT && Multiple(RegionEnd(c), SPAN) && Multiple(RegionEnd(c), Alignment(g))
    ensures forall x :: c <= x < RegionEnd(c) ==> x / SPAN == c / SPAN && !Placeable(g, x) && !Multiple(x, SPAN)
    ensures RegionEnd(c) / SPAN == (RegionEnd(c) + g.size - 1) / SPAN
  {
    var align, n := Alignment(g), RegionEnd(c);
    hide IsPow2, Alignment;
    assert c % SPAN != 0;
    assert IsPow2(SPAN) by { SpanIsPow2(); }
    if align > SPAN { PowersDivide(SPAN, align, c); }
    PowersDivide(align, SPAN, n);
  }

  lemma SpanIsPow2()
    ensures IsPow2(SPAN)
  {
    SpanPow2();
  }

  lemma SixteenIsPow2()
    ensures IsPow2(16)
  {
    assert Pow2(4) == 16;
  }

  method Place(g: Global, cursor: nat) returns (r: Option<nat>)
    requires cursor <= LIMIT
    ensures r.Some? ==> IsPow2(Alignment(g)) && FirstFit(g, cursor, r.value)
    ensures r.None? ==> NoFit(g, cursor)
  {
    var align := Alignment(g);
    hide Multiple, OneBit, IsPow2, And;
    OneBitIsPow2(align);
    var aligned := AlignWithin(cursor, align, LIMIT);
    if !OneBit(align) { return None; }
    AlignWithinIsLeast(cursor, align, LIMIT);
    if aligned.None? { return None; }
    var c := aligned.value;
    if g.size > LIMIT - c { return None; }
    if g.size != 0 && g.size <= SPAN && c / SPAN != (c + g.size - 1) / SPAN {
      var next := AlignWithin(c, SPAN, LIMIT);
      SpanIsPow2();
      AlignWithinIsLeast(c, SPAN, LIMIT);
      NextRegion(g, c);
      if next.None? || g.size > LIMIT - next.value { return None; }
      return Some(next.value);
    }
    return Some(c);
  }

  /** Where the storage before global `i` ends; the first page stays unmapped. */
  function EndBefore(globals: seq<Global>, offsets: seq<nat>, i: nat): nat
    requires i <= |offsets| <= |globals|
  {
    if i == 0 then PAGE else offsets[i - 1] + globals[i - 1].size
  }

  ghost predicate Placed(globals: seq<Global>, offsets: seq<nat>) {
    && |offsets| <= |globals|
    && forall i: nat :: i < |offsets| ==> PlacedAt(globals, offsets, i)
  }

  ghost predicate PlacedAt(globals: seq<Global>, offsets: seq<nat>, i: nat)
    requires i < |offsets| <= |globals|
  {
    FirstFit(globals[i], EndBefore(globals, offsets, i), offsets[i])
  }

  predicate Covers(spanning: seq<(nat, nat)>, a: nat) {
    exists s :: 0 <= s < |spanning| && spanning[s].0 <= a < spanning[s].1
  }

  predicate Inside(globals: seq<Global>, offsets: seq<nat>, i: nat, a: nat)
    requires i < |offsets| <= |globals|
  {
    offsets[i] <= a < offsets[i] + globals[i].size
  }

  /** Address `a` belongs to a global wider than a region. */
  ghost predicate Wide(globals: seq<Global>, offsets: seq<nat>, a: nat)
    requires |offsets| <= |globals|
  {
    exists i: nat :: i < |offsets| && globals[i].size > SPAN && Inside(globals, offsets, i, a)
  }

  /** The ranges no single region holds: large globals and the heap. */
  ghost predicate SpanningIs(spanning: seq<(nat, nat)>, globals: seq<Global>, offsets: seq<nat>, heapBase: nat)
    requires |offsets| <= |globals|
  {
    forall a: nat :: Covers(spanning, a) <==> heapBase <= a < LIMIT || Wide(globals, offsets, a)
  }

  ghost predicate LaidOut(globals: seq<Global>, l: Layout) {
    && |l.offsets| == |globals| && Placed(globals, l.offsets)
    && LeastMultiple(Some(l.heapBase), EndBefore(globals, l.offsets, |globals|), 16, LIMIT)
    && SpanningIs(l.spanning, globals, l.offsets, l.heapBase)
  }

  /** After these placements the next global, or the heap, has nowhere to go. */
  ghost predicate Stuck(globals: seq<Global>, offsets: seq<nat>) {
    && Placed(globals, offsets)
    && var end := EndBefore(globals, offsets, |offsets|);
       if |offsets| < |globals| then NoFit(globals[|offsets|], end) else LeastMultiple(None, end, 16, LIMIT)
  }

  lemma NothingPlaced(globals: seq<Global>)
    ensures Placed(globals, []) && SpanningIs([], globals, [], LIMIT)
  {
  }

  lemma FirstFitBounds(g: Global, cursor: nat, o: nat)
    requires FirstFit(g, cursor, o)
    ensures cursor <= o && o + g.size <= LIMIT
  {
  }

  /** Place every global first-fit and the heap after them, or name the first that has no place. */
  method LayOut(globals: seq<Global>) returns (r: Result<Layout, nat>)
    ensures r.Ok? ==> LaidOut(globals, r.value)
    ensures r.Err? ==> exists offsets :: Stuck(globals, offsets) && |offsets| == r.error
  {
    hide FirstFit, NoFit, IsPow2, SpanningIs, LeastMultiple, Placed;
    NothingPlaced(globals);
    var cursor := PAGE;
    var offsets: seq<nat>, spanning: seq<(nat, nat)> := [], [];
    for i := 0 to |globals|
      invariant |offsets| == i && Placed(globals, offsets)
      invariant cursor == EndBefore(globals, offsets, i) && cursor <= LIMIT
      invariant SpanningIs(spanning, globals, offsets, LIMIT)
    {
      var g := globals[i];
      var place := Place(g, cursor);
      if place.None? {
        assert Stuck(globals, offsets);
        return Err(i);
      }
      var o := place.value;
      PlaceNext(globals, offsets, spanning, o);
      FirstFitBounds(g, cursor, o);
      if g.size > SPAN { spanning := spanning + [(o, o + g.size)]; }
      offsets := offsets + [o];
      cursor := o + g.size;
    }
    SixteenIsPow2();
    AlignWithinIsLeast(cursor, 16, LIMIT);
    var heapBase := AlignWithin(cursor, 16, LIMIT);
    if heapBase.None? {
      assert Stuck(globals, offsets);
      return Err(|globals|);
    }
    HeapSpans(globals, offsets, spanning, heapBase.value);
    return Ok(Layout(offsets, heapBase.value, spanning + [(heapBase.value, LIMIT)]));
  }

  lemma PlaceNext(globals: seq<Global>, offsets: seq<nat>, spanning: seq<(nat, nat)>, o: nat)
    requires |offsets| < |globals| && Placed(globals, offsets) && SpanningIs(spanning, globals, offsets, LIMIT)
    requires FirstFit(globals[|offsets|], EndBefore(globals, offsets, |offsets|), o)
    ensures var g := globals[|offsets|];
            var after := if g.size > SPAN then spanning + [(o, o + g.size)] else spanning;
            Placed(globals, offsets + [o]) && SpanningIs(after, globals, offsets + [o], LIMIT)
  {
    hide FirstFit, SpanningIs;
    var n, more := |offsets|, offsets + [o];
    forall i: nat | i < |more| ensures PlacedAt(globals, more, i) {
      assert EndBefore(globals, more, i) == EndBefore(globals, offsets, i);
      if i < n { assert PlacedAt(globals, offsets, i); }
    }
    SpanNext(globals, offsets, spanning, o);
  }

  lemma SpanNext(globals: seq<Global>, offsets: seq<nat>, spanning: seq<(nat, nat)>, o: nat)
    requires |offsets| < |globals| && SpanningIs(spanning, globals, offsets, LIMIT)
    ensures var g := globals[|offsets|];
            SpanningIs(if g.size > SPAN then spanning + [(o, o + g.size)] else spanning, globals, offsets + [o], LIMIT)
  {
    hide Wide, Covers;
    var g, more := globals[|offsets|], offsets + [o];
    var after := if g.size > SPAN then spanning + [(o, o + g.size)] else spanning;
    forall a: nat ensures Covers(after, a) <==> Wide(globals, more, a) {
      WidePush(globals, offsets, o, a);
      CoversPush(spanning, (o, o + g.size), a);
    }
  }

  lemma WidePush(globals: seq<Global>, offsets: seq<nat>, o: nat, a: nat)
    requires |offsets| < |globals|
    ensures var g := globals[|offsets|];
            Wide(globals, offsets + [o], a) <==> Wide(globals, offsets, a) || (g.size > SPAN && o <= a < o + g.size)
  {
    var n, more := |offsets|, offsets + [o];
    if Wide(globals, more, a) {
      var i: nat :| i < |more| && globals[i].size > SPAN && Inside(globals, more, i, a);
      if i < n { assert Inside(globals, offsets, i, a); }
    }
    if Wide(globals, offsets, a) {
      var i: nat :| i < n && globals[i].size > SPAN && Inside(globals, offsets, i, a);
      assert Inside(globals, more, i, a);
    }
    if globals[n].size > SPAN && o <= a < o + globals[n].size { assert Inside(globals, more, n, a); }
  }

  lemma CoversPush(spanning: seq<(nat, nat)>, s: (nat, nat), a: nat)
    ensures Covers(spanning + [s], a) <==> Covers(spanning, a) || s.0 <= a < s.1
  {
    var more := spanning + [s];
    assert more[|spanning|] == s && forall i :: 0 <= i < |spanning| ==> more[i] == spanning[i];
  }

  lemma HeapSpans(globals: seq<Global>, offsets: seq<nat>, spanning: seq<(nat, nat)>, heapBase: nat)
    requires |offsets| <= |globals| && SpanningIs(spanning, globals, offsets, LIMIT)
    ensures SpanningIs(spanning + [(heapBase, LIMIT)], globals, offsets, heapBase)
  {
    forall a: nat ensures Covers(spanning + [(heapBase, LIMIT)], a) <==> Covers(spanning, a) || heapBase <= a < LIMIT {
      CoversPush(spanning, (heapBase, LIMIT), a);
    }
  }

  // ----- what the placement gives -----

  /** Globals keep their order, do not overlap, and end before the heap. */
  lemma {:induction false} Ordered(globals: seq<Global>, offsets: seq<nat>, i: nat, j: nat)
    requires Placed(globals, offsets) && i < j <= |offsets|
    ensures PAGE <= offsets[i] && offsets[i] + globals[i].size <= EndBefore(globals, offsets, j)
    decreases i + j
  {
    hide FirstFit;
    assert PlacedAt(globals, offsets, i);
    FirstFitBounds(globals[i], EndBefore(globals, offsets, i), offsets[i]);
    if i > 0 { Ordered(globals, offsets, i - 1, i); }
    if i + 1 < j {
      Ordered(globals, offsets, i, j - 1);
      assert PlacedAt(globals, offsets, j - 1);
      FirstFitBounds(globals[j - 1], EndBefore(globals, offsets, j - 1), offsets[j - 1]);
    }
  }

  /** No address belongs to two globals or to a global and the heap. */
  lemma Disjoint(globals: seq<Global>, l: Layout, i: nat, j: nat, a: nat)
    requires LaidOut(globals, l) && i < j <= |globals| && Inside(globals, l.offsets, i, a)
    ensures a < l.heapBase && (j < |globals| ==> !Inside(globals, l.offsets, j, a))
  {
    Ordered(globals, l.offsets, i, |globals|);
    Ordered(globals, l.offsets, i, j);
    if j < |globals| {
      assert PlacedAt(globals, l.offsets, j);
      FirstFitBounds(globals[j], EndBefore(globals, l.offsets, j), l.offsets[j]);
    }
  }

  // ----- choosing a region at compile time -----

  /** The address computations the trace looks through. */
  datatype Address =
    | Gep(base: Address)
    | Cast(e: Address)
    | Add(a: Address, b: Address)
    | ViewBase
    | Constant(v: nat)
    | Opaque

  const HOPS := 16

  /** The region number a constant base gives, a 32-bit value. */
  function RegionNumber(v: nat): nat { v / SPAN % 0x1_0000_0000 }

  /** The constant base found by following pointer operands, if its region is mapped directly and
      no object wider than a region owns it. */
  function Trace(e: Address, hops: nat, spanning: seq<(nat, nat)>, direct: nat): Option<nat>
    decreases e
  {
    if hops == 0 then None
    else
      match e
      case Gep(p) => Trace(p, hops - 1, spanning, direct)
      case Cast(p) => Trace(p, hops - 1, spanning, direct)
      case Add(a, b) =>
        if a.ViewBase? then Trace(b, hops - 1, spanning, direct)
        else if b.ViewBase? || b.Constant? then Trace(a, hops - 1, spanning, direct)
        else if a.Constant? then Trace(b, hops - 1, spanning, direct)
        else
          var left := Trace(a, HOPS, spanning, direct);
          if left.Some? then left else Trace(b, hops - 1, spanning, direct)
      case ViewBase => None
      case Constant(v) => if Covers(spanning, v) || RegionNumber(v) >= direct then None else Some(v)
      case Opaque => None
  }

  function TraceRegion(e: Address, spanning: seq<(nat, nat)>, direct: nat): Option<nat> {
    var base := Trace(e, HOPS, spanning, direct);
    if base.None? then None else Some(RegionNumber(base.value))
  }

  predicate Mentions(e: Address, v: nat) {
    match e
    case Gep(p) => Mentions(p, v)
    case Cast(p) => Mentions(p, v)
    case Add(a, b) => Mentions(a, v) || Mentions(b, v)
    case ViewBase => false
    case Constant(c) => c == v
    case Opaque => false
  }

  /** A traced base is a constant of the address, in a direct region, and never in the heap or in an
      object wider than a region. */
  lemma {:induction false} TraceIsSound(e: Address, hops: nat, spanning: seq<(nat, nat)>, direct: nat)
    ensures var r := Trace(e, hops, spanning, direct);
            r.Some? ==> Mentions(e, r.value) && !Covers(spanning, r.value) && RegionNumber(r.value) < direct
    decreases e
  {
    hide Covers;
    if hops != 0 {
      match e
      case Gep(p) => TraceIsSound(p, hops - 1, spanning, direct);
      case Cast(p) => TraceIsSound(p, hops - 1, spanning, direct);
      case Add(a, b) =>
        TraceIsSound(a, hops - 1, spanning, direct);
        TraceIsSound(a, HOPS, spanning, direct);
        TraceIsSound(b, hops - 1, spanning, direct);
      case ViewBase =>
      case Constant(v) =>
      case Opaque =>
    }
  }

  /** The base points into global `i` or just past its end, and the access lies inside it. */
  ghost predicate InBounds(globals: seq<Global>, l: Layout, i: nat, base: nat, ptr: nat, w: nat) {
    && LaidOut(globals, l) && i < |globals| && WidthOk(w)
    && l.offsets[i] <= base <= l.offsets[i] + globals[i].size
    && l.offsets[i] <= ptr % DOMAIN && ptr % DOMAIN + w <= l.offsets[i] + globals[i].size
  }

  /** An object wider than a region, or the heap, is traced from no address inside it. */
  lemma WideIsRouted(globals: seq<Global>, l: Layout, e: Address, direct: nat, a: nat)
    requires LaidOut(globals, l)
    requires l.heapBase <= a < LIMIT || Wide(globals, l.offsets, a)
    ensures Trace(e, HOPS, l.spanning, direct) != Some(a)
  {
    TraceIsSound(e, HOPS, l.spanning, direct);
    assert Covers(l.spanning, a);
  }

  /** A traced base strictly inside an object shows that the object lies in one region. */
  lemma TracedIsNarrow(globals: seq<Global>, l: Layout, i: nat, e: Address, direct: nat)
    requires LaidOut(globals, l) && i < |globals| && Trace(e, HOPS, l.spanning, direct).Some?
    requires Inside(globals, l.offsets, i, Trace(e, HOPS, l.spanning, direct).value)
    ensures var o, size := l.offsets[i], globals[i].size; 0 < size <= SPAN && o / SPAN == (o + size - 1) / SPAN
  {
    var base := Trace(e, HOPS, l.spanning, direct).value;
    hide Trace, Covers;
    assert PlacedAt(globals, l.offsets, i);
    if globals[i].size > SPAN {
      assert Wide(globals, l.offsets, base);
      WideIsRouted(globals, l, e, direct, base);
    }
  }

  lemma OneRegion(o: nat, size: nat, base: nat, a: nat)
    requires 0 < size && o / SPAN == (o + size - 1) / SPAN && o <= base <= o + size && o <= a < o + size
    ensures base / SPAN == a / SPAN <==> !(base == o + size && base % SPAN == 0)
  {
  }

  /** Traced from an object's own start, every in-bounds access takes the accessor's region. */
  lemma StartRegionAgrees(globals: seq<Global>, l: Layout, i: nat, e: Address, direct: nat, ptr: nat, w: nat)
    requires LaidOut(globals, l) && i < |globals| && InBounds(globals, l, i, l.offsets[i], ptr, w)
    requires Trace(e, HOPS, l.spanning, direct) == Some(l.offsets[i])
    ensures TraceRegion(e, l.spanning, direct) == Some(RegionOf(ptr)) && RegionOf(ptr) < direct
    ensures RegionOk(ptr, w, TraceRegion(e, l.spanning, direct), direct)
  {
    hide Trace, Covers;
    var o, size, x := l.offsets[i], globals[i].size, ptr % DOMAIN;
    TracedIsNarrow(globals, l, i, e, direct);
    TraceIsSound(e, HOPS, l.spanning, direct);
    PlacedEnd(globals, l, i);
    OneRegion(o, size, o, x);
    forall a: nat | ptr <= a < ptr + w ensures RegionOf(a) == o / SPAN {
      assert a % DOMAIN == x + (a - ptr);
      OneRegion(o, size, o, x + (a - ptr));
    }
  }

  lemma PlacedEnd(globals: seq<Global>, l: Layout, i: nat)
    requires LaidOut(globals, l) && i < |globals|
    ensures l.offsets[i] + globals[i].size <= LIMIT
  {
    assert PlacedAt(globals, l.offsets, i);
    FirstFitBounds(globals[i], EndBefore(globals, l.offsets, i), l.offsets[i]);
  }

  /** The chosen region is right for every in-bounds access exactly when the traced base is not the
      object's end, or is the end of an object no wider than a region that stops inside one. */
  lemma DirectRegionAgrees(globals: seq<Global>, l: Layout, i: nat, e: Address, direct: nat)
    requires LaidOut(globals, l) && i < |globals| && globals[i].size > 0 && Trace(e, HOPS, l.spanning, direct).Some?
    requires l.offsets[i] <= Trace(e, HOPS, l.spanning, direct).value <= l.offsets[i] + globals[i].size
    ensures var base, end := Trace(e, HOPS, l.spanning, direct).value, l.offsets[i] + globals[i].size;
            (forall ptr: nat, w: nat :: InBounds(globals, l, i, base, ptr, w) ==>
                TraceRegion(e, l.spanning, direct) == Some(RegionOf(ptr)))
            <==> base < end || (globals[i].size <= SPAN && base % SPAN != 0)
  {
    var base, o, size := Trace(e, HOPS, l.spanning, direct).value, l.offsets[i], globals[i].size;
    PlacedEnd(globals, l, i);
    SmallNumber(base);
    if base < o + size { TracedIsNarrow(globals, l, i, e, direct); }
    hide Trace, Covers, LaidOut, RegionNumber;
    if base < o + size || (size <= SPAN && base % SPAN != 0) {
      forall ptr: nat, w: nat | InBounds(globals, l, i, base, ptr, w) ensures base / SPAN == RegionOf(ptr) {
        NarrowObject(globals, l, i);
        OneRegion(o, size, base, ptr % DOMAIN);
      }
    } else {
      StartInBounds(globals, l, i);
      EndRegion(o, size);
    }
  }

  lemma SmallNumber(v: nat)
    requires v <= LIMIT
    ensures RegionNumber(v) == v / SPAN
  {
  }

  lemma NarrowObject(globals: seq<Global>, l: Layout, i: nat)
    requires LaidOut(globals, l) && i < |globals|
    ensures 0 < globals[i].size <= SPAN ==> l.offsets[i] / SPAN == (l.offsets[i] + globals[i].size - 1) / SPAN
  {
    assert PlacedAt(globals, l.offsets, i);
  }

  lemma StartInBounds(globals: seq<Global>, l: Layout, i: nat)
    requires LaidOut(globals, l) && i < |globals| && globals[i].size > 0
    ensures InBounds(globals, l, i, l.offsets[i] + globals[i].size, l.offsets[i], 1)
        && RegionOf(l.offsets[i]) == l.offsets[i] / SPAN
  {
    PlacedEnd(globals, l, i);
  }

  lemma EndRegion(o: nat, size: nat)
    requires size > SPAN || (size > 0 && (o + size) % SPAN == 0)
    ensures (o + size) / SPAN != o / SPAN
  {
  }

  /** Two globals, the first ending at a region boundary: a literal address of that end traces to the
      second's region, while an access just before it belongs to the first. */
  lemma EndPointerLeaves()
    ensures var globals, l := [Global(SPAN - PAGE, 8), Global(8, 8)],
        Layout([PAGE, SPAN], SPAN + 16, [(SPAN + 16, LIMIT)]);
            && InBounds(globals, l, 0, SPAN, SPAN - 4, 4)
            && TraceRegion(Gep(Cast(Constant(SPAN))), l.spanning, 2) == Some(1) && RegionOf(SPAN - 4) == 0
  {
    var globals, l := [Global(SPAN - PAGE, 8), Global(8, 8)], Layout([PAGE, SPAN], SPAN + 16, [(SPAN + 16, LIMIT)]);
    assert Placeable(globals[0], PAGE) && Placeable(globals[1], SPAN);
    assert PlacedAt(globals, l.offsets, 0) && PlacedAt(globals, l.offsets, 1);
    assert LeastMultiple(Some(l.heapBase), SPAN + 8, 16, LIMIT);
    assert EndBefore(globals, l.offsets, 2) == SPAN + 8;
    forall a: nat ensures Covers(l.spanning, a) <==> l.heapBase <= a < LIMIT {
      if l.heapBase <= a < LIMIT { assert l.spanning[0].0 <= a < l.spanning[0].1; }
    }
    assert SpanningIs(l.spanning, globals, l.offsets, l.heapBase);
    LiteralTrace(SPAN, l.spanning, 2);
  }

  /** A global wider than a region: a literal address of its end traces to the next global's region. */
  lemma WideEndLeaves()
    ensures var end := PAGE + 2 * SPAN;
            var globals, l := [Global(2 * SPAN, 8), Global(8, 8)],
                Layout([PAGE, end], end + 16, [(PAGE, end), (end + 16, LIMIT)]);
            && InBounds(globals, l, 0, end, PAGE, 4) && end % SPAN != 0
            && TraceRegion(Gep(Cast(Constant(end))), l.spanning, 3) == Some(2) && RegionOf(PAGE) == 0
  {
    var end := PAGE + 2 * SPAN;
    var globals, l := [Global(2 * SPAN, 8), Global(8, 8)],
        Layout([PAGE, end], end + 16, [(PAGE, end), (end + 16, LIMIT)]);
    assert Placeable(globals[0], PAGE) && Placeable(globals[1], end);
    assert PlacedAt(globals, l.offsets, 0) && PlacedAt(globals, l.offsets, 1);
    assert LeastMultiple(Some(l.heapBase), end + 8, 16, LIMIT);
    assert EndBefore(globals, l.offsets, 2) == end + 8;
    forall a: nat ensures Covers(l.spanning, a) <==> l.heapBase <= a < LIMIT || Wide(globals, l.offsets, a) {
      if l.heapBase <= a < LIMIT { assert l.spanning[1].0 <= a < l.spanning[1].1; }
      if PAGE <= a < end { assert l.spanning[0].0 <= a < l.spanning[0].1 && Inside(globals, l.offsets, 0, a); }
    }
    LiteralTrace(end, l.spanning, 3);
  }

  lemma LiteralTrace(v: nat, spanning: seq<(nat, nat)>, direct: nat)
    ensures var unknown := Covers(spanning, v) || RegionNumber(v) >= direct;
            Trace(Gep(Cast(Constant(v))), HOPS, spanning, direct) == if unknown then None else Some(v)
  {
    hide Covers;
    var e := Constant(v);
    assert Trace(Gep(Cast(e)), HOPS, spanning, direct) == Trace(Cast(e), HOPS - 1, spanning, direct);
    assert Trace(Cast(e), HOPS - 1, spanning, direct) == Trace(e, HOPS - 2, spanning, direct);
  }

  // ----- compiled accesses -----

  /** A computation with no constant where a base would be. */
  predicate Unrooted(e: Address) {
    match e
    case Gep(p) => !p.Constant? && Unrooted(p)
    case Cast(p) => !p.Constant? && Unrooted(p)
    case Add(a, b) => !(a.Constant? && b.Constant?) && Unrooted(a) && Unrooted(b)
    case ViewBase => false
    case Constant(_) => true
    case Opaque => true
  }

  /** The pass's address of an object at `o`, window plus offset, then indexed and cast at will. */
  predicate BuiltFrom(e: Address, o: nat) {
    match e
    case Gep(p) => BuiltFrom(p, o)
    case Cast(p) => BuiltFrom(p, o)
    case Add(a, b) => (a.ViewBase? && b == Constant(o)) || (BuiltFrom(a, o) && Unrooted(b))
        || (Unrooted(a) && BuiltFrom(b, o))
    case ViewBase => false
    case Constant(_) => false
    case Opaque => false
  }

  lemma {:induction false} TraceOfUnrooted(e: Address, hops: nat, spanning: seq<(nat, nat)>, direct: nat)
    requires Unrooted(e) && !e.Constant?
    ensures Trace(e, hops, spanning, direct) == None
    decreases e
  {
    if hops != 0 {
      match e
      case Gep(p) => TraceOfUnrooted(p, hops - 1, spanning, direct);
      case Cast(p) => TraceOfUnrooted(p, hops - 1, spanning, direct);
      case Add(a, b) =>
        if !a.Constant? {
          TraceOfUnrooted(a, hops - 1, spanning, direct);
          TraceOfUnrooted(a, HOPS, spanning, direct);
        }
        if !b.Constant? { TraceOfUnrooted(b, hops - 1, spanning, direct); }
      case Opaque =>
    }
  }

  /** The trace of an object's address finds the object's own start, or gives up. */
  lemma {:induction false} TraceOfObject(e: Address, o: nat, hops: nat, spanning: seq<(nat, nat)>, direct: nat)
    requires BuiltFrom(e, o)
    ensures Trace(e, hops, spanning, direct).Some? ==> Trace(e, hops, spanning, direct) == Some(o)
    decreases e
  {
    hide Covers;
    if hops != 0 {
      match e
      case Gep(p) => TraceOfObject(p, o, hops - 1, spanning, direct);
      case Cast(p) => TraceOfObject(p, o, hops - 1, spanning, direct);
      case Add(a, b) =>
        if a.ViewBase? && b == Constant(o) {
        } else if BuiltFrom(a, o) && Unrooted(b) {
          TraceOfObject(a, o, hops - 1, spanning, direct);
          TraceOfObject(a, o, HOPS, spanning, direct);
          if !b.Constant? { TraceOfUnrooted(b, hops - 1, spanning, direct); }
        } else {
          TraceOfObject(b, o, hops - 1, spanning, direct);
          if !a.Constant? { TraceOfUnrooted(a, HOPS, spanning, direct); }
        }
    }
  }

  /** The address of an object at `o`, indexed (true) and cast (false) step by step. */
  function Built(o: nat, steps: seq<bool>): Address {
    if steps == [] then Add(ViewBase, Constant(o))
    else if steps[0] then Gep(Built(o, steps[1..])) else Cast(Built(o, steps[1..]))
  }

  lemma {:induction false} TraceOfBuilt(o: nat, steps: seq<bool>, hops: nat, spanning: seq<(nat, nat)>, direct: nat)
    ensures Trace(Built(o, steps), hops, spanning, direct) ==
            if |steps| + 2 <= hops && !Covers(spanning, o) && RegionNumber(o) < direct then Some(o) else None
    decreases |steps|
  {
    hide Covers;
    if steps == [] {
      assert hops >= 1 ==>
          Trace(Add(ViewBase, Constant(o)), hops, spanning, direct) == Trace(Constant(o), hops - 1, spanning, direct);
    } else if hops > 0 {
      TraceOfBuilt(o, steps[1..], hops - 1, spanning, direct);
    }
  }

  /** An object no wider than a region, in a region mapped directly, is found through up to fourteen
      indexing and casting steps and through no more. */
  lemma NarrowIsTraced(globals: seq<Global>, l: Layout, i: nat, steps: seq<bool>, direct: nat)
    requires LaidOut(globals, l) && i < |globals| && 0 < globals[i].size <= SPAN && l.offsets[i] / SPAN < direct
    ensures TraceRegion(Built(l.offsets[i], steps), l.spanning, direct) ==
            if |steps| <= 14 then Some(l.offsets[i] / SPAN) else None
  {
    var o := l.offsets[i];
    PlacedEnd(globals, l, i);
    SmallNumber(o);
    TraceOfBuilt(o, steps, HOPS, l.spanning, direct);
    assert Inside(globals, l.offsets, i, o);
    Disjoint(globals, l, i, |globals|, o);
    if Wide(globals, l.offsets, o) {
      var j: nat :| j < |globals| && globals[j].size > SPAN && Inside(globals, l.offsets, j, o);
      if i < j { Disjoint(globals, l, i, j, o); } else { Disjoint(globals, l, j, i, o); }
    }
  }

  /** Where a pointer comes from: a global, the heap, or a value the compiler knows nothing about. */
  datatype Origin = Object(i: nat) | Heap | Unknown

  /** A memory instruction before routing, with the computation of its address. */
  datatype Instruction = Instruction(access: Access, address: Address, origin: Origin)

  /** Pointers to a global stay inside it; heap and unknown pointers go anywhere. */
  ghost predicate InstructionOk(globals: seq<Global>, l: Layout, x: Instruction) {
    && LaidOut(globals, l) && x.access.region == None && AccessOk(x.access, 0)
    && match x.origin
       case Object(i) =>
         && i < |globals| && BuiltFrom(x.address, l.offsets[i])
         && l.offsets[i] <= x.access.ptr % DOMAIN
             && x.access.ptr % DOMAIN + x.access.width <= l.offsets[i] + globals[i].size
       case Heap => BuiltFrom(x.address, l.heapBase)
       case Unknown => Unrooted(x.address) && !x.address.Constant?
  }

  /** The routing decision: inline in the traced region, or through the accessor. */
  function Routed(x: Instruction, spanning: seq<(nat, nat)>, direct: nat): Access {
    x.access.(region := TraceRegion(x.address, spanning, direct))
  }

  lemma RoutedOk(globals: seq<Global>, l: Layout, x: Instruction, direct: nat)
    requires InstructionOk(globals, l, x) && direct <= 63
    ensures AccessOk(Routed(x, l.spanning, direct), direct)
  {
    hide Trace, Covers;
    var base := Trace(x.address, HOPS, l.spanning, direct);
    match x.origin {
      case Object(i) =>
        TraceOfObject(x.address, l.offsets[i], HOPS, l.spanning, direct);
        if base.Some? { StartRegionAgrees(globals, l, i, x.address, direct, x.access.ptr, x.access.width); }
      case Heap =>
        TraceOfObject(x.address, l.heapBase, HOPS, l.spanning, direct);
        TraceIsSound(x.address, HOPS, l.spanning, direct);
        if l.heapBase < LIMIT { WideIsRouted(globals, l, x.address, direct, l.heapBase); }
      case Unknown =>
        TraceOfUnrooted(x.address, HOPS, l.spanning, direct);
    }
  }

  function Accesses(program: seq<Instruction>): (r: seq<Access>)
    ensures |r| == |program| && forall k :: 0 <= k < |r| ==> r[k] == program[k].access
  {
    seq(|program|, k requires 0 <= k < |program| => program[k].access)
  }

  lemma {:induction false} RegionsDoNotMatter(mem: seq<Byte>, p: seq<Access>, q: seq<Access>)
    requires |p| == |q| && forall k :: 0 <= k < |p| ==> p[k] == q[k].(region := p[k].region)
    ensures Meaning(mem, p) == Meaning(mem, q)
    decreases |p|
  {
    if p != [] {
      assert p[0] == q[0].(region := p[0].region);
      match p[0] {
        case Load(_, _, _, _) => RegionsDoNotMatter(mem, p[1..], q[1..]);
        case Store(a, w, _, _, v) => RegionsDoNotMatter(Write(mem, a, Bytes(v, w)), p[1..], q[1..]);
      }
    }
  }

  /** Compiled code over a laid-out module: whichever accesses go inline, every program of in-bounds
      global accesses and arbitrary heap and unknown ones does what it does on a flat memory. */
  method RunCompiled(m: Backing, globals: seq<Global>, l: Layout, program: seq<Instruction>) returns (loads: seq<nat>)
    requires m.Valid() && forall k :: 0 <= k < |program| ==> InstructionOk(globals, l, program[k])
    modifies m
    ensures m.Valid() && (loads, m.Memory()) == Meaning(old(m.Memory()), Accesses(program))
  {
    hide InstructionOk, Meaning, AccessOk;
    var routed: seq<Access> := [];
    assert |m.direct| <= 63;
    for k := 0 to |program|
      modifies {}
      invariant |routed| == k && forall j :: 0 <= j < k ==> AccessOk(routed[j], |m.direct|)
      invariant forall j :: 0 <= j < k ==> routed[j] == program[j].access.(region := routed[j].region)
    {
      RoutedOk(globals, l, program[k], |m.direct|);
      routed := routed + [Routed(program[k], l.spanning, |m.direct|)];
    }
    RegionsDoNotMatter(m.Memory(), routed, Accesses(program));
    loads := m.Run(routed);
  }
}
