/** Slot offsets of blocks and branches in a layout, and the planner for cpu=v3 chains. */
module Layout {
  import opened Wrappers
  import opened Machine

  /** The target's branch limits; `v4` has a long unconditional jump. */
  datatype Cpu = Cpu(v4: bool, conditionalSpan: int, v3Span: int, v3Step: int)

  predicate Accepted(cpu: Cpu) {
    cpu.conditionalSpan >= 1 && (cpu.v4 || 1 <= cpu.v3Step < cpu.v3Span)
  }

  function BodySlots(body: seq<Instr>): nat {
    if body == [] then 0 else BodySlots(body[..|body| - 1]) + body[|body| - 1].Slots()
  }

  /** Slots of the first `k` blocks. */
  function OffsetAt(p: Program, k: nat): nat
    requires k <= |p.layout| && forall b :: b in p.layout ==> b in p.code
  {
    if k == 0 then 0 else OffsetAt(p, k - 1) + BodySlots(p.code[p.layout[k - 1]])
  }

  function Offset(p: Program, b: Block): nat
    requires b in p.layout && forall b :: b in p.layout ==> b in p.code
  {
    OffsetAt(p, Pos(p.layout, b))
  }

  /** The offset of a relay placed at a boundary of the current layout. */
  function BoundaryOffset(p: Program, before: Option<Block>): nat
    requires forall b :: b in p.layout ==> b in p.code
  {
    if before.Some? && before.value in p.layout then Offset(p, before.value) else OffsetAt(p, |p.layout|)
  }

  function BranchOffset(p: Program, b: Block, i: nat): nat
    requires LayoutOk(p) && b in p.code && i < |p.code[b]|
  {
    Offset(p, b) + BodySlots(p.code[b][..i])
  }

  /** The encoded displacement: relative to the instruction after the branch. */
  function Span(p: Program, b: Block, i: nat): int
    requires WellFormed(p) && b in p.code && i < |p.code[b]| && p.code[b][i].IsBranch()
  {
    assert TargetsPlaced(p, p.code[b]);
    Offset(p, p.code[b][i].target) - BranchOffset(p, b, i) - 1
  }

  /** The branch must be relayed: a backward or long conditional, or a long v3 jump. */
  predicate Far(p: Program, cpu: Cpu, b: Block, i: nat)
    requires WellFormed(p) && b in p.code && i < |p.code[b]|
  {
    match p.code[b][i]
    case Cond(_, _) => Span(p, b, i) < 0 || Span(p, b, i) > cpu.conditionalSpan
    case Jump(_) => !cpu.v4 && !(-cpu.v3Span <= Span(p, b, i) <= cpu.v3Span)
    case _ => false
  }

  lemma {:induction false} OffsetMonotone(p: Program, j: nat, k: nat)
    requires j <= k <= |p.layout| && forall b :: b in p.layout ==> b in p.code
    ensures OffsetAt(p, j) <= OffsetAt(p, k)
    decreases k - j
  {
    if j < k { OffsetMonotone(p, j, k - 1); }
  }

  // ----- cpu=v3 chains -----

  ghost predicate NonDecreasing(offsets: seq<int>) {
    forall i, j :: 0 <= i <= j < |offsets| ==> offsets[i] <= offsets[j]
  }

  /** The first index whose offset is at least `x`. */
  method LowerBound(offsets: seq<int>, x: int) returns (k: nat)
    requires NonDecreasing(offsets)
    ensures k <= |offsets|
    ensures forall i :: 0 <= i < k ==> offsets[i] < x
    ensures forall i :: k <= i < |offsets| ==> x <= offsets[i]
  {
    k := 0;
    var n := |offsets|;
    while k < n
      invariant 0 <= k <= n <= |offsets|
      invariant forall i :: 0 <= i < k ==> offsets[i] < x
      invariant forall i :: n <= i < |offsets| ==> x <= offsets[i]
    {
      var m := k + (n - k) / 2;
      if offsets[m] < x { k := m + 1; } else { n := m; }
    }
  }

  /** The boundary farthest from `source` within one relay step, if there is one. */
  method RelayBoundary(offsets: seq<int>, source: int, step: int, forward: bool) returns (r: Option<nat>)
    requires NonDecreasing(offsets) && step >= 1
    ensures r.Some? ==> r.value < |offsets|
    ensures r.Some? && forward ==> source < offsets[r.value] <= source + step
                                   && forall i :: 0 <= i < |offsets| && offsets[i] <= source + step ==>
                                       offsets[i] <= offsets[r.value]
    ensures r.Some? && !forward ==> source - step <= offsets[r.value] < source
                                    && forall i :: 0 <= i < |offsets| && source - step <= offsets[i] ==>
                                        offsets[r.value] <= offsets[i]
    ensures r.None? && forward ==> forall i :: 0 <= i < |offsets| ==> !(source < offsets[i] <= source + step)
    ensures r.None? && !forward ==> forall i :: 0 <= i < |offsets| ==> !(source - step <= offsets[i] < source)
  {
    if forward {
      var upper := LowerBound(offsets, source + step + 1);
      if upper == 0 || offsets[upper - 1] <= source { return None; }
      return Some(upper - 1);
    }
    var lower := LowerBound(offsets, source - step);
    if lower == |offsets| || offsets[lower] >= source { return None; }
    return Some(lower);
  }

  /** What a v3 jump at slot `source` can reach: its displacement counts from the slot after it. */
  predicate Reaches(cpu: Cpu, source: int, destination: int) {
    var next := source + 1;
    next - cpu.v3Span <= destination && destination <= next + cpu.v3Span
  }

  /** Strictly closer to the destination, and not past it. */
  predicate Toward(source: int, next: int, destination: int) {
    source < next < destination || destination < next < source
  }

  /** `next` is a relay step from `source` at most, and no boundary on that side is farther within the step. */
  ghost predicate Farthest(p: Program, cpu: Cpu, source: int, next: int)
    requires LayoutOk(p)
  {
    if source < next then
      && next <= source + cpu.v3Step
      && forall k :: 0 <= k < |p.layout| && OffsetAt(p, k) <= source + cpu.v3Step ==> OffsetAt(p, k) <= next
    else
      && source - cpu.v3Step <= next
      && forall k :: 0 <= k < |p.layout| && source - cpu.v3Step <= OffsetAt(p, k) ==> next <= OffsetAt(p, k)
  }

  /** Every hop of the chain, the last one included, can be encoded and approaches the destination, and each
      relay stands as far along as one step goes. */
  ghost predicate ChainOk(p: Program, cpu: Cpu, source: int, destination: int, chain: seq<Option<Block>>)
    requires LayoutOk(p)
    decreases |chain|
  {
    if chain == [] then Reaches(cpu, source, destination)
    else
      var next := BoundaryOffset(p, chain[0]);
      && chain[0].Some? && chain[0].value in p.layout
      && Toward(source, next, destination)
      && Reaches(cpu, source, next) && Farthest(p, cpu, source, next)
      && ChainOk(p, cpu, next, destination, chain[1..])
  }

  /** No block starts within one relay step of `at` on the way to a destination out of range. */
  ghost predicate Stuck(p: Program, cpu: Cpu, at: int, destination: int)
    requires LayoutOk(p)
  {
    && !Reaches(cpu, at, destination)
    && forall k :: 0 <= k <= |p.layout| - 1 ==>
         !Toward(at, OffsetAt(p, k), destination) || !(-cpu.v3Step <= OffsetAt(p, k) - at <= cpu.v3Step)
  }

  lemma {:induction false} ChainExtends(p: Program, cpu: Cpu, source: int, destination: int,
                                        chain: seq<Option<Block>>, at: int, b: Block)
    requires LayoutOk(p) && b in p.layout
    requires ChainPrefix(p, cpu, source, destination, chain, at)
    requires Toward(at, Offset(p, b), destination) && Reaches(cpu, at, Offset(p, b))
    requires Farthest(p, cpu, at, Offset(p, b))
    ensures ChainPrefix(p, cpu, source, destination, chain + [Some(b)], Offset(p, b))
    decreases |chain|
  {
    var longer := chain + [Some(b)];
    if chain != [] {
      ChainExtends(p, cpu, BoundaryOffset(p, chain[0]), destination, chain[1..], at, b);
      assert longer[1..] == chain[1..] + [Some(b)];
    } else {
      assert longer[1..] == [];
    }
  }

  /** The hops so far end at `at`. */
  ghost predicate ChainPrefix(p: Program, cpu: Cpu, source: int, destination: int, chain: seq<Option<Block>>, at: int)
    requires LayoutOk(p)
    decreases |chain|
  {
    if chain == [] then source == at
    else
      var next := BoundaryOffset(p, chain[0]);
      && chain[0].Some? && chain[0].value in p.layout
      && Toward(source, next, destination)
      && Reaches(cpu, source, next) && Farthest(p, cpu, source, next)
      && ChainPrefix(p, cpu, next, destination, chain[1..], at)
  }

  lemma {:induction false} ChainDone(p: Program, cpu: Cpu, source: int, destination: int, chain: seq<Option<Block>>,
                                     at: int)
    requires LayoutOk(p) && ChainPrefix(p, cpu, source, destination, chain, at) && Reaches(cpu, at, destination)
    ensures ChainOk(p, cpu, source, destination, chain)
    decreases |chain|
  {
    if chain != [] {
      ChainDone(p, cpu, BoundaryOffset(p, chain[0]), destination, chain[1..], at);
    }
  }

  /** Where a chain gives up: the position no relay can leave. */
  datatype ChainError = NoBoundary(at: int)

  /** Plan a complete chain in the current layout. It ends for any non-decreasing offsets
      and any step smaller than the span, and every planned hop advances. */
  method PlanChain(p: Program, cpu: Cpu, offsets: seq<int>, source: int, destination: int)
    returns (r: Result<seq<Option<Block>>, ChainError>)
    requires LayoutOk(p) && 1 <= cpu.v3Step < cpu.v3Span
    requires |offsets| == |p.layout| && forall k :: 0 <= k < |offsets| ==> offsets[k] == OffsetAt(p, k)
    ensures r.Ok? ==> ChainOk(p, cpu, source, destination, r.value)
    ensures r.Err? ==>
        Stuck(p, cpu, r.error.at, destination)
        && exists chain :: ChainPrefix(p, cpu, source, destination, chain, r.error.at)
  {
    forall i, j | 0 <= i <= j < |offsets| ensures offsets[i] <= offsets[j] { OffsetMonotone(p, i, j); }
    var chain: seq<Option<Block>> := [];
    var at := source;
    while !(-cpu.v3Span <= destination - at - 1 <= cpu.v3Span)
      invariant ChainPrefix(p, cpu, source, destination, chain, at)
      decreases if at <= destination then destination - at else at - destination
    {
      var forward := destination - at - 1 > 0;
      var before := RelayBoundary(offsets, at, cpu.v3Step, forward);
      if before.None? { return Err(NoBoundary(at)); }
      var b := p.layout[before.value];
      PosIs(p.layout, before.value);
      ChainExtends(p, cpu, source, destination, chain, at, b);
      chain := chain + [Some(b)];
      at := offsets[before.value];
    }
    ChainDone(p, cpu, source, destination, chain, at);
    return Ok(chain);
  }

  /** Relays are never placed before the first block. */
  lemma {:induction false} ChainInterior(p: Program, cpu: Cpu, source: int, destination: int,
                                         chain: seq<Option<Block>>, i: nat)
    requires LayoutOk(p) && ChainOk(p, cpu, source, destination, chain) && i < |chain| && source >= 0
        && destination >= 0
    ensures chain[i].Some? && chain[i].value in p.layout && chain[i].value != p.layout[0]
    decreases i
  {
    if i > 0 {
      ChainInterior(p, cpu, BoundaryOffset(p, chain[0]), destination, chain[1..], i - 1);
    }
  }
}
