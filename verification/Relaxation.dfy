/** Relaxation of a flattened function: rounds of planning and relay insertion until no
    branch is out of range. */
module Relaxation {
  import opened Wrappers
  import opened Machine
  import opened Relays
  import opened Redirects
  import opened Layout

  // ----- what a plan promises -----

  ghost predicate PlannedRequest(p: Program, cpu: Cpu, r: Request)
    requires WellFormed(p)
  {
    && r.block in p.code && r.index < |p.code[r.block]|
    && p.code[r.block][r.index].IsBranch() && p.code[r.block][r.index].target == r.target && r.target in p.layout
    && Far(p, cpu, r.block, r.index)
    && if p.code[r.block][r.index].Cond? then
         && r.boundaries != [] && r.boundaries[0] == LayoutNext(p.layout, r.block)
         && if cpu.v4 then |r.boundaries| == 1
            else ChainOk(p, cpu, BoundaryOffset(p, r.boundaries[0]), Offset(p, r.target), r.boundaries[1..])
       else
         ChainOk(p, cpu, BranchOffset(p, r.block, r.index), Offset(p, r.target), r.boundaries)
  }

  /** The requests are exactly the far branches, once each. */
  ghost predicate Plan(p: Program, cpu: Cpu, requests: seq<Request>)
    requires WellFormed(p)
  {
    && (forall k :: 0 <= k < |requests| ==> PlannedRequest(p, cpu, requests[k]))
    && (forall j, k :: 0 <= j < k < |requests| ==>
          (requests[j].block, requests[j].index) != (requests[k].block, requests[k].index))
    && (forall b, i :: b in p.code && 0 <= i < |p.code[b]| && Far(p, cpu, b, i) ==> Requested(requests, b, i))
  }

  /** From far branch `i` of `b` the farthest relays lead to `at`, from where none leads on to its target. */
  ghost predicate Strands(p: Program, cpu: Cpu, b: Block, i: nat, chain: seq<Option<Block>>, at: int, destination: int)
    requires WellFormed(p)
  {
    && b in p.code && i < |p.code[b]| && p.code[b][i].IsBranch() && Far(p, cpu, b, i)
    && p.code[b][i].target in p.layout && destination == Offset(p, p.code[b][i].target)
    && Stuck(p, cpu, at, destination)
    && var source := if p.code[b][i].Cond? then BoundaryOffset(p, LayoutNext(p.layout, b)) else BranchOffset(p, b, i);
       ChainPrefix(p, cpu, source, destination, chain, at)
  }

  /** Some far branch cannot be relayed. */
  ghost predicate DeadEnd(p: Program, cpu: Cpu, at: int, destination: int)
    requires WellFormed(p)
  {
    exists b, i: nat, chain :: Strands(p, cpu, b, i, chain, at, destination)
  }

  /** One round that found something to relay. */
  ghost predicate Busy(p: Program, cpu: Cpu, requests: seq<Request>, q: Program) {
    WellFormed(p) && requests != [] && Plan(p, cpu, requests) && q == ApplyAll(p, map[], requests).program
  }

  /** `q` is `p` after `n` rounds. */
  ghost predicate RoundsTo(p: Program, cpu: Cpu, n: nat, q: Program) {
    if n == 0 then p == q
    else exists m, requests {:trigger Busy(m, cpu, requests, q)} ::
      RoundsTo(p, cpu, n - 1, m) && Busy(m, cpu, requests, q)
  }

  ghost predicate Requested(requests: seq<Request>, b: Block, i: nat) {
    exists k :: 0 <= k < |requests| && requests[k].block == b && requests[k].index == i
  }

  lemma PlannedIsPending(p: Program, cpu: Cpu, r: Request)
    requires WellFormed(p) && PlannedRequest(p, cpu, r)
    ensures Pending(p, r, p.limit)
  {
    forall i | 0 <= i < |r.boundaries| ensures Interior(p, r.boundaries[i]) {
      var conditional := p.code[r.block][r.index].Cond?;
      if conditional && i == 0 {
        NextIsInterior(p, r.block);
      } else if conditional {
        ChainInterior(p, cpu, BoundaryOffset(p, r.boundaries[0]), Offset(p, r.target), r.boundaries[1..], i - 1);
      } else {
        ChainInterior(p, cpu, BranchOffset(p, r.block, r.index), Offset(p, r.target), r.boundaries, i);
      }
    }
  }

  lemma NextIsInterior(p: Program, b: Block)
    requires LayoutOk(p) && b in p.layout
    ensures Interior(p, LayoutNext(p.layout, b))
  {
  }

  // ----- cpu=v4: rounds end -----

  /** At most one conditional, last or directly before a closing jump. */
  ghost predicate OneConditional(body: seq<Instr>) {
    forall i :: 0 <= i < |body| && body[i].Cond? ==>
      i + 1 == |body| || (i + 2 == |body| && body[|body| - 1].Jump?)
  }

  ghost predicate Simple(p: Program) {
    forall b {:trigger OneConditional(p.code[b])} :: b in p.code ==> OneConditional(p.code[b])
  }

  /** The block's conditional does not target the block laid out next. */
  ghost predicate Unsettled(p: Program, b: Block) {
    b in p.code && exists i ::
        0 <= i < |p.code[b]| && p.code[b][i].Cond? && LayoutNext(p.layout, b) != Some(p.code[b][i].target)
  }

  ghost function UnsettledBlocks(p: Program): set<Block> {
    set b | b in p.code && Unsettled(p, b)
  }

  lemma {:induction false} BodySlotsSplit(body: seq<Instr>, i: nat)
    requires i < |body| && i + 2 >= |body|
    ensures var rest := if i + 1 < |body| then body[i + 1].Slots() else 0;
            BodySlots(body) == BodySlots(body[..i]) + body[i].Slots() + rest
  {
    if i + 1 < |body| {
      assert body[..|body| - 1][..i] == body[..i];
    }
  }

  /** A settled conditional is never relayed again, whatever the span limit. */
  lemma SettledIsNear(p: Program, cpu: Cpu, b: Block, i: nat)
    requires WellFormed(p) && cpu.conditionalSpan >= 1
    requires b in p.code && OneConditional(p.code[b]) && !Unsettled(p, b) && i < |p.code[b]| && p.code[b][i].Cond?
    ensures !Far(p, cpu, b, i)
  {
    var body := p.code[b];
    var k := Pos(p.layout, b);
    assert LayoutNext(p.layout, b) == Some(body[i].target);
    PosIs(p.layout, k + 1);
    BodySlotsSplit(body, i);
    assert Offset(p, body[i].target) == OffsetAt(p, k) + BodySlots(body);
  }

  /** A v4 request: one conditional, relayed directly after its block. */
  ghost predicate Local(p: Program, r: Request, base: Block) {
    && Pending(p, r, base)
    && p.code[r.block][r.index].Cond? && r.boundaries == [LayoutNext(p.layout, r.block)]
    && Unsettled(p, r.block)
  }

  /** No later request of the round can hit an existing island. */
  ghost predicate Unshared(p: Program, islands: Islands, base: Block) {
    && (forall key :: key in islands && key.0.Some? ==> key.0.value in p.layout)
    && (forall key, b :: key in islands && b in p.code && b < base ==> LayoutNext(p.layout, b) != key.0)
  }

  /** The block with its conditional pointed at `relay` and its fallthrough made explicit. */
  function Relayed(p: Program, r: Request, relay: Block): seq<Instr>
    requires r.block in p.code && r.index < |p.code[r.block]| && p.code[r.block][r.index].IsBranch()
  {
    var body := p.code[r.block];
    var next := LayoutNext(p.layout, r.block);
    var closed := if CanFallThrough(body) && next.Some? then body + [Jump(next.value)] else body;
    closed[r.index := body[r.index].To(relay)]
  }

  lemma SeparatedAfter(p: Program, b: Block)
    requires LayoutOk(p) && b in p.layout
    ensures var next := LayoutNext(p.layout, b);
            && Boundary(p, next) == Pos(p.layout, b) + 1
            && Separated(p, next) == if next.Some? then Close(p, b, next.value) else p
  {
    var k := Pos(p.layout, b);
    if k + 1 < |p.layout| {
      PosIs(p.layout, k + 1);
    }
  }

  /** What a local request does to the program. */
  ghost predicate LocalEffect(p: Program, islands: Islands, r: Request, s: Round)
    requires r.block in p.layout && r.block in p.code && r.index < |p.code[r.block]|
        && p.code[r.block][r.index].IsBranch()
  {
    && s.program.code == p.code[p.limit := [Jump(r.target)]][r.block := Relayed(p, r, p.limit)]
    && s.program.layout == p.layout[..Pos(p.layout, r.block) + 1] + [p.limit] + p.layout[Pos(p.layout, r.block) + 1..]
    && s.program.limit == p.limit + 1
    && s.islands == islands[(LayoutNext(p.layout, r.block), r.target) := p.limit]
  }

  lemma LocalApply(p: Program, islands: Islands, r: Request)
    requires LayoutOk(p) && r.block in p.layout && r.index < |p.code[r.block]| && p.code[r.block][r.index].IsBranch()
    requires r.boundaries == [LayoutNext(p.layout, r.block)] && (LayoutNext(p.layout, r.block), r.target) !in islands
    ensures LocalEffect(p, islands, r, Apply(p, islands, r))
  {
    var next := LayoutNext(p.layout, r.block);
    var start := Round(p, islands, r.target);
    assert AddChain(start, r.boundaries[1..]) == start;
    assert AddChain(start, r.boundaries) == AddIsland(start, next);
    SeparatedAfter(p, r.block);
    var q := PlaceRelay(p, next, r.target);
    assert q.code[r.block][r.index] == p.code[r.block][r.index];
    assert q.code[r.block][r.index := p.code[r.block][r.index].To(p.limit)] == Relayed(p, r, p.limit);
  }

  lemma LocalNext(p: Program, islands: Islands, r: Request, s: Round, b: Block)
    requires LayoutOk(p) && r.block in p.layout && r.index < |p.code[r.block]| && p.code[r.block][r.index].IsBranch()
    requires LocalEffect(p, islands, r, s) && b in p.layout
    ensures LayoutNext(s.program.layout, b) == (if b == r.block then Some(p.limit) else LayoutNext(p.layout, b))
    ensures LayoutNext(s.program.layout, p.limit) == LayoutNext(p.layout, r.block)
  {
    var k := Pos(p.layout, r.block);
    InsertedNext(p.layout, k + 1, p.limit, b);
    assert p.layout[k] == r.block;
  }

  lemma RelayedSimple(p: Program, r: Request, relay: Block)
    requires r.block in p.code && r.index < |p.code[r.block]| && p.code[r.block][r.index].Cond?
        && OneConditional(p.code[r.block])
    ensures var body := Relayed(p, r, relay);
            && OneConditional(body)
            && (forall i :: 0 <= i < |body| && body[i].Cond? ==> body[i].target == relay)
  {
    var body := p.code[r.block];
    assert r.index + 1 == |body| || (r.index + 2 == |body| && body[|body| - 1].Jump?);
  }

  lemma LocalOthers(p: Program, islands: Islands, r: Request, s: Round, b: Block)
    requires LayoutOk(p) && r.block in p.layout && r.index < |p.code[r.block]| && p.code[r.block][r.index].IsBranch()
    requires LocalEffect(p, islands, r, s) && b in p.layout && b != r.block
    ensures Unsettled(s.program, b) <==> Unsettled(p, b)
  {
    LocalNext(p, islands, r, s, b);
    assert s.program.code[b] == p.code[b];
  }

  lemma LocalSettled(p: Program, islands: Islands, r: Request, s: Round)
    requires LayoutOk(p) && r.block in p.layout && r.index < |p.code[r.block]| && p.code[r.block][r.index].Cond?
    requires LocalEffect(p, islands, r, s) && OneConditional(p.code[r.block])
    ensures !Unsettled(s.program, r.block) && !Unsettled(s.program, p.limit) && OneConditional(s.program.code[r.block])
  {
    RelayedSimple(p, r, p.limit);
    LocalNext(p, islands, r, s, r.block);
    assert s.program.code[p.limit] == [Jump(r.target)];
  }

  /** Relaying one conditional settles its block and unsettles no other. */
  lemma LocalSettles(p: Program, islands: Islands, r: Request, s: Round)
    requires LayoutOk(p) && Simple(p)
    requires r.block in p.layout && r.index < |p.code[r.block]| && p.code[r.block][r.index].Cond?
    requires LocalEffect(p, islands, r, s)
    ensures Simple(s.program) && UnsettledBlocks(s.program) == UnsettledBlocks(p) - {r.block}
  {
    LocalSettled(p, islands, r, s);
    forall b | b in p.code && b != r.block ensures Unsettled(s.program, b) <==> Unsettled(p, b) {
      LocalOthers(p, islands, r, s, b);
    }
  }

  lemma NextIsPlaced(p: Program, b: Block)
    requires LayoutOk(p)
    ensures LayoutNext(p.layout, b).Some? ==> LayoutNext(p.layout, b).value in p.layout
    ensures LayoutNext(p.layout, b) != Some(p.limit)
  {
    if LayoutNext(p.layout, b).Some? {
      assert p.layout[Pos(p.layout, b) + 1] in p.layout;
    }
  }

  lemma LocalKeepsUnshared(p: Program, islands: Islands, r: Request, s: Round, base: Block)
    requires LayoutOk(p) && Unshared(p, islands, base) && base <= p.limit
    requires r.block in p.layout && r.index < |p.code[r.block]| && p.code[r.block][r.index].IsBranch()
    requires LocalEffect(p, islands, r, s)
    ensures Unshared(s.program, s.islands, base)
  {
    forall key, b | key in s.islands && b in s.program.code && b < base
      ensures LayoutNext(s.program.layout, b) != key.0
    {
      LocalNext(p, islands, r, s, b);
      NextIsPlaced(p, r.block);
      if b != r.block && LayoutNext(p.layout, b) == LayoutNext(p.layout, r.block) {
        NextOnlyOnce(p, b, r.block);
      }
    }
  }

  lemma NextOnlyOnce(p: Program, a: Block, b: Block)
    requires LayoutOk(p) && a in p.layout && b in p.layout && LayoutNext(p.layout, a) == LayoutNext(p.layout, b)
    ensures a == b
  {
  }

  ghost function Blocks(requests: seq<Request>): set<Block> {
    set k | 0 <= k < |requests| :: requests[k].block
  }

  ghost predicate AllLocal(p: Program, requests: seq<Request>, base: Block) {
    && (forall k :: 0 <= k < |requests| ==> Local(p, requests[k], base))
    && (forall j, k :: 0 <= j < k < |requests| ==> requests[j].block != requests[k].block)
  }

  /** The state between two requests of a v4 round. */
  ghost predicate Midround(p: Program, islands: Islands, base: Block) {
    WellFormed(p) && IslandsOk(p, islands, base) && Unshared(p, islands, base) && Simple(p)
  }

  lemma LocalStep(p: Program, islands: Islands, r: Request, base: Block)
    requires Midround(p, islands, base) && Local(p, r, base)
    ensures var s := Apply(p, islands, r);
            && Midround(s.program, s.islands, base)
            && LocalEffect(p, islands, r, s)
            && UnsettledBlocks(s.program) == UnsettledBlocks(p) - {r.block}
            && |s.program.layout| == |p.layout| + 1
  {
    var s := Apply(p, islands, r);
    LocalApply(p, islands, r);
    LocalSettles(p, islands, r, s);
    LocalKeepsUnshared(p, islands, r, s, base);
    ApplyKeeps(p, islands, r, base);
  }

  lemma LocalKeepsLocal(p: Program, islands: Islands, r: Request, other: Request, base: Block)
    requires Midround(p, islands, base) && Local(p, r, base) && Local(p, other, base) && r.block != other.block
    ensures Local(Apply(p, islands, r).program, other, base)
  {
    var s := Apply(p, islands, r);
    LocalStep(p, islands, r, base);
    hide Apply, Unsettled, Simple;
    LocalNext(p, islands, r, s, other.block);
    LocalOthers(p, islands, r, s, other.block);
    ApplyKeepsPending(p, islands, r, other, base);
  }

  lemma LocalKeepsAllLocal(p: Program, islands: Islands, requests: seq<Request>, base: Block)
    requires Midround(p, islands, base) && requests != [] && AllLocal(p, requests, base)
    ensures AllLocal(Apply(p, islands, requests[0]).program, requests[1..], base)
  {
    forall k | 0 < k < |requests| ensures Local(Apply(p, islands, requests[0]).program, requests[k], base) {
      LocalKeepsLocal(p, islands, requests[0], requests[k], base);
    }
  }

  /** A round of local requests settles exactly the requested blocks. */
  lemma {:induction false} LocalRound(p: Program, islands: Islands, requests: seq<Request>, base: Block)
    requires Midround(p, islands, base) && AllLocal(p, requests, base)
    ensures var q := ApplyAll(p, islands, requests).program;
            && Simple(q) && UnsettledBlocks(q) == UnsettledBlocks(p) - Blocks(requests)
            && |q.layout| == |p.layout| + |requests|
    decreases |requests|
  {
    if requests != [] {
      hide Midround, Local, Apply, UnsettledBlocks, Simple;
      var s := Apply(p, islands, requests[0]);
      assert Local(p, requests[0], base);
      LocalStep(p, islands, requests[0], base);
      LocalKeepsAllLocal(p, islands, requests, base);
      LocalRound(s.program, s.islands, requests[1..], base);
      BlocksCons(requests);
    }
  }

  lemma BlocksCons(requests: seq<Request>)
    requires requests != []
    ensures Blocks(requests) == {requests[0].block} + Blocks(requests[1..])
  {
    var tail := requests[1..];
    forall b | b in Blocks(requests) ensures b in {requests[0].block} + Blocks(tail) {
      var k :| 0 <= k < |requests| && requests[k].block == b;
      if k > 0 { assert tail[k - 1].block == b; }
    }
    forall b | b in Blocks(tail) ensures b in Blocks(requests) {
      var k :| 0 <= k < |tail| && tail[k].block == b;
      assert requests[k + 1].block == b;
    }
  }

  lemma PlannedIsLocal(p: Program, cpu: Cpu, r: Request)
    requires WellFormed(p) && Simple(p) && cpu.v4 && cpu.conditionalSpan >= 1 && PlannedRequest(p, cpu, r)
    ensures Local(p, r, p.limit)
  {
    PlannedIsPending(p, cpu, r);
    assert OneConditional(p.code[r.block]);
    if !Unsettled(p, r.block) {
      SettledIsNear(p, cpu, r.block, r.index);
    }
  }

  /** On cpu=v4 a round with requests strictly shrinks the set of unsettled blocks. */
  lemma V4RoundShrinks(p: Program, cpu: Cpu, requests: seq<Request>)
    requires WellFormed(p) && Simple(p) && cpu.v4 && cpu.conditionalSpan >= 1 && Plan(p, cpu, requests)
    ensures var q := ApplyAll(p, map[], requests).program;
            && Simple(q) && UnsettledBlocks(q) == UnsettledBlocks(p) - Blocks(requests)
            && Blocks(requests) <= UnsettledBlocks(p) && |Blocks(requests)| == |requests|
            && |q.layout| == |p.layout| + |requests|
  {
    PlannedAreLocal(p, cpu, requests);
    LocalRound(p, map[], requests, p.limit);
    BlocksCount(requests);
    forall k | 0 <= k < |requests| ensures requests[k].block in UnsettledBlocks(p) {
      assert Local(p, requests[k], p.limit);
    }
  }

  lemma PlannedAreLocal(p: Program, cpu: Cpu, requests: seq<Request>)
    requires WellFormed(p) && Simple(p) && cpu.v4 && cpu.conditionalSpan >= 1 && Plan(p, cpu, requests)
    ensures AllLocal(p, requests, p.limit) && Midround(p, map[], p.limit)
  {
    forall k | 0 <= k < |requests| ensures Local(p, requests[k], p.limit) {
      PlannedIsLocal(p, cpu, requests[k]);
    }
    forall j, k | 0 <= j < k < |requests| ensures requests[j].block != requests[k].block {
      assert Local(p, requests[j], p.limit) && Local(p, requests[k], p.limit);
      assert OneConditional(p.code[requests[j].block]);
    }
  }

  lemma {:induction false} BlocksCount(requests: seq<Request>)
    requires forall j, k :: 0 <= j < k < |requests| ==> requests[j].block != requests[k].block
    ensures |Blocks(requests)| == |requests|
  {
    if requests != [] {
      BlocksCount(requests[1..]);
      BlocksCons(requests);
      forall k | 0 <= k < |requests[1..]| ensures requests[1..][k].block != requests[0].block {
        assert requests[1..][k] == requests[k + 1];
      }
    }
  }

  // ----- the pass, on a function updated in place -----

  datatype Failure = BadOptions | NoRelayBoundary(at: int, destination: int)

  class MachineFunction {
    var layout: seq<Block>
    var code: map<Block, seq<Instr>>
    var entries: map<nat, Block>
    var limit: Block

    constructor (p: Program)
      ensures Value() == p
    {
      layout, code, entries, limit := p.layout, p.code, p.entries, p.limit;
    }

    function Value(): Program
      reads this
    {
      Program(layout, code, entries, limit)
    }

    /** Insert a relay to `next` before the boundary, closing the fallthrough it splits. */
    method InsertRelay(before: Option<Block>, next: Block) returns (relay: Block)
      requires LayoutOk(Value())
      modifies this
      ensures Value() == PlaceRelay(old(Value()), before, next) && relay == old(limit)
    {
      var at := |layout|;
      if before.Some? && before.value in layout {
        at := Pos(layout, before.value);
        if at > 0 {
          var previous := layout[at - 1];
          if CanFallThrough(code[previous]) {
            code := code[previous := code[previous] + [Jump(before.value)]];
          }
        }
      }
      assert Value() == Separated(old(Value()), before);
      relay := limit;
      layout := layout[..at] + [relay] + layout[at..];
      code := code[relay := [Jump(next)]];
      limit := limit + 1;
    }

    /** Build one request's chain from the target back to the source and point the branch at it. */
    method ApplyRequest(r: Request, islands: Islands, ghost base: Block) returns (grown: Islands)
      requires WellFormed(Value()) && IslandsOk(Value(), islands, base) && Pending(Value(), r, base)
      requires IslandsPlaced(Value(), islands, base)
      modifies this
      ensures Redirected(Value(), r, base) && IslandsPlaced(Value(), grown, base)
      ensures Value() == Apply(old(Value()), islands, r).program && grown == Apply(old(Value()), islands, r).islands
    {
      ghost var start := Round(Value(), islands, r.target);
      hide Redirected, IslandsPlaced;
      ChainKeeps(Value(), islands, r, base);
      assert TargetsPlaced(Value(), code[r.block]);
      grown := islands;
      var next := r.target;
      var j := |r.boundaries|;
      while j > 0
        invariant 0 <= j <= |r.boundaries|
        invariant Round(Value(), grown, next) == AddChain(start, r.boundaries[j..])
      {
        j := j - 1;
        assert r.boundaries[j..][1..] == r.boundaries[j + 1..];
        AddChainKeeps(start, r.boundaries[j + 1..], base);
        var key := (r.boundaries[j], next);
        if key in grown {
          next := grown[key];
        } else {
          var relay := InsertRelay(r.boundaries[j], next);
          grown := grown[key := relay];
          next := relay;
        }
      }
      assert r.boundaries[0..] == r.boundaries;
      code := code[r.block := code[r.block][r.index := code[r.block][r.index].To(next)]];
      ApplyRedirects(old(Value()), islands, r, base);
    }

    /** Apply one round's requests in order, sharing islands between them. */
    method ApplyRequests(requests: seq<Request>)
      requires WellFormed(Value()) && AllPending(Value(), requests, limit)
      modifies this
      ensures Value() == ApplyAll(old(Value()), map[], requests).program
      ensures WellFormed(Value()) && Equivalent(old(Value()), Value())
      ensures forall i :: 0 <= i < |requests| ==> Redirected(Value(), requests[i], old(limit))
      ensures NoTwins(Value(), old(limit))
    {
      ghost var start, base := Value(), limit;
      StartsOld(start, requests);
      RoundInterns(start, map[], requests, base);
      RoundKeepsMeaning(start, map[], requests, base);
      assert IslandsPlaced(start, map[], base);
      forall i | 0 <= i < |requests| ensures Redirected(ApplyAll(start, map[], requests).program, requests[i], base) {
        RoundRedirects(start, map[], requests, base, i);
      }
      hide Redirected, NoTwins;
      var islands: Islands := map[];
      var k := 0;
      while k < |requests|
        invariant 0 <= k <= |requests|
        invariant WellFormed(Value()) && IslandsOk(Value(), islands, base) && AllPending(Value(), requests[k..], base)
        invariant IslandsPlaced(Value(), islands, base)
        invariant ApplyAll(start, map[], requests) == ApplyAll(Value(), islands, requests[k..])
      {
        assert requests[k..][0] == requests[k] && requests[k..][1..] == requests[k + 1..];
        NextPending(Value(), islands, requests[k..], base);
        islands := ApplyRequest(requests[k], islands, base);
        k := k + 1;
      }
    }

    /** Offsets of the blocks in layout order, and the offset of the end. */
    method MeasureBlocks() returns (offsets: seq<int>, end: int)
      requires forall b :: b in layout ==> b in code
      ensures |offsets| == |layout| && end == OffsetAt(Value(), |layout|)
      ensures forall k :: 0 <= k < |offsets| ==> offsets[k] == OffsetAt(Value(), k)
    {
      offsets, end := [], 0;
      ghost var p := Value();
      OffsetStart(p);
      hide OffsetAt;
      for k := 0 to |layout|
        invariant |offsets| == k && end == OffsetAt(p, k)
        invariant forall j :: 0 <= j < k ==> offsets[j] == OffsetAt(p, j)
      {
        offsets := offsets + [end];
        OffsetStep(p, k);
        var slots := MeasureBody(code[layout[k]]);
        end := end + slots;
      }
    }

    /** The relay chain for one branch at slot `source`, or nothing if it is in range. */
    method PlanBranch(cpu: Cpu, offsets: seq<int>, end: int, b: Block, i: nat, source: int)
      returns (r: Result<Option<Request>, Failure>)
      requires WellFormed(Value()) && Accepted(cpu)
      requires |offsets| == |layout| && end == OffsetAt(Value(), |layout|)
      requires forall k :: 0 <= k < |offsets| ==> offsets[k] == OffsetAt(Value(), k)
      requires b in code && i < |code[b]| && source == BranchOffset(Value(), b, i)
      ensures r == Ok(None) <==> !Far(Value(), cpu, b, i)
      ensures r.Ok? && r.value.Some? ==>
          PlannedRequest(Value(), cpu, r.value.value) && r.value.value.block == b && r.value.value.index == i
      ensures r.Err? ==> !cpu.v4 && r.error.NoRelayBoundary? && DeadEnd(Value(), cpu, r.error.at, r.error.destination)
    {
      var branch := code[b][i];
      if !branch.IsBranch() || (cpu.v4 && branch.Jump?) { return Ok(None); }
      var target := branch.target;
      assert TargetsPlaced(Value(), code[b]);
      var destination := offsets[Pos(layout, target)];
      var span := destination - source - 1;
      assert span == Span(Value(), b, i);
      var limit := if branch.Cond? then cpu.conditionalSpan else cpu.v3Span;
      if -limit <= span <= limit && !(branch.Cond? && span < 0) { return Ok(None); }
      var boundaries: seq<Option<Block>> := [];
      var start := source;
      if branch.Cond? {
        var before := LayoutNext(layout, b);
        NextIsInterior(Value(), b);
        boundaries := [before];
        if cpu.v4 { return Ok(Some(Request(b, i, target, boundaries))); }
        start := if before.Some? then offsets[Pos(layout, before.value)] else end;
      }
      var chain := PlanChain(Value(), cpu, offsets, start, destination);
      if chain.Err? {
        ghost var hops :| ChainPrefix(Value(), cpu, start, destination, hops, chain.error.at);
        assert Strands(Value(), cpu, b, i, hops, chain.error.at, destination);
        return Err(NoRelayBoundary(chain.error.at, destination));
      }
      assert branch.Cond? ==> (boundaries + chain.value)[1..] == chain.value;
      assert branch.Jump? ==> boundaries + chain.value == chain.value;
      return Ok(Some(Request(b, i, target, boundaries + chain.value)));
    }

    /** The far branches of one block with their chains. */
    method PlanBlock(cpu: Cpu, offsets: seq<int>, end: int, b: Block) returns (r: Result<seq<Request>, Failure>)
      requires WellFormed(Value()) && Accepted(cpu) && b in code
      requires |offsets| == |layout| && end == OffsetAt(Value(), |layout|)
      requires forall k :: 0 <= k < |offsets| ==> offsets[k] == OffsetAt(Value(), k)
      ensures r.Ok? ==> BlockPlan(Value(), cpu, b, |code[b]|, r.value)
      ensures r.Err? ==> !cpu.v4 && r.error.NoRelayBoundary? && DeadEnd(Value(), cpu, r.error.at, r.error.destination)
    {
      var requests: seq<Request> := [];
      var source := offsets[Pos(layout, b)];
      ghost var p := Value();
      hide PlannedRequest, Far, Requested, BlockPlan, WellFormed;
      BlockPlanEmpty(p, cpu, b);
      for i := 0 to |code[b]|
        invariant source == Offset(p, b) + BodySlots(code[b][..i])
        invariant BlockPlan(p, cpu, b, i, requests)
      {
        assert code[b][..i + 1][..i] == code[b][..i];
        var planned := PlanBranch(cpu, offsets, end, b, i, source);
        if planned.Err? { return Err(planned.error); }
        BlockPlanGrows(p, cpu, b, i, requests, planned.value);
        if planned.value.Some? {
          requests := requests + [planned.value.value];
        }
        source := source + code[b][i].Slots();
      }
      return Ok(requests);
    }

    /** All far branches of the current layout with their chains. */
    method PlanRequests(cpu: Cpu) returns (r: Result<seq<Request>, Failure>)
      requires WellFormed(Value()) && Accepted(cpu)
      ensures r.Ok? ==> Plan(Value(), cpu, r.value)
      ensures r.Err? ==> !cpu.v4 && r.error.NoRelayBoundary? && DeadEnd(Value(), cpu, r.error.at, r.error.destination)
    {
      var offsets, end := MeasureBlocks();
      var requests: seq<Request> := [];
      for k := 0 to |layout|
        invariant PrefixPlan(Value(), cpu, k, requests)
      {
        var planned := PlanBlock(cpu, offsets, end, layout[k]);
        if planned.Err? { return Err(planned.error); }
        PrefixPlanGrows(Value(), cpu, k, requests, planned.value);
        requests := requests + planned.value;
      }
      PrefixPlanDone(Value(), cpu, requests);
      return Ok(requests);
    }

    /** One round: plan, then apply. */
    method RelaxRound(cpu: Cpu) returns (r: Result<seq<Request>, Failure>)
      requires WellFormed(Value()) && Accepted(cpu)
      modifies this
      ensures WellFormed(Value()) && Equivalent(old(Value()), Value())
      ensures r.Ok? ==> Plan(old(Value()), cpu, r.value) && Value() == ApplyAll(old(Value()), map[], r.value).program
      ensures r.Ok? ==> forall i :: 0 <= i < |r.value| ==> Redirected(Value(), r.value[i], old(limit))
      ensures r.Ok? ==> NoTwins(Value(), old(limit))
      ensures r.Err? ==>
                Value() == old(Value()) && !cpu.v4 && r.error.NoRelayBoundary?
                && DeadEnd(Value(), cpu, r.error.at, r.error.destination)
    {
      r := PlanRequests(cpu);
      if r.Ok? {
        PlannedArePending(Value(), cpu, r.value);
        ApplyRequests(r.value);
      }
    }

    /** cpu=v4: rounds run until no branch is far, and always end. */
    method RelaxV4(cpu: Cpu) returns (r: Result<nat, Failure>)
      requires WellFormed(Value()) && Simple(Value()) && cpu.v4
      modifies this
      ensures r.Ok? <==> cpu.conditionalSpan >= 1
      ensures WellFormed(Value()) && Simple(Value()) && Equivalent(old(Value()), Value())
      ensures r.Ok? ==> Relaxed(Value(), cpu)
      ensures r.Ok? ==> |layout| == |old(layout)| + r.value
      ensures r.Ok? ==> UnsettledBlocks(Value()) <= UnsettledBlocks(old(Value()))
                        && r.value == |UnsettledBlocks(old(Value()))| - |UnsettledBlocks(Value())|
    {
      if cpu.conditionalSpan < 1 { return Err(BadOptions); }
      var relays := 0;
      ghost var start := Value();
      while true
        invariant WellFormed(Value()) && Simple(Value()) && Equivalent(start, Value())
        invariant |layout| == |start.layout| + relays
        invariant UnsettledBlocks(Value()) <= UnsettledBlocks(start)
        invariant relays == |UnsettledBlocks(start)| - |UnsettledBlocks(Value())|
        decreases |UnsettledBlocks(Value())|
      {
        ghost var p := Value();
        var round := RelaxRound(cpu);
        EquivalentTransitive(start, p, Value());
        V4RoundShrinks(p, cpu, round.value);
        if round.value == [] {
          EmptyPlanRelaxed(p, cpu);
          return Ok(relays);
        }
        relays := relays + |round.value|;
      }
    }

    /** Either target, up to `rounds` rounds; the flag says whether the last round found nothing far. */
    method RelaxRounds(cpu: Cpu, rounds: nat) returns (r: Result<bool, Failure>)
      requires WellFormed(Value())
      modifies this
      ensures WellFormed(Value()) && Equivalent(old(Value()), Value())
      ensures r == Err(BadOptions) <==>
                cpu.conditionalSpan < 1 || (!cpu.v4 && (cpu.v3Step < 1 || cpu.v3Span <= cpu.v3Step))
      ensures r == Err(BadOptions) ==> Value() == old(Value())
      ensures r == Ok(false) ==> RoundsTo(old(Value()), cpu, rounds, Value())
      ensures r == Ok(true) ==>
                Relaxed(Value(), cpu) && exists k :: 0 <= k < rounds && RoundsTo(old(Value()), cpu, k, Value())
      ensures r.Err? && r.error.NoRelayBoundary? ==>
                && !cpu.v4 && DeadEnd(Value(), cpu, r.error.at, r.error.destination)
                && exists k :: 0 <= k < rounds && RoundsTo(old(Value()), cpu, k, Value())
    {
      if !Accepted(cpu) { return Err(BadOptions); }
      ghost var start := Value();
      for k := 0 to rounds
        invariant WellFormed(Value()) && Equivalent(start, Value()) && RoundsTo(start, cpu, k, Value())
      {
        ghost var p := Value();
        var round := RelaxRound(cpu);
        EquivalentTransitive(start, p, Value());
        assert round.Ok? && round.value != [] ==> Busy(p, cpu, round.value, Value());
        hide Busy, DeadEnd, Plan, WellFormed, Equivalent;
        if round.Err? { return Err(round.error); }
        if round.value == [] {
          EmptyPlanRelaxed(p, cpu);
          return Ok(true);
        }
      }
      return Ok(false);
    }
  }

  /** No conditional is backward or too long; on v3 no jump is out of range. */
  ghost predicate Relaxed(p: Program, cpu: Cpu)
    requires WellFormed(p)
  {
    && (forall b, i :: b in p.code && 0 <= i < |p.code[b]| && p.code[b][i].Cond? ==>
        0 <= Span(p, b, i) <= cpu.conditionalSpan)
    && (!cpu.v4 ==> forall b, i :: b in p.code && 0 <= i < |p.code[b]| && p.code[b][i].Jump? ==>
        -cpu.v3Span <= Span(p, b, i) <= cpu.v3Span)
  }

  lemma EmptyPlanRelaxed(p: Program, cpu: Cpu)
    requires WellFormed(p) && Plan(p, cpu, [])
    ensures Relaxed(p, cpu)
  {
    forall b, i | b in p.code && 0 <= i < |p.code[b]| && p.code[b][i].IsBranch() ensures !Far(p, cpu, b, i) {
      assert !Requested([], b, i);
    }
  }

  lemma PlannedArePending(p: Program, cpu: Cpu, requests: seq<Request>)
    requires WellFormed(p) && Plan(p, cpu, requests)
    ensures AllPending(p, requests, p.limit)
  {
    forall k | 0 <= k < |requests| ensures Pending(p, requests[k], p.limit) {
      PlannedIsPending(p, cpu, requests[k]);
    }
  }

  lemma OffsetStart(p: Program)
    requires forall b :: b in p.layout ==> b in p.code
    ensures OffsetAt(p, 0) == 0
  {
  }

  lemma OffsetStep(p: Program, k: nat)
    requires k < |p.layout| && forall b :: b in p.layout ==> b in p.code
    ensures OffsetAt(p, k + 1) == OffsetAt(p, k) + BodySlots(p.code[p.layout[k]])
  {
  }

  method MeasureBody(body: seq<Instr>) returns (slots: nat)
    ensures slots == BodySlots(body)
  {
    slots := 0;
    for i := 0 to |body|
      invariant slots == BodySlots(body[..i])
    {
      assert body[..i + 1][..i] == body[..i];
      slots := slots + body[i].Slots();
    }
    assert body[..|body|] == body;
  }

  ghost predicate DistinctBranches(requests: seq<Request>) {
    forall j, k :: 0 <= j < k < |requests| ==>
      (requests[j].block, requests[j].index) != (requests[k].block, requests[k].index)
  }

  /** The requests of the first `n` instructions of block `b`. */
  ghost predicate BlockPlan(p: Program, cpu: Cpu, b: Block, n: nat, requests: seq<Request>)
    requires WellFormed(p) && b in p.code && n <= |p.code[b]|
  {
    && (forall k :: 0 <= k < |requests| ==>
        PlannedRequest(p, cpu, requests[k]) && requests[k].block == b && requests[k].index < n)
    && DistinctBranches(requests)
    && (forall i :: 0 <= i < n && Far(p, cpu, b, i) ==> Requested(requests, b, i))
  }

  lemma BlockPlanEmpty(p: Program, cpu: Cpu, b: Block)
    requires WellFormed(p) && b in p.code
    ensures BlockPlan(p, cpu, b, 0, [])
  {
  }

  lemma BlockPlanGrows(p: Program, cpu: Cpu, b: Block, i: nat, requests: seq<Request>, planned: Option<Request>)
    requires WellFormed(p) && b in p.code && i < |p.code[b]| && BlockPlan(p, cpu, b, i, requests)
    requires planned.None? ==> !Far(p, cpu, b, i)
    requires planned.Some? ==>
        PlannedRequest(p, cpu, planned.value) && planned.value.block == b && planned.value.index == i
    ensures BlockPlan(p, cpu, b, i + 1, if planned.Some? then requests + [planned.value] else requests)
  {
    hide PlannedRequest, Far, WellFormed, Requested;
    if planned.Some? {
      RequestedAppend(requests, [planned.value]);
      assert [planned.value][0] == planned.value;
    }
  }

  /** The requests of the first `n` blocks. */
  ghost predicate PrefixPlan(p: Program, cpu: Cpu, n: nat, requests: seq<Request>)
    requires WellFormed(p) && n <= |p.layout|
  {
    && (forall k :: 0 <= k < |requests| ==> PlannedRequest(p, cpu, requests[k]) && requests[k].block in p.layout[..n])
    && DistinctBranches(requests)
    && (forall b, i :: b in p.layout[..n] && 0 <= i < |p.code[b]| && Far(p, cpu, b, i) ==> Requested(requests, b, i))
  }

  lemma PrefixPlanGrows(p: Program, cpu: Cpu, n: nat, requests: seq<Request>, more: seq<Request>)
    requires WellFormed(p) && n < |p.layout| && PrefixPlan(p, cpu, n, requests)
    requires BlockPlan(p, cpu, p.layout[n], |p.code[p.layout[n]]|, more)
    ensures PrefixPlan(p, cpu, n + 1, requests + more)
  {
    var all := requests + more;
    assert p.layout[..n + 1] == p.layout[..n] + [p.layout[n]];
    RequestedAppend(requests, more);
    hide PlannedRequest, Far, WellFormed, Requested;
    forall j, k | 0 <= j < k < |all| ensures (all[j].block, all[j].index) != (all[k].block, all[k].index) {
      if j < |requests| <= k {
        assert all[j] == requests[j] && all[k] == more[k - |requests|];
      } else if |requests| <= j {
        assert all[j] == more[j - |requests|] && all[k] == more[k - |requests|];
      }
    }
  }

  lemma PrefixPlanDone(p: Program, cpu: Cpu, requests: seq<Request>)
    requires WellFormed(p) && PrefixPlan(p, cpu, |p.layout|, requests)
    ensures Plan(p, cpu, requests)
  {
    hide PlannedRequest, Far, Requested;
    assert p.layout[..|p.layout|] == p.layout;
  }

  lemma RequestedAppend(requests: seq<Request>, more: seq<Request>)
    ensures forall b, i: nat :: Requested(requests, b, i) || Requested(more, b, i) ==> Requested(requests + more, b, i)
    ensures forall k :: 0 <= k < |more| ==> Requested(requests + more, more[k].block, more[k].index)
  {
    forall b, i: nat | Requested(requests, b, i) || Requested(more, b, i) ensures Requested(requests + more, b, i) {
      if Requested(requests, b, i) {
        var k :| 0 <= k < |requests| && requests[k].block == b && requests[k].index == i;
        assert (requests + more)[k] == requests[k];
      } else {
        var k :| 0 <= k < |more| && more[k].block == b && more[k].index == i;
        assert (requests + more)[|requests| + k] == more[k];
      }
    }
    forall k | 0 <= k < |more| ensures Requested(requests + more, more[k].block, more[k].index) {
      assert (requests + more)[|requests| + k] == more[k];
    }
  }
}
