/** Branch relays: the three edits that relaxation makes to a flattened function, and
    the interned chains of relay blocks built from them. */
module Relays {
  import opened Wrappers
  import opened Machine

  // ----- the three edits -----

  /** Make the fallthrough from `b` to its layout successor `next` an explicit jump. */
  function Close(p: Program, b: Block, next: Block): Program {
    if b in p.code && CanFallThrough(p.code[b]) then p.(code := p.code[b := p.code[b] + [Jump(next)]]) else p
  }

  /** Where a relay goes: directly before `before`, or at the end. */
  function Boundary(p: Program, before: Option<Block>): (at: nat)
    ensures at <= |p.layout|
  {
    if before.Some? && before.value in p.layout then Pos(p.layout, before.value) else |p.layout|
  }

  /** A new block at layout index `at` that only jumps to `next`. */
  function Inserted(p: Program, at: nat, next: Block): Program
    requires at <= |p.layout|
  {
    Program(p.layout[..at] + [p.limit] + p.layout[at..], p.code[p.limit := [Jump(next)]], p.entries, p.limit + 1)
  }

  /** The program in which the block before the insertion point no longer falls through. */
  function Separated(p: Program, before: Option<Block>): (q: Program)
    ensures q.layout == p.layout && q.limit == p.limit
  {
    var at := Boundary(p, before);
    if before.Some? && before.value in p.layout && at > 0 then Close(p, p.layout[at - 1], before.value) else p
  }

  function PlaceRelay(p: Program, before: Option<Block>, next: Block): Program
  {
    Inserted(Separated(p, before), Boundary(p, before), next)
  }

  function Retarget(p: Program, b: Block, i: nat, target: Block): Program
    requires b in p.code && i < |p.code[b]| && p.code[b][i].IsBranch()
  {
    p.(code := p.code[b := p.code[b][i := p.code[b][i].To(target)]])
  }

  // ----- each edit preserves meaning -----

  lemma CloseWellFormed(p: Program, b: Block, next: Block)
    requires WellFormed(p) && b in p.code && next in p.code
    ensures WellFormed(Close(p, b, next)) && !CanFallThrough(Close(p, b, next).code[b])
  {
    var q := Close(p, b, next);
    forall x | x in q.code ensures TargetsPlaced(q, q.code[x]) {
      assert TargetsPlaced(p, p.code[x]);
    }
  }

  lemma CloseKeeps(p: Program, b: Block, next: Block)
    requires WellFormed(p) && b in p.code && LayoutNext(p.layout, b) == Some(next)
    ensures WellFormed(Close(p, b, next)) && Equivalent(p, Close(p, b, next))
    ensures !CanFallThrough(Close(p, b, next).code[b])
  {
    var q := Close(p, b, next);
    CloseWellFormed(p, b, next);
    forall c: Config, taken: bool | Known(p, c) ensures Matches(p, q, c, taken) {
      SameStepMatches(p, q, c, taken);
    }
    SimulationIsEquivalence(p, q);
  }

  /** Insertion moves no block's successor except the one before the insertion point. */
  lemma InsertedNext(layout: seq<Block>, at: nat, r: Block, b: Block)
    requires Unique(layout) && r !in layout && at <= |layout| && b in layout
    ensures var s := layout[..at] + [r] + layout[at..];
            && Unique(s) && b in s
            && (LayoutNext(s, b) == if at > 0 && b == layout[at - 1] then Some(r) else LayoutNext(layout, b))
            && (LayoutNext(s, r) == if at < |layout| then Some(layout[at]) else None)
  {
    var s := layout[..at] + [r] + layout[at..];
    var i := Pos(layout, b);
    assert s[if i < at then i else i + 1] == b;
    assert s[at] == r;
    PosIs(s, if i < at then i else i + 1);
    PosIs(s, at);
  }

  lemma InsertedMembers(layout: seq<Block>, at: nat, r: Block)
    requires at <= |layout|
    ensures forall x :: x in layout[..at] + [r] + layout[at..] <==> x in layout || x == r
  {
    assert layout == layout[..at] + layout[at..];
  }

  lemma InsertCodeOk(p: Program, at: nat, next: Block)
    requires LayoutOk(p) && CodeOk(p) && at <= |p.layout| && next in p.code
    ensures CodeOk(Inserted(p, at, next))
  {
    var q := Inserted(p, at, next);
    forall x | x in q.code ensures TargetsPlaced(q, q.code[x]) {
      if x in p.code { assert TargetsPlaced(p, p.code[x]); }
    }
  }

  lemma InsertLayoutOk(p: Program, at: nat, next: Block)
    requires LayoutOk(p) && at <= |p.layout|
    ensures LayoutOk(Inserted(p, at, next))
  {
    InsertedNext(p.layout, at, p.limit, p.layout[0]);
    InsertedMembers(p.layout, at, p.limit);
  }

  lemma InsertWellFormed(p: Program, at: nat, next: Block)
    requires WellFormed(p) && 0 < at <= |p.layout| && next in p.code
    ensures WellFormed(Inserted(p, at, next)) && Start(p) == Start(Inserted(p, at, next))
  {
    var q := Inserted(p, at, next);
    InsertCodeOk(p, at, next);
    InsertLayoutOk(p, at, next);
    assert q.layout[|q.layout| - 1] == if at == |p.layout| then p.limit else p.layout[|p.layout| - 1];
  }

  lemma InsertSameStep(p: Program, at: nat, next: Block, c: Config, taken: bool)
    requires LayoutOk(p) && 0 < at <= |p.layout| && Known(p, c)
    requires p.layout[at - 1] in p.code && !CanFallThrough(p.code[p.layout[at - 1]])
    ensures Next(p, c, taken) == Next(Inserted(p, at, next), c, taken)
  {
    if c.Running? {
      InsertedNext(p.layout, at, p.limit, c.block);
    }
  }

  lemma InsertKeeps(p: Program, at: nat, next: Block)
    requires WellFormed(p) && 0 < at <= |p.layout| && next in p.code
    requires !CanFallThrough(p.code[p.layout[at - 1]])
    ensures WellFormed(Inserted(p, at, next)) && Equivalent(p, Inserted(p, at, next))
  {
    var q := Inserted(p, at, next);
    InsertWellFormed(p, at, next);
    forall c: Config, taken: bool | Known(p, c) ensures Matches(p, q, c, taken) {
      InsertSameStep(p, at, next, c, taken);
      SameStepMatches(p, q, c, taken);
    }
    SimulationIsEquivalence(p, q);
  }

  /** A boundary relaxation may use: any block but the first, or the end. */
  ghost predicate Interior(p: Program, before: Option<Block>) {
    before.Some? ==> before.value in p.layout && before.value != p.layout[0]
  }

  lemma SeparatedKeeps(p: Program, before: Option<Block>)
    requires WellFormed(p) && Interior(p, before)
    ensures var q := Separated(p, before);
            WellFormed(q) && Equivalent(p, q) && Boundary(p, before) > 0
                && !CanFallThrough(q.code[q.layout[Boundary(p, before) - 1]])
  {
    if before.Some? {
      var at := Boundary(p, before);
      PosIs(p.layout, at - 1);
      CloseKeeps(p, p.layout[at - 1], before.value);
    }
  }

  lemma PlaceRelayKeeps(p: Program, before: Option<Block>, next: Block)
    requires WellFormed(p) && next in p.code && Interior(p, before)
    ensures WellFormed(PlaceRelay(p, before, next)) && Equivalent(p, PlaceRelay(p, before, next))
  {
    SeparatedKeeps(p, before);
    InsertKeeps(Separated(p, before), Boundary(p, before), next);
    EquivalentTransitive(p, Separated(p, before), PlaceRelay(p, before, next));
  }

  /** `x` reaches `target` through `k` blocks numbered `base` or higher that only jump. */
  ghost predicate LeadsTo(p: Program, x: Block, target: Block, k: nat, base: Block)
    decreases k
  {
    if k == 0 then x == target
    else
      && x >= base && x in p.code && |p.code[x]| == 1 && p.code[x][0].Jump?
      && LeadsTo(p, p.code[x][0].target, target, k - 1, base)
  }

  lemma {:induction false} LeadsToSilently(q: Program, x: Block, target: Block, k: nat, base: Block,
                                           stack: seq<(Block, nat)>)
    requires LeadsTo(q, x, target, k, base)
    ensures Silently(q, Running(x, 0, stack), Running(target, 0, stack), k)
    decreases k
  {
    if k > 0 {
      LeadsToSilently(q, q.code[x][0].target, target, k - 1, base, stack);
    }
  }

  /** Chains only depend on the code of blocks numbered `base` or higher. */
  lemma {:induction false} LeadsToStable(p: Program, q: Program, x: Block, target: Block, k: nat, base: Block)
    requires LeadsTo(p, x, target, k, base)
    requires forall y :: y in p.code && y >= base ==> y in q.code && q.code[y] == p.code[y]
    ensures LeadsTo(q, x, target, k, base)
    decreases k
  {
    if k > 0 {
      LeadsToStable(p, q, p.code[x][0].target, target, k - 1, base);
    }
  }

  lemma RetargetMatches(p: Program, b: Block, i: nat, next: Block, k: nat, base: Block, c: Config, taken: bool)
    requires b in p.code && b < base && Known(p, c)
    requires i < |p.code[b]| && p.code[b][i].IsBranch()
    requires LeadsTo(p, next, p.code[b][i].target, k, base)
    ensures Matches(p, Retarget(p, b, i, next), c, taken)
  {
    var q := Retarget(p, b, i, next);
    var target := p.code[b][i].target;
    assert CanFallThrough(q.code[b]) == CanFallThrough(p.code[b]);
    if c.Running? && c.block == b && c.index == i && (p.code[b][i].Jump? || taken) {
      LeadsToStable(p, q, next, target, k, base);
      LeadsToSilently(q, next, target, k, base, c.stack);
    } else {
      SameStepMatches(p, q, c, taken);
    }
  }

  lemma RetargetWellFormed(p: Program, b: Block, i: nat, next: Block)
    requires WellFormed(p) && b in p.code && next in p.code
    requires i < |p.code[b]| && p.code[b][i].IsBranch()
    ensures WellFormed(Retarget(p, b, i, next))
  {
    var q := Retarget(p, b, i, next);
    forall x | x in q.code ensures TargetsPlaced(q, q.code[x]) {
      assert TargetsPlaced(p, p.code[x]);
    }
  }

  lemma RetargetKeeps(p: Program, b: Block, i: nat, next: Block, k: nat, base: Block)
    requires WellFormed(p) && b in p.code && b < base
    requires i < |p.code[b]| && p.code[b][i].IsBranch() && next in p.code
    requires LeadsTo(p, next, p.code[b][i].target, k, base)
    ensures WellFormed(Retarget(p, b, i, next)) && Equivalent(p, Retarget(p, b, i, next))
  {
    var q := Retarget(p, b, i, next);
    RetargetWellFormed(p, b, i, next);
    forall c: Config, taken: bool | Known(p, c) ensures Matches(p, q, c, taken) {
      RetargetMatches(p, b, i, next, k, base, c, taken);
    }
    SimulationIsEquivalence(p, q);
  }

  // ----- chains of relays, shared between requests -----

  /** A far branch and the boundaries its relays go to, nearest first. */
  datatype Request = Request(block: Block, index: nat, target: Block, boundaries: seq<Option<Block>>)

  type Islands = map<(Option<Block>, Block), Block>

  datatype Round = Round(program: Program, islands: Islands, next: Block)

  /** Reuse the island for (boundary, next), or place it. */
  function AddIsland(s: Round, before: Option<Block>): Round {
    var key := (before, s.next);
    if key in s.islands then s.(next := s.islands[key])
    else Round(PlaceRelay(s.program, before, s.next), s.islands[key := s.program.limit], s.program.limit)
  }

  /** The islands of one chain, built from the target back to the source. */
  function AddChain(s: Round, boundaries: seq<Option<Block>>): Round {
    if boundaries == [] then s
    else AddIsland(AddChain(s, boundaries[1..]), boundaries[0])
  }

  function Apply(p: Program, islands: Islands, r: Request): Round {
    var s := AddChain(Round(p, islands, r.target), r.boundaries);
    if r.block in s.program.code && r.index < |s.program.code[r.block]|
        && s.program.code[r.block][r.index].IsBranch() then
      s.(program := Retarget(s.program, r.block, r.index, s.next))
    else s
  }

  function ApplyAll(p: Program, islands: Islands, requests: seq<Request>): Round
    decreases |requests|
  {
    if requests == [] then Round(p, islands, 0)
    else
      var s := Apply(p, islands, requests[0]);
      ApplyAll(s.program, s.islands, requests[1..])
  }

  /** Blocks numbered `base` or higher are this round's islands: one jump each. */
  ghost predicate IslandsOk(p: Program, islands: Islands, base: Block) {
    && base <= p.limit
    && (forall y :: y in p.code && y >= base ==> |p.code[y]| == 1 && p.code[y][0].Jump?)
    && (forall key :: key in islands ==>
          islands[key] >= base && islands[key] in p.code && p.code[islands[key]] == [Jump(key.1)])
  }

  /** Old code only grows at its end, islands do not change, the first block stays. */
  ghost predicate Grows(p: Program, q: Program, base: Block) {
    && p.limit <= q.limit
    && (forall b :: b in p.code ==> b in q.code && p.code[b] <= q.code[b])
    && (forall b :: b in p.code && b >= base ==> q.code[b] == p.code[b])
    && p.layout != [] && q.layout != [] && q.layout[0] == p.layout[0]
  }

  /** `q` is `p` with islands added. */
  ghost predicate Extends(p: Program, q: Program, base: Block) {
    WellFormed(q) && Equivalent(p, q) && Grows(p, q, base)
  }

  lemma SeparatedGrows(p: Program, before: Option<Block>, base: Block)
    requires LayoutOk(p) && IslandsOk(p, map[], base)
    ensures Grows(p, Separated(p, before), base)
  {
  }

  lemma PlaceRelayGrows(p: Program, before: Option<Block>, next: Block, base: Block)
    requires LayoutOk(p) && Interior(p, before) && IslandsOk(p, map[], base)
    ensures Grows(p, PlaceRelay(p, before, next), base)
    ensures PlaceRelay(p, before, next).code.Keys == p.code.Keys + {p.limit}
  {
    SeparatedGrows(p, before, base);
    assert Boundary(p, before) > 0;
  }

  lemma PlaceRelayIslands(p: Program, islands: Islands, before: Option<Block>, next: Block, base: Block)
    requires LayoutOk(p) && Interior(p, before) && IslandsOk(p, islands, base)
    ensures IslandsOk(PlaceRelay(p, before, next), islands[(before, next) := p.limit], base)
  {
    PlaceRelayGrows(p, before, next, base);
  }

  lemma AddIslandKeeps(s: Round, before: Option<Block>, target: Block, k: nat, base: Block)
    requires WellFormed(s.program) && IslandsOk(s.program, s.islands, base) && Interior(s.program, before)
    requires s.next in s.program.code && LeadsTo(s.program, s.next, target, k, base)
    ensures var t := AddIsland(s, before);
            && Extends(s.program, t.program, base) && IslandsOk(t.program, t.islands, base)
            && t.next in t.program.code && LeadsTo(t.program, t.next, target, k + 1, base)
  {
    var p, q := s.program, AddIsland(s, before).program;
    if (before, s.next) !in s.islands {
      PlaceRelayKeeps(p, before, s.next);
      PlaceRelayGrows(p, before, s.next, base);
      PlaceRelayIslands(p, s.islands, before, s.next, base);
      LeadsToStable(p, q, s.next, target, k, base);
    }
  }

  lemma ExtendsTransitive(p: Program, q: Program, r: Program, base: Block)
    requires Extends(p, q, base) && Extends(q, r, base)
    ensures Extends(p, r, base)
  {
    EquivalentTransitive(p, q, r);
  }

  lemma {:induction false} AddChainKeeps(s: Round, boundaries: seq<Option<Block>>, base: Block)
    requires WellFormed(s.program) && IslandsOk(s.program, s.islands, base) && s.next in s.program.code
    requires forall i :: 0 <= i < |boundaries| ==> Interior(s.program, boundaries[i])
    ensures var t := AddChain(s, boundaries);
            && Extends(s.program, t.program, base) && IslandsOk(t.program, t.islands, base)
            && t.next in t.program.code && LeadsTo(t.program, t.next, s.next, |boundaries|, base)
  {
    if boundaries != [] {
      AddChainKeeps(s, boundaries[1..], base);
      var u := AddChain(s, boundaries[1..]);
      assert Interior(s.program, boundaries[0]);
      AddIslandKeeps(u, boundaries[0], s.next, |boundaries| - 1, base);
      ExtendsTransitive(s.program, u.program, AddIsland(u, boundaries[0]).program, base);
    }
  }

  /** The request names a branch of an old block and uses interior boundaries. */
  ghost predicate Pending(p: Program, r: Request, base: Block) {
    && r.block in p.code && r.block < base
    && r.index < |p.code[r.block]| && p.code[r.block][r.index].IsBranch() && p.code[r.block][r.index].target == r.target
    && forall i :: 0 <= i < |r.boundaries| ==> Interior(p, r.boundaries[i])
  }

  ghost predicate AllPending(p: Program, requests: seq<Request>, base: Block) {
    && (forall i :: 0 <= i < |requests| ==> Pending(p, requests[i], base))
    && (forall i, j :: 0 <= i < j < |requests| ==>
          (requests[i].block, requests[i].index) != (requests[j].block, requests[j].index))
  }

  lemma RetargetIslands(p: Program, islands: Islands, b: Block, i: nat, next: Block, base: Block)
    requires IslandsOk(p, islands, base) && b in p.code && b < base
    requires i < |p.code[b]| && p.code[b][i].IsBranch()
    ensures IslandsOk(Retarget(p, b, i, next), islands, base)
  {
  }

  lemma RetargetPending(p: Program, b: Block, i: nat, next: Block, other: Request, base: Block)
    requires b in p.code && i < |p.code[b]| && p.code[b][i].IsBranch()
    requires Pending(p, other, base) && (b, i) != (other.block, other.index)
    ensures Pending(Retarget(p, b, i, next), other, base)
  {
    forall j | 0 <= j < |other.boundaries| ensures Interior(Retarget(p, b, i, next), other.boundaries[j]) {
      assert Interior(p, other.boundaries[j]);
    }
  }

  lemma GrowsPending(p: Program, q: Program, other: Request, base: Block)
    requires LayoutOk(p) && LayoutOk(q) && Grows(p, q, base) && Pending(p, other, base)
    ensures Pending(q, other, base)
  {
    assert q.code[other.block][other.index] == p.code[other.block][other.index];
    forall j | 0 <= j < |other.boundaries| ensures Interior(q, other.boundaries[j]) {
      assert Interior(p, other.boundaries[j]);
    }
  }

  lemma ChainKeeps(p: Program, islands: Islands, r: Request, base: Block)
    requires WellFormed(p) && IslandsOk(p, islands, base) && Pending(p, r, base)
    ensures var s := AddChain(Round(p, islands, r.target), r.boundaries);
            && Extends(p, s.program, base) && IslandsOk(s.program, s.islands, base)
            && s.next in s.program.code && LeadsTo(s.program, s.next, r.target, |r.boundaries|, base)
            && Pending(s.program, r, base)
  {
    assert TargetsPlaced(p, p.code[r.block]);
    AddChainKeeps(Round(p, islands, r.target), r.boundaries, base);
    GrowsPending(p, AddChain(Round(p, islands, r.target), r.boundaries).program, r, base);
  }

  lemma ApplyKeeps(p: Program, islands: Islands, r: Request, base: Block)
    requires WellFormed(p) && IslandsOk(p, islands, base) && Pending(p, r, base)
    ensures var s := Apply(p, islands, r);
            WellFormed(s.program) && Equivalent(p, s.program) && IslandsOk(s.program, s.islands, base)
  {
    ChainKeeps(p, islands, r, base);
    var s := AddChain(Round(p, islands, r.target), r.boundaries);
    RetargetKeeps(s.program, r.block, r.index, s.next, |r.boundaries|, base);
    RetargetIslands(s.program, s.islands, r.block, r.index, s.next, base);
    EquivalentTransitive(p, s.program, Retarget(s.program, r.block, r.index, s.next));
  }

  lemma ApplyKeepsPending(p: Program, islands: Islands, r: Request, other: Request, base: Block)
    requires WellFormed(p) && IslandsOk(p, islands, base) && Pending(p, r, base) && Pending(p, other, base)
    requires (r.block, r.index) != (other.block, other.index)
    ensures Pending(Apply(p, islands, r).program, other, base)
  {
    ChainKeeps(p, islands, r, base);
    var s := AddChain(Round(p, islands, r.target), r.boundaries);
    GrowsPending(p, s.program, other, base);
    RetargetPending(s.program, r.block, r.index, s.next, other, base);
  }

  lemma NextPending(p: Program, islands: Islands, requests: seq<Request>, base: Block)
    requires WellFormed(p) && IslandsOk(p, islands, base) && requests != [] && AllPending(p, requests, base)
    ensures var s := Apply(p, islands, requests[0]);
            && WellFormed(s.program) && Equivalent(p, s.program) && IslandsOk(s.program, s.islands, base)
            && AllPending(s.program, requests[1..], base)
  {
    ApplyKeeps(p, islands, requests[0], base);
    forall i | 0 < i < |requests| ensures Pending(Apply(p, islands, requests[0]).program, requests[i], base) {
      ApplyKeepsPending(p, islands, requests[0], requests[i], base);
    }
  }

  /** One relaxation round preserves meaning, however the requests share islands. */
  lemma {:induction false} RoundKeepsMeaning(p: Program, islands: Islands, requests: seq<Request>, base: Block)
    requires WellFormed(p) && IslandsOk(p, islands, base) && AllPending(p, requests, base)
    ensures WellFormed(ApplyAll(p, islands, requests).program) && Equivalent(p, ApplyAll(p, islands, requests).program)
    decreases |requests|
  {
    if requests != [] {
      var s := Apply(p, islands, requests[0]);
      NextPending(p, islands, requests, base);
      RoundKeepsMeaning(s.program, s.islands, requests[1..], base);
      EquivalentTransitive(p, s.program, ApplyAll(p, islands, requests).program);
    }
  }
}
