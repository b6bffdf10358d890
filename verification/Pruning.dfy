/** Dropping the blocks that nothing reaches from the first one. */
module Pruning {
  import opened Wrappers
  import opened Machine

  /** Where control can go from `b`: branch targets and the fallthrough. */
  function Targets(body: seq<Instr>): seq<Block> {
    if body == [] then []
    else (if body[0].IsBranch() then [body[0].target] else []) + Targets(body[1..])
  }

  function Successors(p: Program, b: Block): seq<Block>
    requires b in p.code
  {
    Targets(p.code[b]) +
    if CanFallThrough(p.code[b]) && LayoutNext(p.layout, b).Some? then [LayoutNext(p.layout, b).value] else []
  }

  ghost predicate IsPath(p: Program, path: seq<Block>, b: Block) {
    && path != [] && p.layout != [] && path[0] == p.layout[0] && path[|path| - 1] == b
    && forall i :: 0 <= i < |path| - 1 ==> path[i] in p.code && path[i + 1] in Successors(p, path[i])
  }

  ghost predicate Reachable(p: Program, b: Block) {
    exists path :: IsPath(p, path, b)
  }

  lemma ReachableStep(p: Program, b: Block, next: Block)
    requires Reachable(p, b) && b in p.code && next in Successors(p, b)
    ensures Reachable(p, next)
  {
    var path :| IsPath(p, path, b);
    assert IsPath(p, path + [next], next);
  }

  lemma {:induction false} TargetsHave(body: seq<Instr>, i: nat)
    requires i < |body| && body[i].IsBranch()
    ensures body[i].target in Targets(body)
  {
    if i > 0 { TargetsHave(body[1..], i - 1); }
  }

  lemma {:induction false} TargetsAre(body: seq<Instr>, t: Block)
    requires t in Targets(body)
    ensures exists i :: 0 <= i < |body| && body[i].IsBranch() && body[i].target == t
  {
    if !(body[0].IsBranch() && body[0].target == t) {
      TargetsAre(body[1..], t);
      var i :| 0 <= i < |body[1..]| && body[1..][i].IsBranch() && body[1..][i].target == t;
      assert body[i + 1].target == t;
    }
  }

  /** The successors of a block are exactly the blocks one step from some position of it enters. */
  lemma SuccessorsAreSteps(p: Program, b: Block, n: Block)
    requires b in p.code && p.entries == map[]
    ensures n in Successors(p, b) <==>
            exists i: nat, taken :: i <= |p.code[b]| && Next(p, Running(b, i, []), taken).1 == Running(n, 0, [])
  {
    var body := p.code[b];
    if n in Targets(body) {
      TargetsAre(body, n);
      var i :| 0 <= i < |body| && body[i].IsBranch() && body[i].target == n;
      assert Next(p, Running(b, i, []), true).1 == Running(n, 0, []);
    } else if n in Successors(p, b) {
      assert Next(p, Running(b, |body|, []), true).1 == Running(n, 0, []);
    }
    if i: nat, taken :| i <= |body| && Next(p, Running(b, i, []), taken).1 == Running(n, 0, []) {
      if i < |body| { TargetsHave(body, i); }
    }
  }

  lemma SuccessorsPlaced(p: Program, b: Block)
    requires WellFormed(p) && b in p.code
    ensures forall n :: n in Successors(p, b) ==> n in p.code
  {
    assert TargetsPlaced(p, p.code[b]);
    forall n | n in Targets(p.code[b]) ensures n in p.code { TargetsAre(p.code[b], n); }
  }

  /** Contains the first block and everything control can go to from inside. */
  ghost predicate Closed(p: Program, live: set<Block>) {
    && p.layout != [] && p.layout[0] in live
    && (forall b :: b in live ==> b in p.code)
    && (forall b, n :: b in live && n in Successors(p, b) ==> n in live)
  }

  function Kept(layout: seq<Block>, live: set<Block>): seq<Block> {
    if layout == [] then [] else (if layout[0] in live then [layout[0]] else []) + Kept(layout[1..], live)
  }

  function Pruned(p: Program, live: set<Block>): Program {
    Program(Kept(p.layout, live), map b | b in p.code && b in live :: p.code[b], p.entries, p.limit)
  }

  lemma {:induction false} KeptMembers(layout: seq<Block>, live: set<Block>)
    requires Unique(layout)
    ensures forall b :: b in Kept(layout, live) <==> b in layout && b in live
    ensures Unique(Kept(layout, live))
  {
    if layout != [] {
      KeptMembers(layout[1..], live);
      assert layout == [layout[0]] + layout[1..];
    }
  }

  /** A kept block directly followed by a kept block still is. */
  lemma {:induction false} KeptNext(layout: seq<Block>, live: set<Block>, k: nat)
    requires Unique(layout) && k + 1 < |layout| && layout[k] in live && layout[k + 1] in live
    ensures LayoutNext(Kept(layout, live), layout[k]) == Some(layout[k + 1])
  {
    KeptMembers(layout, live);
    var kept := Kept(layout, live);
    var n := |Kept(layout[..k], live)|;
    KeptSplit(layout, live, k);
    KeptSplit(layout[k..], live, 1);
    assert layout[k..][1..] == layout[k + 1..];
    assert Kept([layout[k]], live) == [layout[k]] + Kept([], live);
    assert layout[k..][..1] == [layout[k]];
    assert Kept(layout[k + 1..], live)[0] == layout[k + 1];
    assert kept[n] == layout[k] && kept[n + 1] == layout[k + 1];
    PosIs(kept, n);
  }

  lemma {:induction false} KeptSplit(layout: seq<Block>, live: set<Block>, k: nat)
    requires k <= |layout|
    ensures Kept(layout, live) == Kept(layout[..k], live) + Kept(layout[k..], live)
  {
    if k == 0 {
      assert layout[..0] == [] && layout[0..] == layout;
    } else {
      KeptSplit(layout[1..], live, k - 1);
      assert layout[1..][..k - 1] == layout[..k][1..] && layout[1..][k - 1..] == layout[k..];
    }
  }

  lemma FallthroughKept(p: Program, live: set<Block>, b: Block)
    requires WellFormed(p) && Closed(p, live) && b in live && CanFallThrough(p.code[b])
    ensures LayoutNext(p.layout, b).Some? && LayoutNext(p.layout, b).value in live
    ensures LayoutNext(Kept(p.layout, live), b) == LayoutNext(p.layout, b)
  {
    var k := Pos(p.layout, b);
    assert k + 1 < |p.layout|;
    assert p.layout[k + 1] in Successors(p, b);
    KeptNext(p.layout, live, k);
  }

  lemma PrunedWellFormed(p: Program, live: set<Block>)
    requires WellFormed(p) && Closed(p, live) && p.entries == map[]
    ensures WellFormed(Pruned(p, live)) && Start(Pruned(p, live)) == Start(p)
  {
    var q := Pruned(p, live);
    KeptMembers(p.layout, live);
    forall b | b in q.code ensures TargetsPlaced(q, q.code[b]) {
      forall i | 0 <= i < |q.code[b]| && q.code[b][i].IsBranch() ensures q.code[b][i].target in q.code {
        TargetsHave(p.code[b], i);
        assert p.code[b][i].target in Successors(p, b);
      }
    }
    var last := q.layout[|q.layout| - 1];
    assert last in live;
    if CanFallThrough(p.code[last]) {
      FallthroughKept(p, live, last);
    }
  }

  /** Removing blocks outside a closed set preserves meaning. */
  lemma PruningKeepsMeaning(p: Program, live: set<Block>)
    requires WellFormed(p) && Closed(p, live) && p.entries == map[]
    ensures WellFormed(Pruned(p, live)) && Equivalent(p, Pruned(p, live))
  {
    var q := Pruned(p, live);
    PrunedWellFormed(p, live);
    forall c: Config, taken: bool | Known(q, c) ensures Matches(q, p, c, taken) {
      PrunedMatches(p, live, c, taken);
    }
    SimulationIsEquivalence(q, p);
  }

  lemma PrunedMatches(p: Program, live: set<Block>, c: Config, taken: bool)
    requires WellFormed(p) && Closed(p, live) && p.entries == map[] && Known(Pruned(p, live), c)
    ensures Matches(Pruned(p, live), p, c, taken)
  {
    var q := Pruned(p, live);
    if c.Running? && CanFallThrough(p.code[c.block]) {
      FallthroughKept(p, live, c.block);
    }
    SameBlockSteps(q, p, c, taken);
    SameStepMatches(q, p, c, taken);
  }

  /** What is live so far, and what the worklist still owes. */
  ghost predicate Exploring(p: Program, live: set<Block>, work: seq<Block>) {
    && p.layout != []
    && (forall b :: b in live ==> b in p.code && Reachable(p, b))
    && (forall b :: b in work ==> b in p.code && Reachable(p, b))
    && (p.layout[0] in live || p.layout[0] in work)
    && (forall b, n :: b in live && n in Successors(p, b) ==> n in live || n in work)
  }

  lemma ExploreSkip(p: Program, live: set<Block>, work: seq<Block>, b: Block)
    requires Exploring(p, live, work + [b]) && b in live
    ensures Exploring(p, live, work)
  {
    hide Successors, Reachable;
    assert forall n :: n in work + [b] <==> n in work || n == b;
  }

  lemma ExploreStep(p: Program, live: set<Block>, work: seq<Block>, b: Block)
    requires WellFormed(p) && Exploring(p, live, work + [b])
    ensures b in p.code && Exploring(p, live + {b}, work + Successors(p, b))
  {
    var all := work + [b];
    assert b in all && forall n :: n in all <==> n in work || n == b;
    SuccessorsPlaced(p, b);
    forall n | n in Successors(p, b) ensures Reachable(p, n) { ReachableStep(p, b, n); }
    hide Successors, Reachable, WellFormed;
    assert forall n :: n in work + Successors(p, b) <==> n in work || n in Successors(p, b);
  }

  /** Reachability from the first block over a worklist; the result keeps exactly the reachable blocks. */
  method RemoveUnreachable(p: Program) returns (q: Program, live: set<Block>)
    requires WellFormed(p) && p.entries == map[]
    ensures WellFormed(q) && Equivalent(p, q)
    ensures q == Pruned(p, live) && Closed(p, live) && forall b :: b in live ==> Reachable(p, b)
  {
    live := {};
    var work := [p.layout[0]];
    assert IsPath(p, [p.layout[0]], p.layout[0]);
    assert Exploring(p, live, work);
    hide WellFormed, Successors, Reachable;
    while work != []
      invariant Exploring(p, live, work)
      decreases p.code.Keys - live, |work|
    {
      var b := work[|work| - 1];
      var rest := work[..|work| - 1];
      assert work == rest + [b];
      if b in live {
        ExploreSkip(p, live, rest, b);
        work := rest;
      } else {
        ExploreStep(p, live, rest, b);
        live := live + {b};
        work := rest + Successors(p, b);
      }
    }
    PruningKeepsMeaning(p, live);
    q := Pruned(p, live);
  }
}
