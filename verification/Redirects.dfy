/** Where a round's relays end up: every requested branch enters a chain of islands, each laid out at
    its own boundary, that ends at the branch's old target. */
module Redirects {
  import opened Wrappers
  import opened Machine
  import opened Relays

  /** Island `x` lies directly before the boundary, with only other islands in between. */
  ghost predicate AtBoundary(p: Program, x: Block, before: Option<Block>, base: Block) {
    && x >= base && x in p.layout && (before.Some? ==> before.value in p.layout)
    && Pos(p.layout, x) < Boundary(p, before)
    && forall k :: Pos(p.layout, x) < k < Boundary(p, before) ==> p.layout[k] >= base
  }

  /** From `x`, one island at each boundary in turn, then the target. */
  ghost predicate ChainAt(p: Program, x: Block, target: Block, boundaries: seq<Option<Block>>, base: Block)
    decreases |boundaries|
  {
    if boundaries == [] then x == target
    else
      && AtBoundary(p, x, boundaries[0], base)
      && x in p.code && |p.code[x]| == 1 && p.code[x][0].Jump?
      && ChainAt(p, p.code[x][0].target, target, boundaries[1..], base)
  }

  /** The requested branch now goes to its chain. */
  ghost predicate Redirected(p: Program, r: Request, base: Block) {
    && r.block in p.code && r.index < |p.code[r.block]| && p.code[r.block][r.index].IsBranch()
    && ChainAt(p, p.code[r.block][r.index].target, r.target, r.boundaries, base)
  }

  /** Islands keep their code and their boundaries. */
  ghost predicate Spreads(p: Program, q: Program, base: Block) {
    && (forall y :: y in p.code && y >= base ==> y in q.code && q.code[y] == p.code[y])
    && (forall x, before {:trigger AtBoundary(p, x, before, base)} ::
          AtBoundary(p, x, before, base) ==> AtBoundary(q, x, before, base))
  }

  lemma {:induction false} ChainAtStays(p: Program, q: Program, x: Block, target: Block,
                                        boundaries: seq<Option<Block>>, base: Block)
    requires Spreads(p, q, base) && ChainAt(p, x, target, boundaries, base)
    ensures ChainAt(q, x, target, boundaries, base)
    decreases |boundaries|
  {
    hide AtBoundary;
    if boundaries != [] {
      AtOrAbove(p, x, boundaries[0], base);
      ChainAtStays(p, q, p.code[x][0].target, target, boundaries[1..], base);
    }
  }

  lemma AtOrAbove(p: Program, x: Block, before: Option<Block>, base: Block)
    requires AtBoundary(p, x, before, base)
    ensures x >= base
  {
  }

  // ----- the edits -----

  lemma SameLayoutSpreads(p: Program, q: Program, base: Block)
    requires q.layout == p.layout && forall y :: y in p.code && y >= base ==> y in q.code && q.code[y] == p.code[y]
    ensures Spreads(p, q, base)
  {
  }

  lemma InsertedPos(layout: seq<Block>, at: nat, r: Block, b: Block)
    requires Unique(layout) && r !in layout && at <= |layout| && b in layout
    ensures var s := layout[..at] + [r] + layout[at..];
            b in s && Pos(s, b) == if Pos(layout, b) < at then Pos(layout, b) else Pos(layout, b) + 1
  {
    InsertedNext(layout, at, r, b);
    var s, i := layout[..at] + [r] + layout[at..], Pos(layout, b);
    assert s[if i < at then i else i + 1] == b;
    PosIs(s, if i < at then i else i + 1);
  }

  lemma InsertedSpreads(p: Program, at: nat, next: Block, base: Block)
    requires LayoutOk(p) && at <= |p.layout| && base <= p.limit
    ensures Spreads(p, Inserted(p, at, next), base)
  {
    var q := Inserted(p, at, next);
    forall x, before | AtBoundary(p, x, before, base) ensures AtBoundary(q, x, before, base) {
      InsertedBoundary(p, at, next, x, before, base);
    }
  }

  lemma InsertedBoundary(p: Program, at: nat, next: Block, x: Block, before: Option<Block>, base: Block)
    requires LayoutOk(p) && at <= |p.layout| && base <= p.limit && AtBoundary(p, x, before, base)
    ensures AtBoundary(Inserted(p, at, next), x, before, base)
  {
    var q := Inserted(p, at, next);
    InsertedPos(p.layout, at, p.limit, x);
    if before.Some? { InsertedPos(p.layout, at, p.limit, before.value); }
    hide Pos;
    forall k | Pos(q.layout, x) < k < Boundary(q, before) ensures q.layout[k] >= base {
      if k < at {
        assert q.layout[k] == p.layout[k];
      } else if k > at {
        assert q.layout[k] == p.layout[k - 1];
      } else {
        assert q.layout[k] == p.limit;
      }
    }
  }

  /** A relay goes directly before its boundary, and moves no other away from its own. */
  lemma PlaceRelaySpreads(p: Program, before: Option<Block>, next: Block, base: Block)
    requires LayoutOk(p) && Interior(p, before) && IslandsOk(p, map[], base)
    ensures Spreads(p, PlaceRelay(p, before, next), base)
    ensures AtBoundary(PlaceRelay(p, before, next), p.limit, before, base)
  {
    var s := Separated(p, before);
    SeparatedGrows(p, before, base);
    SameLayoutSpreads(p, s, base);
    assert LayoutOk(s);
    InsertedSpreads(s, Boundary(p, before), next, base);
    NewAtBoundary(s, before, next, base);
  }

  lemma NewAtBoundary(p: Program, before: Option<Block>, next: Block, base: Block)
    requires LayoutOk(p) && Interior(p, before) && base <= p.limit
    ensures AtBoundary(Inserted(p, Boundary(p, before), next), p.limit, before, base)
  {
    var at := Boundary(p, before);
    var q := Inserted(p, at, next);
    InsertedNext(p.layout, at, p.limit, p.layout[0]);
    PosIs(q.layout, at);
    assert q.layout[at] == p.limit;
    if before.Some? { InsertedPos(p.layout, at, p.limit, before.value); }
  }

  lemma RetargetSpreads(p: Program, b: Block, i: nat, next: Block, base: Block)
    requires b in p.code && b < base && i < |p.code[b]| && p.code[b][i].IsBranch()
    ensures Spreads(p, Retarget(p, b, i, next), base)
  {
    SameLayoutSpreads(p, Retarget(p, b, i, next), base);
  }

  // ----- chains, requests and rounds -----

  /** Every recorded island is at the boundary it is recorded for. */
  ghost predicate IslandsPlaced(p: Program, islands: Islands, base: Block) {
    forall key :: key in islands ==> AtBoundary(p, islands[key], key.0, base)
  }

  lemma AddIslandPlaces(s: Round, before: Option<Block>, target: Block, rest: seq<Option<Block>>, base: Block)
    requires WellFormed(s.program) && IslandsOk(s.program, s.islands, base) && Interior(s.program, before)
    requires IslandsPlaced(s.program, s.islands, base) && ChainAt(s.program, s.next, target, rest, base)
    ensures var t := AddIsland(s, before);
            && Spreads(s.program, t.program, base) && IslandsPlaced(t.program, t.islands, base)
            && ChainAt(t.program, t.next, target, [before] + rest, base)
  {
    hide AtBoundary;
    var p, t := s.program, AddIsland(s, before);
    assert ([before] + rest)[1..] == rest;
    if (before, s.next) !in s.islands {
      PlaceRelaySpreads(p, before, s.next, base);
      ChainAtStays(p, t.program, s.next, target, rest, base);
    }
  }

  lemma {:induction false} AddChainPlaces(s: Round, boundaries: seq<Option<Block>>, base: Block)
    requires WellFormed(s.program) && IslandsOk(s.program, s.islands, base) && s.next in s.program.code
    requires IslandsPlaced(s.program, s.islands, base)
    requires forall i :: 0 <= i < |boundaries| ==> Interior(s.program, boundaries[i])
    ensures var t := AddChain(s, boundaries);
            && Spreads(s.program, t.program, base) && IslandsPlaced(t.program, t.islands, base)
            && ChainAt(t.program, t.next, s.next, boundaries, base)
  {
    hide AtBoundary, WellFormed, Equivalent;
    if boundaries != [] {
      var u := AddChain(s, boundaries[1..]);
      AddChainPlaces(s, boundaries[1..], base);
      AddChainKeeps(s, boundaries[1..], base);
      assert Interior(s.program, boundaries[0]);
      StaysInterior(s.program, u.program, boundaries[0], base);
      AddIslandPlaces(u, boundaries[0], s.next, boundaries[1..], base);
      assert [boundaries[0]] + boundaries[1..] == boundaries;
    }
  }

  lemma StaysInterior(p: Program, q: Program, before: Option<Block>, base: Block)
    requires WellFormed(p) && Extends(p, q, base) && Interior(p, before)
    ensures Interior(q, before)
  {
  }

  /** One request: its branch is redirected, and every chain made before it stays. */
  lemma ApplyRedirects(p: Program, islands: Islands, r: Request, base: Block)
    requires WellFormed(p) && IslandsOk(p, islands, base) && Pending(p, r, base) && IslandsPlaced(p, islands, base)
    ensures var s := Apply(p, islands, r);
            && Redirected(s.program, r, base) && Spreads(p, s.program, base)
            && IslandsPlaced(s.program, s.islands, base)
  {
    hide AtBoundary, WellFormed, Equivalent, IslandsOk, ChainAt, Spreads, IslandsPlaced, Apply;
    var s := AddChain(Round(p, islands, r.target), r.boundaries);
    TargetExists(p, r, base);
    ChainKeeps(p, islands, r, base);
    AddChainPlaces(Round(p, islands, r.target), r.boundaries, base);
    ApplyIs(p, islands, r, base);
    var q := Retarget(s.program, r.block, r.index, s.next);
    RetargetSpreads(s.program, r.block, r.index, s.next, base);
    SpreadsTransitive(p, s.program, q, base);
    PlacedStays(s.program, q, s.islands, base);
    ChainAtStays(s.program, q, s.next, r.target, r.boundaries, base);
  }

  lemma TargetExists(p: Program, r: Request, base: Block)
    requires WellFormed(p) && Pending(p, r, base)
    ensures r.target in p.code
  {
    assert TargetsPlaced(p, p.code[r.block]);
  }

  lemma ApplyIs(p: Program, islands: Islands, r: Request, base: Block)
    requires Pending(AddChain(Round(p, islands, r.target), r.boundaries).program, r, base)
    ensures var s := AddChain(Round(p, islands, r.target), r.boundaries);
            Apply(p, islands, r) == s.(program := Retarget(s.program, r.block, r.index, s.next))
  {
  }

  lemma SpreadsTransitive(p: Program, q: Program, s: Program, base: Block)
    requires Spreads(p, q, base) && Spreads(q, s, base)
    ensures Spreads(p, s, base)
  {
    hide AtBoundary;
  }

  lemma PlacedStays(p: Program, q: Program, islands: Islands, base: Block)
    requires Spreads(p, q, base) && IslandsPlaced(p, islands, base)
    ensures IslandsPlaced(q, islands, base)
  {
    hide AtBoundary;
  }

  /** A later request at another branch leaves this one's alone. */
  lemma ApplyKeepsRedirected(p: Program, islands: Islands, r: Request, done: Request, base: Block)
    requires WellFormed(p) && IslandsOk(p, islands, base) && Pending(p, r, base) && IslandsPlaced(p, islands, base)
    requires Redirected(p, done, base) && (r.block, r.index) != (done.block, done.index)
    ensures Redirected(Apply(p, islands, r).program, done, base)
  {
    hide AtBoundary, WellFormed, Equivalent, IslandsOk, ChainAt, Spreads;
    ApplyRedirects(p, islands, r, base);
    ChainKeeps(p, islands, r, base);
    var s := AddChain(Round(p, islands, r.target), r.boundaries).program;
    assert s.code[done.block][done.index] == p.code[done.block][done.index];
    var t := p.code[done.block][done.index].target;
    ChainAtStays(p, Apply(p, islands, r).program, t, done.target, done.boundaries, base);
  }

  lemma {:induction false} RoundKeepsRedirected(p: Program, islands: Islands, requests: seq<Request>, done: Request,
                                                base: Block)
    requires WellFormed(p) && IslandsOk(p, islands, base) && AllPending(p, requests, base)
    requires IslandsPlaced(p, islands, base) && Redirected(p, done, base)
    requires forall i :: 0 <= i < |requests| ==> (requests[i].block, requests[i].index) != (done.block, done.index)
    ensures Redirected(ApplyAll(p, islands, requests).program, done, base)
    decreases |requests|
  {
    hide Redirected, IslandsPlaced, WellFormed, Equivalent, IslandsOk;
    if requests != [] {
      var s := Apply(p, islands, requests[0]);
      NextPending(p, islands, requests, base);
      ApplyRedirects(p, islands, requests[0], base);
      ApplyKeepsRedirected(p, islands, requests[0], done, base);
      RoundKeepsRedirected(s.program, s.islands, requests[1..], done, base);
    }
  }

  /** After a round every requested branch goes to its own complete chain. */
  lemma {:induction false} RoundRedirects(p: Program, islands: Islands, requests: seq<Request>, base: Block, i: nat)
    requires WellFormed(p) && IslandsOk(p, islands, base) && AllPending(p, requests, base)
    requires IslandsPlaced(p, islands, base) && i < |requests|
    ensures Redirected(ApplyAll(p, islands, requests).program, requests[i], base)
    decreases |requests|
  {
    hide Redirected, IslandsPlaced, WellFormed, Equivalent, IslandsOk;
    var s := Apply(p, islands, requests[0]);
    NextPending(p, islands, requests, base);
    ApplyRedirects(p, islands, requests[0], base);
    if i == 0 {
      RoundKeepsRedirected(s.program, s.islands, requests[1..], requests[0], base);
    } else {
      RoundRedirects(s.program, s.islands, requests[1..], base, i - 1);
    }
  }

  // ----- sharing -----

  predicate OldBoundary(before: Option<Block>, base: Block) { before.Some? ==> before.value < base }

  /** Every island of the round is in the table, under a boundary between old blocks. */
  ghost predicate Interned(p: Program, islands: Islands, base: Block) {
    && (forall key :: key in islands ==> OldBoundary(key.0, base))
    && (forall y :: y in p.code && y >= base ==> exists key :: key in islands && islands[key] == y)
  }

  /** Of two islands at one boundary that jump to one block there is only one. */
  ghost predicate NoTwins(p: Program, base: Block) {
    forall x, y, before {:trigger AtBoundary(p, x, before, base), AtBoundary(p, y, before, base)} ::
      AtBoundary(p, x, before, base) && AtBoundary(p, y, before, base) && OldBoundary(before, base) ==>
        x in p.code && y in p.code && p.code[x] == p.code[y] ==> x == y
  }

  lemma OneBoundary(p: Program, x: Block, a: Option<Block>, b: Option<Block>, base: Block)
    requires AtBoundary(p, x, a, base) && AtBoundary(p, x, b, base) && OldBoundary(a, base) && OldBoundary(b, base)
    ensures a == b
  {
    assert a.Some? ==> p.layout[Boundary(p, a)] < base;
    assert b.Some? ==> p.layout[Boundary(p, b)] < base;
  }

  lemma InternedHasNoTwins(p: Program, islands: Islands, base: Block)
    requires IslandsOk(p, islands, base) && IslandsPlaced(p, islands, base) && Interned(p, islands, base)
    ensures NoTwins(p, base)
  {
    hide AtBoundary;
    forall x, y, before | AtBoundary(p, x, before, base) && AtBoundary(p, y, before, base)
        && OldBoundary(before, base) && x in p.code && y in p.code && p.code[x] == p.code[y]
      ensures x == y
    {
      AtOrAbove(p, x, before, base);
      AtOrAbove(p, y, before, base);
      var j :| j in islands && islands[j] == x;
      var k :| k in islands && islands[k] == y;
      OneBoundary(p, x, before, j.0, base);
      OneBoundary(p, y, before, k.0, base);
      assert [Jump(j.1)][0] == [Jump(k.1)][0];
    }
  }

  lemma AddIslandInterns(s: Round, before: Option<Block>, base: Block)
    requires WellFormed(s.program) && IslandsOk(s.program, s.islands, base) && Interior(s.program, before)
    requires Interned(s.program, s.islands, base) && OldBoundary(before, base)
    ensures var t := AddIsland(s, before); Interned(t.program, t.islands, base)
  {
    var p, t := s.program, AddIsland(s, before);
    var key := (before, s.next);
    if key !in s.islands {
      PlaceRelayGrows(p, before, s.next, base);
      hide PlaceRelay, WellFormed, IslandsOk, Interior, Grows;
      forall y | y in t.program.code && y >= base ensures exists k :: k in t.islands && t.islands[k] == y {
        if y == p.limit {
          assert key in t.islands && t.islands[key] == y;
        } else {
          var k :| k in s.islands && s.islands[k] == y;
          assert k in t.islands && t.islands[k] == y;
        }
      }
    }
  }

  lemma {:induction false} AddChainInterns(s: Round, boundaries: seq<Option<Block>>, base: Block)
    requires WellFormed(s.program) && IslandsOk(s.program, s.islands, base) && s.next in s.program.code
    requires Interned(s.program, s.islands, base)
    requires forall i :: 0 <= i < |boundaries| ==> Interior(s.program, boundaries[i])
    requires forall i :: 0 <= i < |boundaries| ==> OldBoundary(boundaries[i], base)
    ensures var t := AddChain(s, boundaries); Interned(t.program, t.islands, base)
  {
    hide WellFormed, Equivalent, Interned, IslandsOk, Interior;
    if boundaries != [] {
      var u := AddChain(s, boundaries[1..]);
      AddChainInterns(s, boundaries[1..], base);
      AddChainKeeps(s, boundaries[1..], base);
      assert Interior(s.program, boundaries[0]);
      StaysInterior(s.program, u.program, boundaries[0], base);
      AddIslandInterns(u, boundaries[0], base);
    }
  }

  ghost predicate OldBoundaries(r: Request, base: Block) {
    forall i :: 0 <= i < |r.boundaries| ==> OldBoundary(r.boundaries[i], base)
  }

  lemma ApplyInterns(p: Program, islands: Islands, r: Request, base: Block)
    requires WellFormed(p) && IslandsOk(p, islands, base) && Pending(p, r, base)
    requires Interned(p, islands, base) && OldBoundaries(r, base)
    ensures var s := Apply(p, islands, r); Interned(s.program, s.islands, base)
  {
    TargetExists(p, r, base);
    ChainKeeps(p, islands, r, base);
    AddChainInterns(Round(p, islands, r.target), r.boundaries, base);
    ApplyIs(p, islands, r, base);
    hide WellFormed, Equivalent, IslandsOk, Apply, AddChain;
  }

  /** After a round no two of its islands are twins: equal chain ends are shared. */
  lemma {:induction false} RoundInterns(p: Program, islands: Islands, requests: seq<Request>, base: Block)
    requires WellFormed(p) && IslandsOk(p, islands, base) && AllPending(p, requests, base)
    requires IslandsPlaced(p, islands, base) && Interned(p, islands, base)
    requires forall i :: 0 <= i < |requests| ==> OldBoundaries(requests[i], base)
    ensures NoTwins(ApplyAll(p, islands, requests).program, base)
    decreases |requests|
  {
    if requests == [] {
      InternedHasNoTwins(p, islands, base);
    } else {
      hide WellFormed, Equivalent, IslandsOk, IslandsPlaced, Interned, NoTwins;
      var s := Apply(p, islands, requests[0]);
      NextPending(p, islands, requests, base);
      ApplyRedirects(p, islands, requests[0], base);
      ApplyInterns(p, islands, requests[0], base);
      RoundInterns(s.program, s.islands, requests[1..], base);
    }
  }

  /** A round that starts without islands has boundaries between old blocks only. */
  lemma StartsOld(p: Program, requests: seq<Request>)
    requires WellFormed(p) && AllPending(p, requests, p.limit)
    ensures Interned(p, map[], p.limit) && forall i :: 0 <= i < |requests| ==> OldBoundaries(requests[i], p.limit)
  {
    forall i | 0 <= i < |requests| ensures OldBoundaries(requests[i], p.limit) {
      assert Pending(p, requests[i], p.limit);
      forall k | 0 <= k < |requests[i].boundaries| ensures OldBoundary(requests[i].boundaries[k], p.limit) {
        assert Interior(p, requests[i].boundaries[k]);
      }
    }
  }
}
