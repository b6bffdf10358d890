/** Joining a tree of allocation units into one function: terminal calls become jumps or
    fallthroughs, and blocks that nothing reaches are dropped. */
module Flatten {
  import opened Wrappers
  import opened Machine

  // ----- terminal calls become branches -----

  /** Where a body's dispatch call is, or its length. */
  function CallAt(body: seq<Instr>): nat {
    if |body| >= 2 && body[|body| - 2].Call? then |body| - 2 else |body|
  }

  /** A dispatch call follows no barrier and is followed by the return of its value only. */
  ghost predicate TailCall(body: seq<Instr>) {
    && (forall j :: 0 <= j < |body| && body[j].Call? ==> j + 2 == |body|)
    && (CallAt(body) < |body| ==> body[|body| - 1].Ret? && CanFallThrough(body[..|body| - 2]))
  }

  function Branched(p: Program, b: Block): seq<Instr>
    requires b in p.code
  {
    var body := p.code[b];
    var i := CallAt(body);
    if i == |body| || body[i].callee !in p.entries then body
    else
      var entry := p.entries[body[i].callee];
      body[..i] + if LayoutNext(p.layout, b) == Some(entry) then [] else [Jump(entry)]
  }

  /** Every dispatch call and its return replaced by an edge into the unit. */
  function Joined(p: Program): Program {
    Program(p.layout, map b | b in p.code :: Branched(p, b), map[], p.limit)
  }

  /** The body's dispatch call, if any, is a tail call of a unit. */
  ghost predicate Dispatches(p: Program, body: seq<Instr>) {
    TailCall(body) && (CallAt(body) < |body| ==> body[CallAt(body)].callee in p.entries)
  }

  ghost predicate Dispatching(p: Program) {
    WellFormed(p) && forall b {:trigger Dispatches(p, p.code[b])} :: b in p.code ==> Dispatches(p, p.code[b])
  }

  lemma BranchedIs(p: Program, b: Block)
    requires CodeOk(p) && b in p.code && Dispatches(p, p.code[b])
    ensures var body := p.code[b]; var i := CallAt(body);
            && (i == |body| ==> Branched(p, b) == body)
            && (i < |body| ==>
                 var entry := p.entries[body[i].callee];
                 && entry in p.code
                 && (LayoutNext(p.layout, b) == Some(entry) ==>
                     Branched(p, b) == body[..i] && CanFallThrough(body[..i]))
                 && (LayoutNext(p.layout, b) != Some(entry) ==> Branched(p, b) == body[..i] + [Jump(entry)]))
  {
  }

  lemma BranchedTargets(p: Program, b: Block)
    requires Dispatching(p) && b in p.code
    ensures TargetsPlaced(Joined(p), Branched(p, b))
    ensures !CanFallThrough(p.code[b]) && LayoutNext(p.layout, b).None? ==> !CanFallThrough(Branched(p, b))
  {
    assert TargetsPlaced(p, p.code[b]) && Dispatches(p, p.code[b]);
    BranchedIs(p, b);
  }

  lemma JoinedWellFormed(p: Program)
    requires Dispatching(p)
    ensures WellFormed(Joined(p)) && Start(Joined(p)) == Start(p)
  {
    var q := Joined(p);
    forall b | b in q.code ensures TargetsPlaced(q, q.code[b]) { BranchedTargets(p, b); }
    var last := p.layout[|p.layout| - 1];
    PosIs(p.layout, |p.layout| - 1);
    BranchedTargets(p, last);
  }

  /** The frames under a unit: each returns the value it is handed. */
  ghost predicate Returning(p: Program, stack: seq<(Block, nat)>) {
    forall k :: 0 <= k < |stack| ==>
      stack[k].0 in p.code && stack[k].1 < |p.code[stack[k].0]| && p.code[stack[k].0][stack[k].1].Ret?
  }

  /** A position up to and including the block's dispatch call. */
  ghost predicate Live(p: Program, c: Config) {
    c.Running? ==>
      && c.block in p.code && c.index <= |p.code[c.block]| && c.index <= CallAt(p.code[c.block])
      && Returning(p, c.stack)
  }

  /** The same position of the joined function, which keeps no frames. */
  function Flat(c: Config): Config {
    if c.Halted? then Halted else Running(c.block, c.index, [])
  }

  lemma {:induction false} HaltedEmitsNothing(p: Program, trace: seq<Event>, n: nat)
    requires Emits(p, Halted, trace, n)
    ensures trace == []
    decreases n
  {
    if n > 0 {
      assert EmitsBy(p, Halted, EmitsBy(p, Halted, true, trace, n), trace, n);
      HaltedEmitsNothing(p, trace, n - 1);
    }
  }

  /** A return with frames below it unwinds them all and returns once. */
  lemma {:induction false} Unwinding(p: Program, c: Config, trace: seq<Event>, n: nat)
    requires c.Running? && c.block in p.code && c.index < |p.code[c.block]| && p.code[c.block][c.index].Ret?
        && Returning(p, c.stack)
    requires Emits(p, c, trace, n)
    ensures trace == [] || trace == [Returned]
    decreases n
  {
    if n > 0 {
      var taken := EmitsBy(p, c, true, trace, n);
      assert EmitsBy(p, c, taken, trace, n);
      if c.stack == [] {
        HaltedEmitsNothing(p, Rest(Some(Returned), trace).value, n - 1);
      } else {
        Unwinding(p, Next(p, c, taken).1, trace, n - 1);
      }
    }
  }

  lemma {:induction false} Unwinds(p: Program, c: Config)
    requires c.Running? && c.block in p.code && c.index < |p.code[c.block]| && p.code[c.block][c.index].Ret?
        && Returning(p, c.stack)
    ensures Emits(p, c, [Returned], |c.stack| + 1)
    decreases |c.stack|
  {
    if c.stack == [] {
      assert Emits(p, Halted, [], 0);
      assert EmitsBy(p, c, true, [Returned], 1);
    } else {
      Unwinds(p, Next(p, c, true).1);
      assert EmitsBy(p, c, true, [Returned], |c.stack| + 1);
    }
  }

  ghost predicate AtReturn(p: Program, c: Config) {
    c.Running? && c.block in p.code && c.index < |p.code[c.block]| && p.code[c.block][c.index].Ret?
  }

  /** An instruction that neither calls nor returns ignores the frames. */
  lemma NextIgnoresFrames(p: Program, q: Program, c: Config, taken: bool)
    requires c.Running? && c.block in p.code && c.block in q.code
    requires c.index < |p.code[c.block]| && c.index < |q.code[c.block]|
        && p.code[c.block][c.index] == q.code[c.block][c.index]
    requires !p.code[c.block][c.index].Call? && !p.code[c.block][c.index].Ret?
    ensures var d := Next(p, c, taken).1;
            && Next(q, Flat(c), taken) == (Next(p, c, taken).0, Flat(d))
            && d.Running? && d.stack == c.stack
            && (d == Running(c.block, c.index + 1, c.stack)
                || (p.code[c.block][c.index].IsBranch() && d == Running(p.code[c.block][c.index].target, 0, c.stack)))
  {
  }

  lemma JoinedStepWithin(p: Program, c: Config, taken: bool)
    requires Dispatching(p) && Live(p, c) && c.Running? && !AtReturn(p, c)
    requires c.index < CallAt(p.code[c.block])
    ensures Live(p, Next(p, c, taken).1)
    ensures Next(Joined(p), Flat(c), taken) == (Next(p, c, taken).0, Flat(Next(p, c, taken).1))
  {
    var body := p.code[c.block];
    assert TargetsPlaced(p, body) && Dispatches(p, body);
    BranchedIs(p, c.block);
    assert Joined(p).code[c.block][c.index] == body[c.index];
    NextIgnoresFrames(p, Joined(p), c, taken);
  }

  lemma JoinedStepEnd(p: Program, c: Config, taken: bool)
    requires Dispatching(p) && Live(p, c) && c.Running?
    requires c.index == CallAt(p.code[c.block]) == |p.code[c.block]|
    ensures Live(p, Next(p, c, taken).1)
    ensures Next(Joined(p), Flat(c), taken) == (Next(p, c, taken).0, Flat(Next(p, c, taken).1))
  {
    assert Dispatches(p, p.code[c.block]);
    BranchedIs(p, c.block);
    assert Joined(p).code[c.block] == p.code[c.block];
  }

  lemma JoinedStepCall(p: Program, c: Config, taken: bool)
    requires Dispatching(p) && Live(p, c) && c.Running?
    requires c.index == CallAt(p.code[c.block]) < |p.code[c.block]|
    ensures Live(p, Next(p, c, taken).1)
    ensures Next(Joined(p), Flat(c), taken) == (None, Flat(Next(p, c, taken).1)) && Next(p, c, taken).0 == None
  {
    var body := p.code[c.block];
    assert Dispatches(p, body);
    BranchedIs(p, c.block);
    assert Returning(p, c.stack + [(c.block, c.index + 1)]);
  }

  /** Away from returns both functions step alike. */
  lemma JoinedStep(p: Program, c: Config, taken: bool)
    requires Dispatching(p) && Live(p, c) && !AtReturn(p, c)
    ensures Live(p, Next(p, c, taken).1)
    ensures Next(Joined(p), Flat(c), taken) == (Next(p, c, taken).0, Flat(Next(p, c, taken).1))
  {
    if c.Running? {
      if c.index == CallAt(p.code[c.block]) < |p.code[c.block]| {
        JoinedStepCall(p, c, taken);
      } else if c.index < CallAt(p.code[c.block]) {
        JoinedStepWithin(p, c, taken);
      } else {
        JoinedStepEnd(p, c, taken);
      }
    }
  }

  lemma JoinedReturn(p: Program, c: Config)
    requires Dispatching(p) && Live(p, c) && AtReturn(p, c)
    ensures AtReturn(Joined(p), Flat(c))
  {
    var body := p.code[c.block];
    assert Dispatches(p, body);
    BranchedIs(p, c.block);
    assert c.index < CallAt(body);
    assert Joined(p).code[c.block][c.index] == body[c.index];
  }

  lemma {:induction false} JoinedForward(p: Program, c: Config, trace: seq<Event>, n: nat)
    requires Dispatching(p) && Live(p, c) && Emits(p, c, trace, n)
    ensures Behaves(Joined(p), Flat(c), trace)
    decreases n
  {
    var q := Joined(p);
    if n == 0 {
      assert Emits(q, Flat(c), trace, 0);
    } else if AtReturn(p, c) {
      Unwinding(p, c, trace, n);
      JoinedReturn(p, c);
      Unwinds(q, Flat(c));
      assert Emits(q, Flat(c), [], 0);
    } else {
      var taken := EmitsBy(p, c, true, trace, n);
      assert EmitsBy(p, c, taken, trace, n);
      var (e, d) := Next(p, c, taken);
      JoinedStep(p, c, taken);
      JoinedForward(p, d, Rest(e, trace).value, n - 1);
      var m: nat :| Emits(q, Flat(d), Rest(e, trace).value, m);
      assert EmitsBy(q, Flat(c), taken, trace, m + 1);
      assert Emits(q, Flat(c), trace, m + 1);
    }
  }

  lemma {:induction false} JoinedBackward(p: Program, c: Config, trace: seq<Event>, n: nat)
    requires Dispatching(p) && Live(p, c) && Emits(Joined(p), Flat(c), trace, n)
    ensures Behaves(p, c, trace)
    decreases n
  {
    var q := Joined(p);
    if n == 0 {
      assert Emits(p, c, trace, 0);
    } else if AtReturn(p, c) {
      JoinedReturn(p, c);
      Unwinding(q, Flat(c), trace, n);
      Unwinds(p, c);
      assert Emits(p, c, [], 0);
    } else {
      var taken := EmitsBy(q, Flat(c), true, trace, n);
      assert EmitsBy(q, Flat(c), taken, trace, n);
      var (e, d) := Next(p, c, taken);
      JoinedStep(p, c, taken);
      JoinedBackward(p, d, Rest(e, trace).value, n - 1);
      var m: nat :| Emits(p, d, Rest(e, trace).value, m);
      assert EmitsBy(p, c, taken, trace, m + 1);
      assert Emits(p, c, trace, m + 1);
    }
  }

  /** Replacing terminal calls by edges shows the same runs as the nested calls. */
  lemma JoiningKeepsMeaning(p: Program)
    requires Dispatching(p)
    ensures WellFormed(Joined(p)) && Equivalent(p, Joined(p))
  {
    var q := Joined(p);
    JoinedWellFormed(p);
    forall trace: seq<Event> ensures Behaves(p, Start(p), trace) <==> Behaves(q, Start(q), trace) {
      if Behaves(p, Start(p), trace) {
        var n: nat :| Emits(p, Start(p), trace, n);
        JoinedForward(p, Start(p), trace, n);
      }
      if Behaves(q, Start(q), trace) {
        var n: nat :| Emits(q, Start(q), trace, n);
        JoinedBackward(p, Start(p), trace, n);
      }
    }
  }
}
