/** Machine functions after register allocation: blocks in a layout, branches between
    them, terminal calls to allocation units, and the events a run shows.

    Two programs mean the same when every finite sequence of events (non-branch
    instructions, branch decisions, the final return) of one is one of the other. */
module Machine {
  import opened Wrappers

  type Block = nat

  datatype Instr =
    | Op(name: nat, slots: nat)
    | Cond(test: nat, target: Block)
    | Jump(target: Block)
    | Ret
    | Call(callee: nat)
  {
    predicate IsBranch() { Cond? || Jump? }

    /** 8-byte encoding slots; metadata and inline assembly report zero. */
    function Slots(): nat {
      if Op? then slots else 1
    }

    function To(t: Block): Instr
      requires IsBranch()
    {
      if Cond? then Cond(test, t) else Jump(t)
    }
  }

  /** `limit` is above every block in use; `entries` gives each unit's first block. */
  datatype Program = Program(layout: seq<Block>, code: map<Block, seq<Instr>>, entries: map<nat, Block>, limit: Block)

  predicate CanFallThrough(body: seq<Instr>) {
    body == [] || !(body[|body| - 1].Jump? || body[|body| - 1].Ret?)
  }

  /** The index of `b`, the first one if there are several. */
  function Pos(s: seq<Block>, b: Block): (i: nat)
    requires b in s
    ensures i < |s| && s[i] == b
    ensures b !in s[..i]
  {
    if s[0] == b then 0 else 1 + Pos(s[1..], b)
  }

  /** The block laid out directly after `b`. */
  function LayoutNext(layout: seq<Block>, b: Block): Option<Block> {
    if b !in layout then None
    else if Pos(layout, b) + 1 < |layout| then Some(layout[Pos(layout, b) + 1]) else None
  }

  lemma PosIs(s: seq<Block>, i: nat)
    requires Unique(s) && i < |s|
    ensures Pos(s, s[i]) == i
  {
  }

  ghost predicate TargetsPlaced(p: Program, body: seq<Instr>) {
    forall i :: 0 <= i < |body| && body[i].IsBranch() ==> body[i].target in p.code
  }

  /** Each block is laid out once and has code. */
  ghost predicate LayoutOk(p: Program) {
    && Unique(p.layout)
    && p.layout != []
    && (forall b :: b in p.layout <==> b in p.code)
    && (forall b :: b in p.code ==> b < p.limit)
  }

  /** Branches and calls go to blocks that exist. */
  ghost predicate CodeOk(p: Program) {
    && (forall b {:trigger TargetsPlaced(p, p.code[b])} :: b in p.code ==> TargetsPlaced(p, p.code[b]))
    && (forall u :: u in p.entries ==> p.entries[u] in p.code)
  }

  /** Control does not run off the end of the function. */
  ghost predicate EndOk(p: Program) {
    p.layout != [] ==>
      var last := p.layout[|p.layout| - 1];
      last in p.code && !CanFallThrough(p.code[last])
  }

  ghost predicate WellFormed(p: Program) {
    LayoutOk(p) && CodeOk(p) && EndOk(p)
  }

  // ----- running a program -----

  datatype Event = Did(name: nat) | Decided(test: nat, taken: bool) | Returned

  datatype Config = Running(block: Block, index: nat, stack: seq<(Block, nat)>) | Halted

  function Start(p: Program): Config {
    if p.layout == [] then Halted else Running(p.layout[0], 0, [])
  }

  /** One step; `taken` decides a conditional branch and is otherwise ignored. */
  function Next(p: Program, c: Config, taken: bool): (Option<Event>, Config) {
    if c.Halted? || c.block !in p.code then (None, Halted)
    else
      var body := p.code[c.block];
      if c.index < |body| then
        match body[c.index]
        case Op(n, _) => (Some(Did(n)), Running(c.block, c.index + 1, c.stack))
        case Cond(t, target) =>
          var next := if taken then Running(target, 0, c.stack) else Running(c.block, c.index + 1, c.stack);
          (Some(Decided(t, taken)), next)
        case Jump(target) => (None, Running(target, 0, c.stack))
        case Ret =>
          if c.stack == [] then (Some(Returned), Halted)
          else
            var top := c.stack[|c.stack| - 1];
            (None, Running(top.0, top.1, c.stack[..|c.stack| - 1]))
        case Call(u) =>
          if u in p.entries then (None, Running(p.entries[u], 0, c.stack + [(c.block, c.index + 1)]))
          else (None, Halted)
      else if c.index == |body| && CanFallThrough(body) then
        match LayoutNext(p.layout, c.block)
        case None => (None, Halted)
        case Some(n) => (None, Running(n, 0, c.stack))
      else (None, Halted)
  }

  /** A block without a closing call falls through exactly when its last instruction, if a conditional not
      taken, steps past itself. */
  lemma FallsThroughExactly(p: Program, b: Block, stack: seq<(Block, nat)>)
    requires b in p.code && p.code[b] != [] && !p.code[b][|p.code[b]| - 1].Call?
    requires forall k :: 0 <= k < |stack| ==> stack[k].0 != b
    ensures var end := |p.code[b]|;
            CanFallThrough(p.code[b]) <==> Next(p, Running(b, end - 1, stack), false).1 == Running(b, end, stack)
  {
  }

  /** What is left of a trace after event `e`. */
  function Rest(e: Option<Event>, trace: seq<Event>): Option<seq<Event>> {
    if e.None? then Some(trace)
    else if trace != [] && trace[0] == e.value then Some(trace[1..])
    else None
  }

  /** Some run of `n` steps from `c` shows exactly `trace`. */
  ghost predicate Emits(p: Program, c: Config, trace: seq<Event>, n: nat)
    decreases n, 1
  {
    if n == 0 then trace == []
    else EmitsBy(p, c, true, trace, n) || EmitsBy(p, c, false, trace, n)
  }

  ghost predicate EmitsBy(p: Program, c: Config, taken: bool, trace: seq<Event>, n: nat)
    requires n > 0
    decreases n, 0
  {
    var (e, d) := Next(p, c, taken);
    Rest(e, trace).Some? && Emits(p, d, Rest(e, trace).value, n - 1)
  }

  ghost predicate Behaves(p: Program, c: Config, trace: seq<Event>) {
    exists n: nat :: Emits(p, c, trace, n)
  }

  /** The two programs show the same traces from their first blocks. */
  ghost predicate Equivalent(p: Program, q: Program) {
    forall trace: seq<Event> :: Behaves(p, Start(p), trace) <==> Behaves(q, Start(q), trace)
  }

  // ----- a rewriting that keeps every position is an equivalence -----

  /** `q` goes from `c` to `d` in `k` steps that show nothing. */
  ghost predicate Silently(q: Program, c: Config, d: Config, k: nat)
    decreases k
  {
    if k == 0 then c == d
    else
      && Next(q, c, true) == Next(q, c, false) && Next(q, c, true).0 == None
      && Silently(q, Next(q, c, true).1, d, k - 1)
  }

  /** The blocks a configuration names exist. */
  ghost predicate Known(p: Program, c: Config) {
    c.Running? ==> c.block in p.code && forall i :: 0 <= i < |c.stack| ==> c.stack[i].0 in p.code
  }

  /** From a position of `p`, `q` shows the same event and reaches `p`'s next position. */
  ghost predicate Matches(p: Program, q: Program, c: Config, taken: bool) {
    && Next(p, c, taken).0 == Next(q, c, taken).0
    && exists k: nat :: Silently(q, Next(q, c, taken).1, Next(p, c, taken).1, k)
  }

  lemma SameStepMatches(p: Program, q: Program, c: Config, taken: bool)
    requires Next(p, c, taken) == Next(q, c, taken)
    ensures Matches(p, q, c, taken)
  {
    assert Silently(q, Next(q, c, taken).1, Next(p, c, taken).1, 0);
  }

  /** Programs that agree on a block and on what follows it step alike there. */
  lemma SameBlockSteps(p: Program, q: Program, c: Config, taken: bool)
    requires c.Running? ==> c.block in p.code && c.block in q.code && p.code[c.block] == q.code[c.block]
    requires c.Running? && CanFallThrough(p.code[c.block]) ==>
               LayoutNext(p.layout, c.block) == LayoutNext(q.layout, c.block)
    requires p.entries == q.entries
    ensures Next(p, c, taken) == Next(q, c, taken)
  {
    hide LayoutNext, CanFallThrough;
  }

  ghost predicate Simulates(p: Program, q: Program) {
    forall c: Config, taken: bool :: Known(p, c) ==> Matches(p, q, c, taken)
  }

  lemma NextKnown(p: Program, c: Config, taken: bool)
    requires WellFormed(p) && Known(p, c)
    ensures Known(p, Next(p, c, taken).1)
  {
    if c.Running? {
      var body := p.code[c.block];
      if c.index < |body| {
        assert TargetsPlaced(p, body);
      }
    }
  }

  lemma {:induction false} SilentPrefix(q: Program, c: Config, d: Config, k: nat, trace: seq<Event>, n: nat)
    requires Silently(q, c, d, k) && Emits(q, d, trace, n)
    ensures Emits(q, c, trace, n + k)
    decreases k
  {
    if k > 0 {
      SilentPrefix(q, Next(q, c, true).1, d, k - 1, trace, n);
      assert EmitsBy(q, c, true, trace, n + k);
    }
  }

  lemma {:induction false} SilentSuffix(q: Program, c: Config, d: Config, k: nat, trace: seq<Event>, n: nat)
    requires Silently(q, c, d, k) && Emits(q, c, trace, n)
    ensures if n < k then trace == [] else Emits(q, d, trace, n - k)
    decreases k
  {
    if k > 0 && n > 0 {
      SilentSuffix(q, Next(q, c, true).1, d, k - 1, trace, n - 1);
    }
  }

  lemma {:induction false} SimulationForward(p: Program, q: Program, c: Config, trace: seq<Event>, n: nat)
    requires WellFormed(p) && Simulates(p, q) && Known(p, c) && Emits(p, c, trace, n)
    ensures Behaves(q, c, trace)
    decreases n
  {
    if n == 0 {
      assert Emits(q, c, trace, 0);
    } else {
      var taken := EmitsBy(p, c, true, trace, n);
      assert EmitsBy(p, c, taken, trace, n);
      var (e, d) := Next(p, c, taken);
      var rest := Rest(e, trace).value;
      NextKnown(p, c, taken);
      SimulationForward(p, q, d, rest, n - 1);
      assert Matches(p, q, c, taken);
      var k: nat :| Silently(q, Next(q, c, taken).1, d, k);
      var m: nat :| Emits(q, d, rest, m);
      SilentPrefix(q, Next(q, c, taken).1, d, k, rest, m);
      assert EmitsBy(q, c, taken, trace, m + k + 1);
      assert Emits(q, c, trace, m + k + 1);
    }
  }

  lemma {:induction false} SimulationBackward(p: Program, q: Program, c: Config, trace: seq<Event>, n: nat)
    requires WellFormed(p) && Simulates(p, q) && Known(p, c) && Emits(q, c, trace, n)
    ensures Behaves(p, c, trace)
    decreases n
  {
    if n == 0 {
      assert Emits(p, c, trace, 0);
    } else {
      var taken := EmitsBy(q, c, true, trace, n);
      assert EmitsBy(q, c, taken, trace, n);
      var (e, d') := Next(q, c, taken);
      var rest := Rest(e, trace).value;
      NextKnown(p, c, taken);
      assert Matches(p, q, c, taken);
      var d := Next(p, c, taken).1;
      var k: nat :| Silently(q, d', d, k);
      SilentSuffix(q, d', d, k, rest, n - 1);
      if n - 1 < k {
        assert Emits(p, d, rest, 0);
      } else {
        SimulationBackward(p, q, d, rest, n - 1 - k);
      }
      var m: nat :| Emits(p, d, rest, m);
      assert EmitsBy(p, c, taken, trace, m + 1);
      assert Emits(p, c, trace, m + 1);
    }
  }

  lemma SimulationIsEquivalence(p: Program, q: Program)
    requires WellFormed(p) && Simulates(p, q) && Start(p) == Start(q)
    ensures Equivalent(p, q)
  {
    forall trace: seq<Event>
      ensures Behaves(p, Start(p), trace) <==> Behaves(q, Start(q), trace)
    {
      if Behaves(p, Start(p), trace) {
        var n: nat :| Emits(p, Start(p), trace, n);
        SimulationForward(p, q, Start(p), trace, n);
      }
      if Behaves(q, Start(q), trace) {
        var n: nat :| Emits(q, Start(q), trace, n);
        SimulationBackward(p, q, Start(p), trace, n);
      }
    }
  }

  lemma EquivalentTransitive(p: Program, q: Program, r: Program)
    requires Equivalent(p, q) && Equivalent(q, r)
    ensures Equivalent(p, r)
  {
    forall trace: seq<Event>
      ensures Behaves(p, Start(p), trace) <==> Behaves(r, Start(r), trace)
    {
      assert Behaves(p, Start(p), trace) <==> Behaves(q, Start(q), trace);
    }
  }
}
