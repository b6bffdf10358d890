/** The whole machine pass on cpu=v4: a dispatch tree flattened into one function, then relaxed. */
module FlattenPass {
  import opened Wrappers
  import opened Machine
  import opened Hierarchy
  import opened Relaxation
  import opened Layout
  import F = Flatten
  import Pruning

  /** At most one conditional, last or directly before the closing jump or the dispatch call. */
  ghost predicate Shaped(body: seq<Instr>) {
    forall i :: 0 <= i < |body| && body[i].Cond? ==>
      i + 1 == |body| || (i + 2 == |body| && body[|body| - 1].Jump?) || (i + 3 == |body| && body[|body| - 2].Call?)
  }

  lemma JoinedIsSimple(p: Program)
    requires F.Dispatching(p) && forall b :: b in p.code ==> Shaped(p.code[b])
    ensures Simple(F.Joined(p))
  {
    forall b | b in p.code ensures OneConditional(F.Branched(p, b)) { BranchedIsSimple(p, b); }
  }

  lemma BranchedIsSimple(p: Program, b: Block)
    requires F.Dispatching(p) && b in p.code && Shaped(p.code[b])
    ensures OneConditional(F.Branched(p, b))
  {
    var body, joined := p.code[b], F.Branched(p, b);
    assert F.Dispatches(p, body);
    F.BranchedIs(p, b);
    forall i | 0 <= i < |joined| && joined[i].Cond?
      ensures i + 1 == |joined| || (i + 2 == |joined| && joined[|joined| - 1].Jump?)
    {
      assert joined[i] == body[i];
      if F.CallAt(body) < |body| { assert body[|body| - 1].Ret?; }
    }
  }

  lemma PrunedIsSimple(p: Program, live: set<Block>)
    requires Simple(p)
    ensures Simple(Pruning.Pruned(p, live))
  {
    var q := Pruning.Pruned(p, live);
    forall b | b in q.code ensures OneConditional(q.code[b]) { assert OneConditional(p.code[b]); }
  }

  datatype PassError = Contract(flatten: FlattenError) | Options(relax: Failure)

  /** A unit called at two sites, or one the root's dispatch tree lacks. */
  ghost predicate Broken(d: Dispatch, e: FlattenError) {
    match e
    case MultipleCallSites(name) => CalledTwice(d, name)
    case AbsentFromHierarchy(u) =>
      u in d.units && exists tree: Tree :: tree.top == d.root && Fits(d, tree) && u !in Preorder(tree)
  }

  /** Flatten, then relax: the result shows exactly the runs of the nested calls and every branch can be
      encoded; refused only for a broken contract or a span limit below 1. */
  method FlattenAndRelax(d: Dispatch, cpu: Cpu) returns (r: Result<Program, PassError>)
    requires InputOk(d) && cpu.v4 && forall b :: b in d.code ==> F.TailCall(d.code[b]) && Shaped(d.code[b])
    ensures r.Ok? ==> WellFormed(r.value) && Equivalent(Cloned(d), r.value) && Relaxed(r.value, cpu)
    ensures r.Err? && r.error.Options? ==> cpu.conditionalSpan < 1
    ensures r.Err? && r.error.Contract? ==> Broken(d, r.error.flatten)
  {
    var flat, tree, live := FlattenUnits(d);
    if flat.Err? { return Err(Contract(flat.error)); }
    FlatIsSimple(d, Preorder(tree), live);
    hide InputOk, WellFormed, Equivalent, Simple, Relaxed, Order, Fits, F.TailCall, Shaped;
    var function_ := new MachineFunction(flat.value);
    var relaxed := function_.RelaxV4(cpu);
    if relaxed.Err? { return Err(Options(relaxed.error)); }
    var program := function_.Value();
    EquivalentTransitive(Cloned(d), flat.value, program);
    return Ok(program);
  }

  lemma FlatIsSimple(d: Dispatch, order: seq<Unit>, live: set<Block>)
    requires InputOk(d) && Order(d, order) && forall b :: b in d.code ==> F.TailCall(d.code[b]) && Shaped(d.code[b])
    ensures Simple(Pruning.Pruned(F.Joined(Ordered(d, order)), live))
  {
    OrderedDispatching(d, order);
    JoinedIsSimple(Ordered(d, order));
    PrunedIsSimple(F.Joined(Ordered(d, order)), live);
  }
}
