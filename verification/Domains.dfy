/** Dividing a module's functions into native code and Capsule code: two closures under direct calls,
    references in constants and type-matched indirect calls, joined only by explicit boundary calls. */
module Domains {
  import opened Wrappers

  /** A value an operand can be: a function (through any casts), a constant with operands, or neither.
      Constants form a graph, possibly cyclic through global initializers. */
  datatype Value = FunctionValue(f: nat) | Constant(operands: seq<nat>) | Local

  datatype Callee = Boundary(target: Option<nat>) | Asm | Direct(f: nat) | Indirect(kind: nat) | Numbered

  /** An instruction: its operands, and its callee if it is a call. */
  datatype Instr = Instr(operands: seq<nat>, call: Option<Callee>)

  datatype Func = Func(defined: bool, entry: bool, driver: bool, addressTaken: bool, kind: nat, body: seq<Instr>)

  datatype Module = Module(funcs: seq<Func>, values: seq<Value>, exitCallers: set<nat>)

  predicate ValuesOk(m: Module) {
    forall v :: 0 <= v < |m.values| ==>
      match m.values[v]
      case FunctionValue(f) => f < |m.funcs|
      case Constant(ops) => forall k :: 0 <= k < |ops| ==> ops[k] < |m.values|
      case Local => true
  }

  predicate InstrOk(m: Module, i: Instr) {
    && (forall k :: 0 <= k < |i.operands| ==> i.operands[k] < |m.values|)
    && (i.call.Some? && i.call.value.Direct? ==> i.call.value.f < |m.funcs|)
    && (i.call.Some? && i.call.value.Boundary? && i.call.value.target.Some? ==> i.call.value.target.value < |m.funcs|)
  }

  predicate ModuleOk(m: Module) {
    && ValuesOk(m) && (forall f :: f in m.exitCallers ==> f < |m.funcs|)
    && forall f :: 0 <= f < |m.funcs| ==> forall k :: 0 <= k < |m.funcs[f].body| ==> InstrOk(m, m.funcs[f].body[k])
  }

  predicate IsBoundary(i: Instr) { i.call.Some? && i.call.value.Boundary? }

  predicate Defined(m: Module, f: nat) { f < |m.funcs| && m.funcs[f].defined }

  /** Code whose address escapes into tables and callbacks. */
  predicate Escapes(m: Module, f: nat) {
    Defined(m, f) && !m.funcs[f].entry && !m.funcs[f].driver && m.funcs[f].addressTaken
  }

  // ----- references in constants -----

  ghost predicate ConstantsClosed(m: Module, s: set<nat>) {
    forall v, k :: v in s && v < |m.values| && m.values[v].Constant? && 0 <= k < |m.values[v].operands| ==>
        m.values[v].operands[k] in s
  }

  /** `v` is found from `from` by following constants: it is in every set closed under them. */
  ghost predicate Found(m: Module, from: set<nat>, v: nat) {
    forall s: set<nat> :: ConstantsClosed(m, s) && from <= s ==> v in s
  }

  ghost predicate Refers(m: Module, from: set<nat>, f: nat) {
    exists v: nat :: v < |m.values| && m.values[v] == FunctionValue(f) && Found(m, from, v)
  }

  lemma FoundStep(m: Module, from: set<nat>, v: nat, k: nat)
    requires Found(m, from, v) && v < |m.values| && m.values[v].Constant? && k < |m.values[v].operands|
    ensures Found(m, from, m.values[v].operands[k])
  {
    forall s: set<nat> | ConstantsClosed(m, s) && from <= s ensures m.values[v].operands[k] in s {
      assert v in s;
    }
  }

  /** What the traversal has seen and collected, complete except below the values still open. */
  ghost predicate Collected(m: Module, from: set<nat>, seen: set<nat>, open: set<nat>, work: seq<nat>, start: nat) {
    && start <= |work|
    && (forall v :: v in seen ==> v < |m.values| && Found(m, from, v))
    && (forall v :: v in seen && m.values[v].FunctionValue? && Defined(m, m.values[v].f) ==>
        m.values[v].f in work[start..])
    && (forall f :: f in work[start..] ==> Defined(m, f) && Refers(m, from, f))
    && (forall v, k :: v in seen && v !in open && m.values[v].Constant? && 0 <= k < |m.values[v].operands| ==>
        m.values[v].operands[k] in seen)
  }

  ghost function Below(n: nat): (s: set<nat>)
    ensures forall u: nat :: u in s <==> u < n
  {
    if n == 0 then {} else Below(n - 1) + {n - 1}
  }

  class References {
    var seen: set<nat>
    var work: seq<nat>

    constructor (pending: seq<nat>)
      ensures seen == {} && work == pending
    {
      seen, work := {}, pending;
    }

    /** Depth-first over constants, stopping at functions. */
    method Add(m: Module, v: nat, ghost from: set<nat>, ghost open: set<nat>, ghost start: nat)
      requires ValuesOk(m) && v < |m.values| && Found(m, from, v) && Collected(m, from, seen, open, work, start)
          && open <= seen
      modifies this
      ensures Collected(m, from, seen, open, work, start) && v in seen && old(seen) <= seen && old(work) <= work
      decreases Below(|m.values|) - seen
    {
      if v in seen { return; }
      assert v in Below(|m.values|) - seen;
      seen := seen + {v};
      match m.values[v] {
        case FunctionValue(f) =>
          if m.funcs[f].defined {
            ghost var was := work;
            work := work + [f];
            assert work[start..] == was[start..] + [f];
            assert Refers(m, from, f);
          }
        case Constant(ops) =>
          for k := 0 to |ops|
            invariant Collected(m, from, seen, open + {v}, work, start) && old(seen) + {v} <= seen && old(work) <= work
            invariant forall j :: 0 <= j < k ==> ops[j] in seen
          {
            FoundStep(m, from, v, k);
            Add(m, ops[k], from, open + {v}, start);
          }
        case Local =>
      }
    }
  }

  function ToSet(s: seq<nat>): set<nat> { set x | x in s }

  /** Functions an instruction's operands refer to, appended to the work list. */
  method AddOperands(m: Module, operands: seq<nat>, pending: seq<nat>) returns (work: seq<nat>)
    requires ValuesOk(m) && forall k :: 0 <= k < |operands| ==> operands[k] < |m.values|
    ensures pending <= work
    ensures forall f :: f in work[|pending|..] <==> Defined(m, f) && Refers(m, ToSet(operands), f)
  {
    var refs := new References(pending);
    ghost var from, start := ToSet(operands), |pending|;
    for k := 0 to |operands|
      invariant Collected(m, from, refs.seen, {}, refs.work, start) && pending <= refs.work
      invariant forall j :: 0 <= j < k ==> operands[j] in refs.seen
    {
      assert operands[k] in from;
      refs.Add(m, operands[k], from, {}, start);
    }
    work := refs.work;
    assert ConstantsClosed(m, refs.seen) && from <= refs.seen;
    forall f | Defined(m, f) && Refers(m, from, f) ensures f in work[start..] {
      var v: nat :| v < |m.values| && m.values[v] == FunctionValue(f) && Found(m, from, v);
      assert v in refs.seen;
    }
  }

  // ----- edges -----

  type Targets = map<nat, seq<nat>>

  predicate Listed(targets: Targets, kind: nat, g: nat) { kind in targets && g in targets[kind] }

  /** The functions an indirect call of each type may reach. */
  ghost predicate TargetsOk(m: Module, targets: Targets) {
    forall kind: nat, g: nat :: Listed(targets, kind, g) <==> Escapes(m, g) && m.funcs[g].kind == kind
  }

  method FindIndirectTargets(m: Module) returns (targets: Targets)
    ensures TargetsOk(m, targets)
    ensures forall kind: nat, g: nat :: Listed(targets, kind, g) <==>
        g < |m.funcs| && m.funcs[g].defined && m.funcs[g].addressTaken && !m.funcs[g].entry && !m.funcs[g].driver
        && m.funcs[g].kind == kind
  {
    targets := map[];
    for f := 0 to |m.funcs|
      invariant forall kind: nat, g: nat :: Listed(targets, kind, g) <==>
          g < f && Escapes(m, g) && m.funcs[g].kind == kind
    {
      ghost var was := targets;
      if Escapes(m, f) {
        var kind := m.funcs[f].kind;
        targets := targets[kind := (if kind in targets then targets[kind] else []) + [f]];
      }
      assert forall kind: nat, g: nat :: Listed(targets, kind, g) <==>
          Listed(was, kind, g) || (g == f && Escapes(m, f) && kind == m.funcs[f].kind);
    }
  }

  /** One instruction draws function `g` into its function's domain. */
  ghost predicate Draws(m: Module, i: Instr, g: nat) {
    && !IsBoundary(i) && Defined(m, g)
    && (|| Refers(m, ToSet(i.operands), g)
        || i.call == Some(Direct(g))
        || (i.call.Some? && i.call.value.Indirect? && Escapes(m, g) && m.funcs[g].kind == i.call.value.kind))
  }

  ghost predicate Edge(m: Module, f: nat, g: nat) {
    f < |m.funcs| && exists k :: 0 <= k < |m.funcs[f].body| && Draws(m, m.funcs[f].body[k], g)
  }

  predicate HasBoundary(m: Module, f: nat) {
    f < |m.funcs| && exists k :: 0 <= k < |m.funcs[f].body| && IsBoundary(m.funcs[f].body[k])
  }

  method AddInstruction(m: Module, targets: Targets, i: Instr, pending: seq<nat>) returns (work: seq<nat>)
    requires ModuleOk(m) && TargetsOk(m, targets) && InstrOk(m, i)
    ensures pending <= work && forall g :: g in work[|pending|..] <==> Draws(m, i, g)
  {
    if IsBoundary(i) { return pending; }
    work := AddOperands(m, i.operands, pending);
    ghost var refs := work;
    if i.call.None? { return; }
    var more: seq<nat> := [];
    match i.call.value {
      case Direct(f) =>
        if m.funcs[f].defined { more := [f]; }
      case Indirect(kind) =>
        if kind in targets { more := targets[kind]; }
        assert forall g: nat :: g in more <==> Listed(targets, kind, g);
      case Boundary(_) =>
      case Asm =>
      case Numbered =>
    }
    work := work + more;
    assert work[|pending|..] == refs[|pending|..] + more;
  }

  /** Everything function `f` draws in, or the discovery of a boundary call inside the Capsule. */
  method AddBody(m: Module, targets: Targets, f: nat, native: bool, pending: seq<nat>)
    returns (ok: bool, work: seq<nat>)
    requires ModuleOk(m) && TargetsOk(m, targets) && f < |m.funcs|
    ensures ok <==> native || !HasBoundary(m, f)
    ensures ok ==> pending <= work && forall g :: g in work[|pending|..] <==> Edge(m, f, g)
  {
    hide Draws, TargetsOk, ModuleOk, InstrOk;
    work := pending;
    var body := m.funcs[f].body;
    for k := 0 to |body|
      invariant pending <= work
      invariant forall g :: g in work[|pending|..] <==> exists j :: 0 <= j < k && Draws(m, body[j], g)
      invariant native || forall j :: 0 <= j < k ==> !IsBoundary(body[j])
    {
      if IsBoundary(body[k]) && !native { return false, []; }
      InstrFits(m, f, k);
      ghost var was := work;
      work := AddInstruction(m, targets, body[k], work);
      assert work[|pending|..] == was[|pending|..] + work[|was|..];
    }
    ok := true;
  }

  lemma InstrFits(m: Module, f: nat, k: nat)
    requires ModuleOk(m) && f < |m.funcs| && k < |m.funcs[f].body|
    ensures InstrOk(m, m.funcs[f].body[k])
  {
  }

  // ----- closures -----

  /** The set holds its defined roots and whatever its members draw in. */
  ghost predicate Closed(m: Module, roots: set<nat>, s: set<nat>) {
    && (forall f :: f in roots && Defined(m, f) ==> f in s)
    && (forall f: nat, g: nat :: f in s && Edge(m, f, g) ==> g in s)
  }

  ghost predicate Least(m: Module, roots: set<nat>, s: set<nat>) {
    Closed(m, roots, s) && forall t: set<nat> :: Closed(m, roots, t) ==> s <= t
  }

  /** `f` is in every closed set. */
  ghost predicate Forced(m: Module, roots: set<nat>, f: nat) {
    forall t: set<nat> :: Closed(m, roots, t) ==> f in t
  }

  /** The closure of the roots, or a Capsule function that makes a boundary call. */
  method Reach(m: Module, targets: Targets, roots: seq<nat>, native: bool)
    returns (r: Result<set<nat>, nat>)
    requires ModuleOk(m) && TargetsOk(m, targets)
    ensures r.Ok? ==> Least(m, ToSet(roots), r.value)
    ensures r.Ok? ==> forall f :: f in r.value ==> Defined(m, f) && (native || !HasBoundary(m, f))
    ensures r.Err? ==> !native && HasBoundary(m, r.error) && Forced(m, ToSet(roots), r.error)
  {
    hide TargetsOk, ModuleOk, Edge, HasBoundary;
    ghost var from := ToSet(roots);
    var reached: set<nat> := {};
    var work := roots;
    while work != []
      invariant reached <= Below(|m.funcs|)
      invariant Progress(m, from, reached, work)
      invariant forall f :: f in reached ==> Defined(m, f) && (native || !HasBoundary(m, f))
      decreases Below(|m.funcs|) - reached, |work|
    {
      var f := work[|work| - 1];
      var rest := work[..|work| - 1];
      assert work == rest + [f];
      if f >= |m.funcs| || !m.funcs[f].defined || f in reached {
        DropPending(m, from, reached, rest, f);
        work := rest;
      } else {
        assert f in Below(|m.funcs|) - reached;
        var ok, more := AddBody(m, targets, f, native, rest);
        if !ok {
          assert f in work && Forced(m, from, f);
          return Err(f);
        }
        TakePending(m, from, reached, rest, f, more);
        reached := reached + {f};
        work := more;
      }
    }
    Finished(m, from, reached);
    return Ok(reached);
  }

  /** Roots and drawn-in functions are reached or pending, and all of them are forced. */
  ghost predicate Progress(m: Module, roots: set<nat>, reached: set<nat>, work: seq<nat>) {
    && (forall f :: f in reached ==> Forced(m, roots, f))
    && (forall f :: f in work && Defined(m, f) ==> Forced(m, roots, f))
    && (forall f :: f in roots && Defined(m, f) ==> f in reached || f in work)
    && (forall f: nat, g: nat :: f in reached && Edge(m, f, g) ==> g in reached || g in work)
  }

  lemma EdgeDefined(m: Module, f: nat, g: nat)
    requires Edge(m, f, g)
    ensures Defined(m, g)
  {
  }

  lemma DropPending(m: Module, roots: set<nat>, reached: set<nat>, rest: seq<nat>, f: nat)
    requires Progress(m, roots, reached, rest + [f]) && (!Defined(m, f) || f in reached)
    ensures Progress(m, roots, reached, rest)
  {
    hide Edge, Forced;
    forall x: nat, g: nat | x in reached && Edge(m, x, g) ensures g in reached || g in rest { EdgeDefined(m, x, g); }
  }

  lemma TakePending(m: Module, roots: set<nat>, reached: set<nat>, rest: seq<nat>, f: nat, more: seq<nat>)
    requires Progress(m, roots, reached, rest + [f]) && Defined(m, f)
    requires rest <= more && forall g :: g in more[|rest|..] <==> Edge(m, f, g)
    ensures Progress(m, roots, reached + {f}, more)
  {
    hide Edge;
    assert more == rest + more[|rest|..];
    assert f in rest + [f];
    assert Forced(m, roots, f);
    forall g | g in more && Defined(m, g) ensures Forced(m, roots, g) {
      if g in rest {
        assert g in rest + [f];
      } else {
        assert Edge(m, f, g);
        forall t: set<nat> | Closed(m, roots, t) ensures g in t { assert f in t; }
      }
    }
  }

  lemma Finished(m: Module, roots: set<nat>, reached: set<nat>)
    requires Progress(m, roots, reached, [])
    ensures Least(m, roots, reached)
  {
    hide Edge;
    forall t: set<nat> | Closed(m, roots, t) ensures reached <= t {
      forall f | f in reached ensures f in t { assert Forced(m, roots, f); }
    }
  }

  // ----- assignment -----

  ghost function Entries(m: Module): set<nat> {
    set f | f in Below(|m.funcs|) && m.funcs[f].entry
  }

  /** Some instruction calls `f` across the boundary. */
  ghost predicate BoundaryTarget(m: Module, f: nat) {
    exists g, k :: 0 <= g < |m.funcs| && 0 <= k < |m.funcs[g].body|
        && m.funcs[g].body[k].call == Some(Boundary(Some(f)))
  }

  ghost predicate LostTarget(m: Module) {
    exists g, k :: 0 <= g < |m.funcs| && 0 <= k < |m.funcs[g].body| && m.funcs[g].body[k].call == Some(Boundary(None))
  }

  /** Boundary targets, callers of the exit marker, and escaping code that native code does not own. */
  ghost predicate CapsuleRoots(m: Module, native: set<nat>, roots: set<nat>) {
    forall f: nat :: f in roots <==> BoundaryTarget(m, f) || f in m.exitCallers || (Escapes(m, f) && f !in native)
  }

  datatype Assignment = Assignment(native: set<nat>, capsule: set<nat>)

  datatype Failure = Lost | NestedBoundary(f: nat) | Shared(f: nat)

  /** The two closures, and nothing in both. */
  ghost predicate Assigned(m: Module, d: Assignment) {
    && Least(m, Entries(m), d.native)
    && (exists roots :: CapsuleRoots(m, d.native, roots) && Least(m, roots, d.capsule))
    && d.native !! d.capsule
    && forall f :: f in d.capsule ==> !HasBoundary(m, f)
  }

  /** Entry functions, and boundary targets in the order their calls appear. */
  method FindRoots(m: Module) returns (r: Option<(seq<nat>, seq<nat>)>)
    requires ModuleOk(m)
    ensures r.None? <==> LostTarget(m)
    ensures r.Some? ==> ToSet(r.value.0) == Entries(m) && forall f: nat :: f in r.value.1 <==> BoundaryTarget(m, f)
  {
    var entries: seq<nat>, targets: seq<nat> := [], [];
    for g := 0 to |m.funcs|
      invariant forall f: nat :: f in entries <==> f < g && m.funcs[f].entry
      invariant forall f: nat :: f in targets <==> TargetBefore(m, g, 0, f)
      invariant !LostBefore(m, g, 0)
    {
      if m.funcs[g].entry { entries := entries + [g]; }
      var body := m.funcs[g].body;
      for k := 0 to |body|
        invariant forall f: nat :: f in targets <==> TargetBefore(m, g, k, f)
        invariant !LostBefore(m, g, k)
      {
        ghost var was := targets;
        if IsBoundary(body[k]) {
          if body[k].call.value.target.None? {
            assert m.funcs[g].body[k].call == Some(Boundary(None));
            return None;
          }
          targets := targets + [body[k].call.value.target.value];
        }
        NextInstruction(m, g, k);
      }
      NextFunction(m, g);
    }
    assert ToSet(entries) == Entries(m);
    AllBefore(m);
    return Some((entries, targets));
  }

  /** A boundary call of `f` before instruction `k` of function `g`. */
  ghost predicate TargetBefore(m: Module, g: nat, k: nat, f: nat) {
    exists h, j :: 0 <= h < |m.funcs| && 0 <= j < |m.funcs[h].body| && (h < g || (h == g && j < k))
        && m.funcs[h].body[j].call == Some(Boundary(Some(f)))
  }

  ghost predicate LostBefore(m: Module, g: nat, k: nat) {
    exists h, j :: 0 <= h < |m.funcs| && 0 <= j < |m.funcs[h].body| && (h < g || (h == g && j < k))
        && m.funcs[h].body[j].call == Some(Boundary(None))
  }

  lemma NextInstruction(m: Module, g: nat, k: nat)
    requires g < |m.funcs| && k < |m.funcs[g].body|
    ensures var call := m.funcs[g].body[k].call;
            && (forall f: nat :: TargetBefore(m, g, k + 1, f) <==>
                TargetBefore(m, g, k, f) || call == Some(Boundary(Some(f))))
            && (LostBefore(m, g, k + 1) <==> LostBefore(m, g, k) || call == Some(Boundary(None)))
  {
    var call := m.funcs[g].body[k].call;
    forall f: nat ensures TargetBefore(m, g, k + 1, f) <==>
        TargetBefore(m, g, k, f) || call == Some(Boundary(Some(f))) {}
  }

  lemma NextFunction(m: Module, g: nat)
    requires g < |m.funcs|
    ensures forall f: nat :: TargetBefore(m, g + 1, 0, f) <==> TargetBefore(m, g, |m.funcs[g].body|, f)
    ensures LostBefore(m, g + 1, 0) <==> LostBefore(m, g, |m.funcs[g].body|)
  {
  }

  lemma AllBefore(m: Module)
    ensures forall f: nat :: TargetBefore(m, |m.funcs|, 0, f) <==> BoundaryTarget(m, f)
    ensures LostBefore(m, |m.funcs|, 0) <==> LostTarget(m)
  {
  }

  /** `f` makes a boundary call and belongs to every candidate for the Capsule domain. */
  ghost predicate Nested(m: Module, f: nat) {
    exists native, roots ::
      Least(m, Entries(m), native) && CapsuleRoots(m, native, roots) && HasBoundary(m, f) && Forced(m, roots, f)
  }

  /** `f` is in both closures. */
  ghost predicate InBoth(m: Module, f: nat) {
    exists native, roots, capsule ::
      && Least(m, Entries(m), native) && CapsuleRoots(m, native, roots) && Least(m, roots, capsule)
      && f in native && f in capsule
  }

  /** Compute both domains, or say why the module has none. */
  method Assign(m: Module) returns (r: Result<Assignment, Failure>)
    requires ModuleOk(m)
    ensures r == Err(Lost) <==> LostTarget(m)
    ensures r.Ok? ==> Assigned(m, r.value)
    ensures r.Err? && !r.error.Lost? ==> forall d :: !Assigned(m, d)
    ensures r.Err? && r.error.NestedBoundary? ==> Nested(m, r.error.f)
    ensures r.Err? && r.error.Shared? ==> InBoth(m, r.error.f)
  {
    var found := FindRoots(m);
    if found.None? { return Err(Lost); }
    hide TargetsOk, ModuleOk, HasBoundary, BoundaryTarget;
    var targets := FindIndirectTargets(m);
    var native := Reach(m, targets, found.value.0, true);
    var roots: seq<nat> := found.value.1;
    var callers := m.exitCallers;
    while callers != {}
      invariant callers <= m.exitCallers
      invariant forall f: nat :: f in roots <==> BoundaryTarget(m, f) || f in m.exitCallers - callers
    {
      var f :| f in callers;
      roots, callers := roots + [f], callers - {f};
    }
    for f := 0 to |m.funcs|
      invariant forall g: nat :: g in roots <==>
          BoundaryTarget(m, g) || g in m.exitCallers || (g < f && Escapes(m, g) && g !in native.value)
    {
      if Escapes(m, f) && f !in native.value { roots := roots + [f]; }
    }
    assert CapsuleRoots(m, native.value, ToSet(roots));
    var capsule := Reach(m, targets, roots, false);
    if capsule.Err? {
      NoneNested(m, native.value, ToSet(roots), capsule.error);
      return Err(NestedBoundary(capsule.error));
    }
    var both := native.value * capsule.value;
    if both != {} {
      var f :| f in both;
      NoneShared(m, native.value, ToSet(roots), capsule.value, f);
      return Err(Shared(f));
    }
    return Ok(Assignment(native.value, capsule.value));
  }

  lemma RootsUnique(m: Module, native: set<nat>, a: set<nat>, b: set<nat>)
    requires CapsuleRoots(m, native, a) && CapsuleRoots(m, native, b)
    ensures a == b
  {
  }

  lemma LeastUnique(m: Module, roots: set<nat>, a: set<nat>, b: set<nat>)
    requires Least(m, roots, a) && Least(m, roots, b)
    ensures a == b
  {
  }

  /** Any assignment is the same two sets. */
  lemma SameSets(m: Module, native: set<nat>, roots: set<nat>, d: Assignment)
    requires Least(m, Entries(m), native) && CapsuleRoots(m, native, roots) && Assigned(m, d)
    ensures d.native == native && Least(m, roots, d.capsule)
  {
    LeastUnique(m, Entries(m), native, d.native);
    var other :| CapsuleRoots(m, d.native, other) && Least(m, other, d.capsule);
    RootsUnique(m, native, roots, other);
  }

  lemma NoneNested(m: Module, native: set<nat>, roots: set<nat>, f: nat)
    requires Least(m, Entries(m), native) && CapsuleRoots(m, native, roots)
    requires HasBoundary(m, f) && Forced(m, roots, f)
    ensures Nested(m, f) && forall d :: !Assigned(m, d)
  {
    hide HasBoundary;
    forall d ensures !Assigned(m, d) {
      if Assigned(m, d) { SameSets(m, native, roots, d); }
    }
  }

  lemma NoneShared(m: Module, native: set<nat>, roots: set<nat>, capsule: set<nat>, f: nat)
    requires Least(m, Entries(m), native) && CapsuleRoots(m, native, roots) && Least(m, roots, capsule) && f in native
        && f in capsule
    ensures InBoth(m, f) && forall d :: !Assigned(m, d)
  {
    forall d ensures !Assigned(m, d) {
      if Assigned(m, d) { SameSets(m, native, roots, d); }
    }
  }

  // ----- what an assignment promises -----

  /** Calls and references stay inside a domain; only boundary calls leave native code. */
  lemma EdgesStay(m: Module, d: Assignment, f: nat, g: nat)
    requires Assigned(m, d) && Edge(m, f, g)
    ensures (f in d.native ==> g in d.native && g !in d.capsule)
        && (f in d.capsule ==> g in d.capsule && g !in d.native)
  {
    hide Edge;
    var roots :| CapsuleRoots(m, d.native, roots) && Least(m, roots, d.capsule);
    assert Closed(m, Entries(m), d.native) && Closed(m, roots, d.capsule);
  }

  /** Escaping code is in exactly one domain; defined boundary targets and exit callers are Capsule. */
  lemma EscapingIsOwned(m: Module, d: Assignment, f: nat)
    requires Assigned(m, d)
    ensures f < |m.funcs| && m.funcs[f].defined && m.funcs[f].addressTaken && !m.funcs[f].entry && !m.funcs[f].driver
        ==> (f in d.native <==> f !in d.capsule)
    ensures f < |m.funcs| && m.funcs[f].defined && m.funcs[f].entry ==> f in d.native && f !in d.capsule
    ensures Defined(m, f) && (BoundaryTarget(m, f) || f in m.exitCallers) ==> f in d.capsule && f !in d.native
  {
    hide Edge, BoundaryTarget;
    var roots :| CapsuleRoots(m, d.native, roots) && Least(m, roots, d.capsule);
    assert Closed(m, roots, d.capsule);
  }
}
