/** From selected machine functions to the physical call graph: a flatten class is one frame,
    and calls that flattening removes are no calls. */
module Contraction {
  import opened Wrappers
  import opened CallGraph
  import opened LongestPaths
  import opened StackBudget

  /** A function operand of an instruction: another selected function, a defined one that was
      not selected, or a declaration (a helper, which has no frame). */
  datatype Ref = Selected(index: nat) | Unselected | Declared

  datatype Fn = Fn(root: Option<nat>, unit: Option<nat>, allocation: bool, raw: nat, refs: seq<Ref>, entry: bool)
  {
    function Class(): Option<nat> { if root.Some? then root else unit }

    /** Frame bytes rounded up: the least multiple of the granule that holds them, at least one granule. */
    function Bytes(): (n: nat)
      ensures n % PORTABLE_STACK_GRANULE == 0 && n >= raw
      ensures if raw == 0 then n == PORTABLE_STACK_GRANULE else n < raw + PORTABLE_STACK_GRANULE
    {
      var m := if raw < 1 then 1 else raw;
      (m + PORTABLE_STACK_GRANULE - 1) / PORTABLE_STACK_GRANULE * PORTABLE_STACK_GRANULE
    }
  }

  datatype Failure =
    | ConflictingClasses(index: nat)
    | DuplicateRoots(first: nat, second: nat)
    | NoRoot(class_: nat)
    | ReferencesUnselected(caller: nat)

  ghost predicate RefsOk(fs: seq<Fn>) {
    forall i, j: nat :: 0 <= i < |fs| && Selected(j) in fs[i].refs ==> j < |fs|
  }

  ghost predicate SameFrame(fs: seq<Fn>, i: nat, j: nat)
    requires i < |fs| && j < |fs|
  {
    i == j || (fs[i].Class().Some? && fs[i].Class() == fs[j].Class())
  }

  /** The call from `i` to `j` that flattening turns into a jump. */
  predicate Removed(fs: seq<Fn>, nodeOf: seq<nat>, i: nat, j: nat)
    requires |nodeOf| == |fs| && i < |fs| && j < |fs|
  {
    nodeOf[i] == nodeOf[j] && fs[j].unit.Some?
  }

  ghost predicate Calls(fs: seq<Fn>, nodeOf: seq<nat>, v: nat, t: nat)
    requires |nodeOf| == |fs| && RefsOk(fs)
  {
    exists i, j: nat ::
      && 0 <= i < |fs| && Selected(j) in fs[i].refs && nodeOf[i] == v && nodeOf[j] == t
      && (nodeOf[i] != nodeOf[j] || fs[j].unit.None?)
  }

  // ----- numbering the frames -----

  /** Functions get the node of their class, or one of their own. */
  ghost predicate Numbered(fs: seq<Fn>, n: nat, classes: map<nat, nat>, nodeOf: seq<nat>, count: nat) {
    && n <= |fs| && |nodeOf| == n
    && (forall i :: 0 <= i < n ==> nodeOf[i] < count)
    && (forall i, j {:trigger SameFrame(fs, i, j)} ::
          0 <= i < n && 0 <= j < n ==> (nodeOf[i] == nodeOf[j] <==> SameFrame(fs, i, j)))
    && (forall v :: 0 <= v < count ==> v in nodeOf)
    && (forall c :: c in classes ==> exists i :: 0 <= i < n && fs[i].Class() == Some(c) && nodeOf[i] == classes[c])
    && (forall i :: 0 <= i < n && fs[i].Class().Some? ==> fs[i].Class().value in classes)
  }

  method Number(fs: seq<Fn>) returns (nodeOf: seq<nat>, count: nat)
    ensures |nodeOf| == |fs| && exists classes :: Numbered(fs, |fs|, classes, nodeOf, count)
  {
    var classes: map<nat, nat> := map[];
    nodeOf, count := [], 0;
    for k := 0 to |fs|
      invariant Numbered(fs, k, classes, nodeOf, count)
    {
      var cls := fs[k].Class();
      ghost var was, had, before := nodeOf, classes, count;
      if cls.Some? && cls.value in classes {
        nodeOf := nodeOf + [classes[cls.value]];
        JoinsClass(fs, k, had, was, before);
      } else {
        if cls.Some? { classes := classes[cls.value := count]; }
        nodeOf := nodeOf + [count];
        count := count + 1;
        OpensFrame(fs, k, had, was, before);
      }
    }
  }

  lemma JoinsClass(fs: seq<Fn>, k: nat, classes: map<nat, nat>, nodeOf: seq<nat>, count: nat)
    requires k < |fs| && Numbered(fs, k, classes, nodeOf, count) && fs[k].Class().Some?
        && fs[k].Class().value in classes
    ensures Numbered(fs, k + 1, classes, nodeOf + [classes[fs[k].Class().value]], count)
  {
    var c := fs[k].Class().value;
    var m :| 0 <= m < k && fs[m].Class() == Some(c) && nodeOf[m] == classes[c];
    var after := nodeOf + [classes[c]];
    assert after[m] == nodeOf[m];
    forall d | d in classes ensures exists i :: 0 <= i < k + 1 && fs[i].Class() == Some(d) && after[i] == classes[d] {
      var i :| 0 <= i < k && fs[i].Class() == Some(d) && nodeOf[i] == classes[d];
      assert after[i] == classes[d];
    }
    forall i | 0 <= i < k ensures after[i] == after[k] <==> SameFrame(fs, i, k) && SameFrame(fs, k, i) {
      assert nodeOf[i] == nodeOf[m] <==> SameFrame(fs, i, m);
    }
    assert SameFrame(fs, k, k);
    hide SameFrame;
  }

  lemma OpensFrame(fs: seq<Fn>, k: nat, classes: map<nat, nat>, nodeOf: seq<nat>, count: nat)
    requires k < |fs| && Numbered(fs, k, classes, nodeOf, count)
        && (fs[k].Class().Some? ==> fs[k].Class().value !in classes)
    ensures var more := if fs[k].Class().Some? then classes[fs[k].Class().value := count] else classes;
            Numbered(fs, k + 1, more, nodeOf + [count], count + 1)
  {
    var after := nodeOf + [count];
    var more := if fs[k].Class().Some? then classes[fs[k].Class().value := count] else classes;
    assert after[k] == count;
    forall d | d in more ensures exists i :: 0 <= i < k + 1 && fs[i].Class() == Some(d) && after[i] == more[d] {
      if fs[k].Class() == Some(d) {
        assert after[k] == more[d];
      } else {
        var i :| 0 <= i < k && fs[i].Class() == Some(d) && nodeOf[i] == classes[d];
        assert after[i] == more[d];
      }
    }
    forall i | 0 <= i < k ensures !SameFrame(fs, i, k) {
      if fs[i].Class().Some? { assert fs[i].Class().value in classes; }
    }
  }

  // ----- the graph -----

  /** A node's frame: variable if a member's frame is still to be chosen, and at least its measured members. */
  ghost predicate FrameOk(fs: seq<Fn>, nodeOf: seq<nat>, v: nat, variable: bool, floor: nat)
    requires |nodeOf| == |fs|
  {
    && (variable <==> exists i :: 0 <= i < |fs| && nodeOf[i] == v && fs[i].allocation)
    && (forall i :: 0 <= i < |fs| && nodeOf[i] == v && !fs[i].allocation ==> fs[i].Bytes() <= floor)
    && (floor == 0 || exists i :: 0 <= i < |fs| && nodeOf[i] == v && !fs[i].allocation && fs[i].Bytes() == floor)
  }

  ghost predicate Enters(fs: seq<Fn>, nodeOf: seq<nat>, e: nat)
    requires |nodeOf| == |fs|
  {
    exists i :: 0 <= i < |fs| && fs[i].entry && nodeOf[i] == e
  }

  ghost predicate Contracts(fs: seq<Fn>, nodeOf: seq<nat>, g: Graph, entries: seq<nat>) {
    && |nodeOf| == |fs| && RefsOk(fs)
    && (forall i :: 0 <= i < |fs| ==> nodeOf[i] < |g|)
    && (forall i, j :: 0 <= i < |fs| && 0 <= j < |fs| ==> (nodeOf[i] == nodeOf[j] <==> SameFrame(fs, i, j)))
    && (forall v :: 0 <= v < |g| ==> v in nodeOf)
    && (forall v :: 0 <= v < |g| ==> FrameOk(fs, nodeOf, v, g[v].variable, g[v].floor))
    && (forall v, t: nat :: 0 <= v < |g| ==> (t in g[v].successors <==> Calls(fs, nodeOf, v, t)))
    && (forall e :: e in entries <==> Enters(fs, nodeOf, e))
  }

  lemma ContractedGraphOk(fs: seq<Fn>, nodeOf: seq<nat>, g: Graph, entries: seq<nat>)
    requires Contracts(fs, nodeOf, g, entries)
    ensures GraphOk(g, entries) && Measured(g)
  {
    forall v, s | 0 <= v < |g| && s in g[v].successors ensures s < |g| {
      assert Calls(fs, nodeOf, v, s);
    }
    forall v | 0 <= v < |g| && !g[v].variable ensures g[v].floor >= PORTABLE_STACK_GRANULE {
      assert v in nodeOf;
      var i :| 0 <= i < |nodeOf| && nodeOf[i] == v;
      assert FrameOk(fs, nodeOf, v, g[v].variable, g[v].floor);
    }
  }

  /** A call from inside a flatten class back to its root stays a call, and a reached one is recursion. */
  lemma RootCallRecurs(fs: seq<Fn>, nodeOf: seq<nat>, g: Graph, entries: seq<nat>, i: nat, j: nat)
    requires Contracts(fs, nodeOf, g, entries) && i < |fs| && Selected(j) in fs[i].refs
    requires SameFrame(fs, i, j) && fs[j].unit.None? && Reached(g, entries, nodeOf[i])
    ensures !Acceptable(g, entries)
  {
    var v := nodeOf[i];
    assert nodeOf[j] == v && Calls(fs, nodeOf, v, v);
    assert Edge(g, v, v) && IsPath(g, [v, v]);
    assert Recursion(g, entries, [v, v]);
  }

  /** What the pass demands of classes and references. */
  ghost predicate Sound(fs: seq<Fn>) {
    && (forall i :: 0 <= i < |fs| ==> !(fs[i].root.Some? && fs[i].unit.Some? && fs[i].root != fs[i].unit))
    && (forall i, j :: 0 <= i < j < |fs| && fs[i].root.Some? ==> fs[i].root != fs[j].root)
    && (forall i :: 0 <= i < |fs| && fs[i].Class().Some? ==> HasRoot(fs, fs[i].Class().value))
    && (forall i :: 0 <= i < |fs| ==> Unselected !in fs[i].refs)
  }

  ghost predicate HasRoot(fs: seq<Fn>, c: nat) {
    exists i :: 0 <= i < |fs| && fs[i].root == Some(c)
  }

  /** The failure names functions, or a class, that break the demand it stands for. */
  ghost predicate Genuine(fs: seq<Fn>, failure: Failure) {
    match failure
    case ConflictingClasses(i) =>
      i < |fs| && fs[i].root.Some? && fs[i].unit.Some? && fs[i].root != fs[i].unit
    case DuplicateRoots(i, j) => i < j < |fs| && fs[i].root.Some? && fs[i].root == fs[j].root
    case NoRoot(c) => !HasRoot(fs, c) && exists i :: 0 <= i < |fs| && fs[i].Class() == Some(c)
    case ReferencesUnselected(i) => i < |fs| && Unselected in fs[i].refs
  }

  method CheckClasses(fs: seq<Fn>) returns (r: Option<Failure>)
    ensures r.None? <==> Sound(fs)
    ensures r.Some? ==> Genuine(fs, r.value)
  {
    var roots: map<nat, nat> := map[];
    for k := 0 to |fs|
      invariant forall c :: c in roots ==> roots[c] < k && fs[roots[c]].root == Some(c)
      invariant forall i :: 0 <= i < k && fs[i].root.Some? ==> fs[i].root.value in roots && roots[fs[i].root.value] == i
      invariant forall i :: 0 <= i < k ==> !(fs[i].root.Some? && fs[i].unit.Some? && fs[i].root != fs[i].unit)
      invariant forall i :: 0 <= i < k ==> Unselected !in fs[i].refs
    {
      var f := fs[k];
      if f.root.Some? && f.unit.Some? && f.root != f.unit { return Some(ConflictingClasses(k)); }
      if Unselected in f.refs { return Some(ReferencesUnselected(k)); }
      if f.root.Some? {
        if f.root.value in roots {
          assert fs[roots[f.root.value]].root == fs[k].root;
          return Some(DuplicateRoots(roots[f.root.value], k));
        }
        roots := roots[f.root.value := k];
      }
    }
    for k := 0 to |fs|
      invariant forall i :: 0 <= i < k && fs[i].Class().Some? ==> HasRoot(fs, fs[i].Class().value)
    {
      var cls := fs[k].Class();
      if cls.Some? {
        if cls.value !in roots {
          assert !HasRoot(fs, cls.value);
          return Some(NoRoot(cls.value));
        }
        assert fs[roots[cls.value]].root == Some(cls.value);
      }
    }
    return None;
  }

  /** The frame of node `v`, from its members. */
  method MeasureNode(fs: seq<Fn>, nodeOf: seq<nat>, v: nat) returns (variable: bool, floor: nat)
    requires |nodeOf| == |fs|
    ensures FrameOk(fs, nodeOf, v, variable, floor)
  {
    variable, floor := false, 0;
    for k := 0 to |fs|
      invariant FrameOk(fs[..k], nodeOf[..k], v, variable, floor)
    {
      ghost var was := (variable, floor);
      if nodeOf[k] == v {
        if fs[k].allocation {
          variable := true;
        } else if floor < fs[k].Bytes() {
          floor := fs[k].Bytes();
        }
      }
      FrameGrows(fs, nodeOf, v, k, was.0, was.1, variable, floor);
    }
    assert fs[..|fs|] == fs && nodeOf[..|fs|] == nodeOf;
  }

  lemma FrameGrows(fs: seq<Fn>, nodeOf: seq<nat>, v: nat, k: nat, wasVariable: bool, wasFloor: nat, variable: bool,
                   floor: nat)
    requires |nodeOf| == |fs| && k < |fs| && FrameOk(fs[..k], nodeOf[..k], v, wasVariable, wasFloor)
    requires variable == (wasVariable || (nodeOf[k] == v && fs[k].allocation))
    requires floor == if nodeOf[k] == v && !fs[k].allocation
        && wasFloor < fs[k].Bytes() then fs[k].Bytes() else wasFloor
    ensures FrameOk(fs[..k + 1], nodeOf[..k + 1], v, variable, floor)
  {
    var gs, ns := fs[..k + 1], nodeOf[..k + 1];
    assert gs[k] == fs[k] && ns[k] == nodeOf[k];
    assert forall i :: 0 <= i < k ==> gs[i] == fs[..k][i] && ns[i] == nodeOf[..k][i];
    if wasVariable {
      var i :| 0 <= i < k && nodeOf[..k][i] == v && fs[..k][i].allocation;
      assert ns[i] == v && gs[i].allocation;
    }
    if wasFloor != 0 && floor == wasFloor {
      var i :| 0 <= i < k && nodeOf[..k][i] == v && !fs[..k][i].allocation && fs[..k][i].Bytes() == wasFloor;
      assert ns[i] == v && !gs[i].allocation && gs[i].Bytes() == floor;
    }
  }

  /** Nodes referenced from node `v` by calls that flattening keeps. */
  method CalleesOf(fs: seq<Fn>, nodeOf: seq<nat>, v: nat) returns (callees: set<nat>)
    requires |nodeOf| == |fs| && RefsOk(fs)
    ensures forall t: nat :: t in callees <==> Calls(fs, nodeOf, v, t)
  {
    callees := {};
    for i := 0 to |fs|
      invariant forall t: nat :: t in callees <==> CallsBefore(fs, nodeOf, v, t, i)
    {
      ghost var was := callees;
      if nodeOf[i] == v {
        for k := 0 to |fs[i].refs|
          invariant forall t: nat :: t in callees <==> t in was || CallsFrom(fs, nodeOf, i, t, k)
        {
          var ref := fs[i].refs[k];
          assert ref in fs[i].refs;
          if ref.Selected? && !Removed(fs, nodeOf, i, ref.index) {
            callees := callees + {nodeOf[ref.index]};
          }
          forall t: nat ensures CallsFrom(fs, nodeOf, i, t, k + 1) <==>
              CallsFrom(fs, nodeOf, i, t, k) || CallsAt(fs, nodeOf, i, t, k) {
            CallsFromNext(fs, nodeOf, i, t, k);
          }
        }
      }
      forall t: nat ensures t in callees <==> CallsBefore(fs, nodeOf, v, t, i + 1) {
        CallsNext(fs, nodeOf, v, t, i);
      }
    }
  }

  ghost predicate CallsBefore(fs: seq<Fn>, nodeOf: seq<nat>, v: nat, t: nat, n: nat)
    requires |nodeOf| == |fs| && RefsOk(fs) && n <= |fs|
  {
    exists i, j: nat :: 0 <= i < n && Selected(j) in fs[i].refs && nodeOf[i] == v && nodeOf[j] == t
        && !Removed(fs, nodeOf, i, j)
  }

  ghost predicate CallsFrom(fs: seq<Fn>, nodeOf: seq<nat>, i: nat, t: nat, n: nat)
    requires |nodeOf| == |fs| && RefsOk(fs) && i < |fs| && n <= |fs[i].refs|
  {
    exists k :: 0 <= k < n && CallsAt(fs, nodeOf, i, t, k)
  }

  ghost predicate CallsAt(fs: seq<Fn>, nodeOf: seq<nat>, i: nat, t: nat, k: nat)
    requires |nodeOf| == |fs| && RefsOk(fs) && i < |fs| && k < |fs[i].refs|
  {
    assert fs[i].refs[k] in fs[i].refs;
    fs[i].refs[k].Selected? && nodeOf[fs[i].refs[k].index] == t && !Removed(fs, nodeOf, i, fs[i].refs[k].index)
  }

  lemma CallsFromNext(fs: seq<Fn>, nodeOf: seq<nat>, i: nat, t: nat, k: nat)
    requires |nodeOf| == |fs| && RefsOk(fs) && i < |fs| && k < |fs[i].refs|
    ensures CallsFrom(fs, nodeOf, i, t, k + 1) <==> CallsFrom(fs, nodeOf, i, t, k) || CallsAt(fs, nodeOf, i, t, k)
  {
    if CallsFrom(fs, nodeOf, i, t, k) {
      var x :| 0 <= x < k && CallsAt(fs, nodeOf, i, t, x);
      assert 0 <= x < k + 1 && CallsAt(fs, nodeOf, i, t, x);
    }
  }

  lemma CallsNext(fs: seq<Fn>, nodeOf: seq<nat>, v: nat, t: nat, i: nat)
    requires |nodeOf| == |fs| && RefsOk(fs) && i < |fs|
    ensures CallsBefore(fs, nodeOf, v, t, i + 1) <==>
        CallsBefore(fs, nodeOf, v, t, i) || (nodeOf[i] == v && CallsFrom(fs, nodeOf, i, t, |fs[i].refs|))
  {
    if nodeOf[i] == v && CallsFrom(fs, nodeOf, i, t, |fs[i].refs|) {
      var k :| 0 <= k < |fs[i].refs| && CallsAt(fs, nodeOf, i, t, k);
      assert Selected(fs[i].refs[k].index) in fs[i].refs;
    }
    if CallsBefore(fs, nodeOf, v, t, i + 1) && !CallsBefore(fs, nodeOf, v, t, i) {
      var x, j: nat :| 0 <= x < i + 1 && Selected(j) in fs[x].refs && nodeOf[x] == v && nodeOf[j] == t
          && !Removed(fs, nodeOf, x, j);
      var k :| 0 <= k < |fs[i].refs| && fs[i].refs[k] == Selected(j);
      assert CallsAt(fs, nodeOf, i, t, k);
    }
  }

  /** The elements of a set below `n` in ascending order. */
  function Ascending(s: set<nat>, n: nat): (r: seq<nat>)
    ensures forall x :: x in r <==> x in s && x < n
  {
    if n == 0 then [] else Ascending(s, n - 1) + if n - 1 in s then [n - 1] else []
  }

  /** The physical call graph of a module, or what is wrong with its classes. */
  method Contract(fs: seq<Fn>) returns (r: Result<(seq<nat>, Graph, seq<nat>), Failure>)
    requires RefsOk(fs)
    ensures r.Ok? <==> Sound(fs)
    ensures r.Err? ==> Genuine(fs, r.error)
    ensures r.Ok? ==> Contracts(fs, r.value.0, r.value.1, r.value.2)
  {
    var bad := CheckClasses(fs);
    if bad.Some? { return Err(bad.value); }
    var nodeOf, count := Number(fs);
    var g: Graph := [];
    for v := 0 to count
      invariant |g| == v
      invariant forall x :: 0 <= x < v ==> FrameOk(fs, nodeOf, x, g[x].variable, g[x].floor)
      invariant forall x, t: nat :: 0 <= x < v ==> (t in g[x].successors <==> Calls(fs, nodeOf, x, t))
    {
      var variable, floor := MeasureNode(fs, nodeOf, v);
      var callees := CalleesOf(fs, nodeOf, v);
      forall t: nat | Calls(fs, nodeOf, v, t) ensures t < count {}
      g := g + [Node(variable, floor, Ascending(callees, count))];
    }
    var starts: set<nat> := set i | 0 <= i < |fs| && fs[i].entry :: nodeOf[i];
    return Ok((nodeOf, g, Ascending(starts, count)));
  }

  // ----- call chains of functions -----

  /** Each function is referenced by the one before it, from an entry program on. */
  ghost predicate Chain(fs: seq<Fn>, c: seq<nat>) {
    && c != [] && (forall k :: 0 <= k < |c| ==> c[k] < |fs|) && fs[c[0]].entry
    && forall k :: 0 < k < |c| ==> Selected(c[k]) in fs[c[k - 1]].refs
  }

  /** The frames a chain really occupies: a removed call stays in its caller's frame. */
  function Frames(fs: seq<Fn>, nodeOf: seq<nat>, c: seq<nat>): seq<nat>
    requires |nodeOf| == |fs| && forall k :: 0 <= k < |c| ==> c[k] < |fs|
  {
    if c == [] then []
    else if |c| == 1 then [nodeOf[c[0]]]
    else
      var rest := Frames(fs, nodeOf, c[..|c| - 1]);
      if Removed(fs, nodeOf, c[|c| - 2], c[|c| - 1]) then rest else rest + [nodeOf[c[|c| - 1]]]
  }

  /** Every call chain of functions is a call path of the contracted graph. */
  lemma {:induction false} ChainIsPath(fs: seq<Fn>, nodeOf: seq<nat>, g: Graph, entries: seq<nat>, c: seq<nat>)
    requires Contracts(fs, nodeOf, g, entries) && Chain(fs, c)
    ensures EntryPath(g, entries, Frames(fs, nodeOf, c)) && Last(Frames(fs, nodeOf, c)) == nodeOf[Last(c)]
  {
    if |c| > 1 {
      var d := c[..|c| - 1];
      assert Chain(fs, d);
      ChainIsPath(fs, nodeOf, g, entries, d);
      var i, j := c[|c| - 2], c[|c| - 1];
      assert Last(d) == i;
      if !Removed(fs, nodeOf, i, j) {
        assert Calls(fs, nodeOf, nodeOf[i], nodeOf[j]);
        PathGrows(g, Frames(fs, nodeOf, d), nodeOf[j]);
      }
    } else {
      assert Enters(fs, nodeOf, nodeOf[c[0]]);
    }
  }

  /** Sizes chosen per function: measured ones as measured, allocation units within their node's budget. */
  ghost predicate Chosen(fs: seq<Fn>, nodeOf: seq<nat>, budgets: seq<nat>, size: seq<nat>) {
    |nodeOf| == |fs| && |size| == |fs|
    && forall i :: 0 <= i < |fs| ==>
        nodeOf[i] < |budgets| && if fs[i].allocation then size[i] <= budgets[nodeOf[i]] else size[i] == fs[i].Bytes()
  }

  /** The frame of a node is its largest member. */
  ghost predicate Merged(fs: seq<Fn>, nodeOf: seq<nat>, size: seq<nat>, frames: seq<nat>)
    requires |nodeOf| == |fs| && |size| == |fs|
  {
    forall v :: 0 <= v < |frames| ==>
      && (forall i :: 0 <= i < |fs| && nodeOf[i] == v ==> size[i] <= frames[v])
      && exists i :: 0 <= i < |fs| && nodeOf[i] == v && size[i] == frames[v]
  }

  /** An exact budget of an accepted graph covers the measured part of the frame. */
  lemma BudgetCoversFloor(g: Graph, entries: seq<nat>, budgets: seq<nat>, v: nat)
    requires Acceptable(g, entries) && Budgets(g, entries, budgets) && v < |g| && g[v].variable
        && Reached(g, entries, v)
    ensures g[v].floor <= budgets[v]
  {
    assert Exact(g, entries, v, budgets[v]);
    var before, after :| Around(g, entries, v, before, after)
        && Weight(Floors(g), before) + Weight(Floors(g), after) + budgets[v] == KERNEL_STACK_BYTES;
  }

  lemma {:induction false} WeightSame(w: seq<nat>, x: seq<nat>, p: seq<nat>)
    requires |w| == |x| && forall i :: 0 <= i < |p| && p[i] < |w| ==> w[p[i]] == x[p[i]]
    ensures Weight(w, p) == Weight(x, p)
  {
    if p != [] { WeightSame(w, x, p[..|p| - 1]); }
  }

  /** A merged frame is the measured floor of a fixed node and within the budget of a variable one. */
  lemma MergedFrame(fs: seq<Fn>, nodeOf: seq<nat>, g: Graph, entries: seq<nat>, budgets: seq<nat>, size: seq<nat>,
                    frames: seq<nat>, v: nat)
    requires Contracts(fs, nodeOf, g, entries) && Acceptable(g, entries) && Budgets(g, entries, budgets)
    requires Chosen(fs, nodeOf, budgets, size) && Merged(fs, nodeOf, size, frames) && |frames| == |g|
    requires v < |g| && Reached(g, entries, v)
    ensures if g[v].variable then frames[v] <= budgets[v] else frames[v] == g[v].floor
  {
    assert FrameOk(fs, nodeOf, v, g[v].variable, g[v].floor);
    var i :| 0 <= i < |fs| && nodeOf[i] == v && size[i] == frames[v];
    if g[v].variable { BudgetCoversFloor(g, entries, budgets, v); }
  }

  /** Every call chain of an accepted module fits, whatever sizes the allocation units get within their budgets. */
  lemma EveryChainFits(fs: seq<Fn>, nodeOf: seq<nat>, g: Graph, entries: seq<nat>, budgets: seq<nat>, size: seq<nat>,
                       frames: seq<nat>, c: seq<nat>)
    requires Contracts(fs, nodeOf, g, entries) && Acceptable(g, entries) && Budgets(g, entries, budgets)
    requires Chosen(fs, nodeOf, budgets, size) && Merged(fs, nodeOf, size, frames) && |frames| == |g| && Chain(fs, c)
    ensures var p := Frames(fs, nodeOf, c);
            Weight(frames, p) <= KERNEL_STACK_BYTES && |p| <= KERNEL_CALL_FRAMES && OneVariable(g, p)
  {
    var p := Frames(fs, nodeOf, c);
    ChainIsPath(fs, nodeOf, g, entries, c);
    var sizes := seq(|g|, v requires 0 <= v < |g| =>
      if g[v].variable then (if frames[v] <= budgets[v] then frames[v] else budgets[v]) else g[v].floor);
    assert Sizes(g, budgets, sizes);
    EveryPathFits(g, entries, budgets, sizes, p);
    forall k | 0 <= k < |p| ensures sizes[p[k]] == frames[p[k]] {
      ReachedPrefix(g, entries, p, k);
      MergedFrame(fs, nodeOf, g, entries, budgets, size, frames, p[k]);
    }
    WeightSame(frames, sizes, p);
  }

  // ----- the whole pass -----

  /** Whatever the allocation units' sizes within the budgets, every call chain fits the kernel's limits. */
  ghost predicate ModuleFits(fs: seq<Fn>, nodeOf: seq<nat>, g: Graph, budgets: seq<nat>)
    requires |nodeOf| == |fs|
  {
    forall size, frames, c ::
      Chosen(fs, nodeOf, budgets, size) && Merged(fs, nodeOf, size, frames) && |frames| == |g| && Chain(fs, c)
      ==> ChainFits(fs, nodeOf, g, frames, c)
  }

  ghost predicate ChainFits(fs: seq<Fn>, nodeOf: seq<nat>, g: Graph, frames: seq<nat>, c: seq<nat>)
    requires |nodeOf| == |fs| && Chain(fs, c)
  {
    var p := Frames(fs, nodeOf, c);
    Weight(frames, p) <= KERNEL_STACK_BYTES && |p| <= KERNEL_CALL_FRAMES && OneVariable(g, p)
  }

  /** The module's node of each function, its physical call graph and the nodes' budgets. */
  datatype Budgeted = Budgeted(nodeOf: seq<nat>, graph: Graph, entries: seq<nat>, budgets: seq<nat>)

  /** A refusal keeps the graph its rejection speaks of. */
  datatype Refusal =
    | BadClasses(failure: Failure)
    | NoBudget(nodeOf: seq<nat>, graph: Graph, entries: seq<nat>, rejection: Rejection)

  /** Contract the module and assign budgets: granted exactly for sound modules whose call paths can
      be made to fit, and then every call chain does. */
  method BudgetModule(fs: seq<Fn>) returns (r: Result<Budgeted, Refusal>)
    requires RefsOk(fs)
    ensures r.Ok? ==> var m := r.value;
              && Sound(fs) && Contracts(fs, m.nodeOf, m.graph, m.entries) && Acceptable(m.graph, m.entries)
              && Budgets(m.graph, m.entries, m.budgets) && ModuleFits(fs, m.nodeOf, m.graph, m.budgets)
    ensures r.Err? && r.error.BadClasses? ==> !Sound(fs) && Genuine(fs, r.error.failure)
    ensures r.Err? && r.error.NoBudget? ==>
              var e := r.error;
              && Sound(fs) && Contracts(fs, e.nodeOf, e.graph, e.entries) && !Acceptable(e.graph, e.entries)
              && Witnessed(e.graph, e.entries, e.rejection)
  {
    hide Sound, Contracts, Acceptable, Budgets, Genuine, Witnessed;
    var contracted := Contract(fs);
    if contracted.Err? { return Err(BadClasses(contracted.error)); }
    var nodeOf, g, entries := contracted.value.0, contracted.value.1, contracted.value.2;
    ContractedGraphOk(fs, nodeOf, g, entries);
    var granted := Assign(g, entries);
    if granted.Err? { return Err(NoBudget(nodeOf, g, entries, granted.error)); }
    EveryChain(fs, nodeOf, g, entries, granted.value);
    return Ok(Budgeted(nodeOf, g, entries, granted.value));
  }

  lemma EveryChain(fs: seq<Fn>, nodeOf: seq<nat>, g: Graph, entries: seq<nat>, budgets: seq<nat>)
    requires Contracts(fs, nodeOf, g, entries) && Acceptable(g, entries) && Budgets(g, entries, budgets)
    ensures |nodeOf| == |fs| && ModuleFits(fs, nodeOf, g, budgets)
  {
    assert |nodeOf| == |fs|;
    hide Contracts, Acceptable, Budgets, Chosen, Merged, Weight, OneVariable;
    forall size, frames, c |
      Chosen(fs, nodeOf, budgets, size) && |size| == |fs| && Merged(fs, nodeOf, size, frames) && |frames| == |g|
          && Chain(fs, c)
      ensures ChainFits(fs, nodeOf, g, frames, c)
    {
      EveryChainFits(fs, nodeOf, g, entries, budgets, size, frames, c);
    }
  }
}
