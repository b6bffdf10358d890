/** Native stack budgets: what each variable Capsule frame may take so that every call path
    fits the kernel's byte, frame and nesting limits. */
module StackBudget {
  import opened Wrappers
  import opened CallGraph
  import opened LongestPaths

  const KERNEL_STACK_BYTES := 512
  const PORTABLE_STACK_GRANULE := 32
  const KERNEL_CALL_FRAMES := 8

  datatype Rejection =
    | Recursive(cycle: seq<nat>)
    | NestedFrames(outer: nat, inner: nat)
    | TooManyFrames(path: seq<nat>)
    | TooManyBytes(path: seq<nat>)
    | NoFrameFits(node: nat, path: seq<nat>)

  function Floors(g: Graph): seq<nat> { seq(|g|, v requires 0 <= v < |g| => g[v].floor) }

  function Ones(g: Graph): seq<nat> { seq(|g|, _ => 1) }

  function Fixed(g: Graph): seq<bool> { seq(|g|, v requires 0 <= v < |g| => !g[v].variable) }

  function All(g: Graph): seq<bool> { seq(|g|, _ => true) }

  /** A measured frame is at least one granule. */
  ghost predicate Measured(g: Graph) {
    forall v :: 0 <= v < |g| && !g[v].variable ==> g[v].floor >= PORTABLE_STACK_GRANULE
  }

  ghost predicate FixedPath(g: Graph, p: seq<nat>) {
    Through(Fixed(g), p)
  }

  // ----- nesting -----

  /** A call path from one variable frame to another. */
  ghost predicate Nesting(g: Graph, p: seq<nat>) {
    IsPath(g, p) && |p| >= 2 && g[p[0]].variable && g[Last(p)].variable
  }

  /** Who may already hold a variable frame when a node is called. */
  type Holders = seq<set<nat>>

  /** `u` is a variable frame with a call path to `v`; for a node still to come, a proper one. */
  ghost predicate Holds(g: Graph, u: nat, v: nat, proper: bool) {
    u < |g| && g[u].variable && exists p :: IsPath(g, p) && p[0] == u && Last(p) == v && (proper ==> |p| >= 2)
  }

  ghost predicate NestingProgress(g: Graph, post: seq<nat>, i: nat, holders: Holders) {
    && |holders| == |g| && i <= |post|
    && (forall v, u :: 0 <= v < |g| && u in holders[v] ==> Recorded(g, post, i, u, v))
    && (forall v :: v in post[i..] && v < |g| && g[v].variable ==> holders[v] == {v})
    && (forall v, s :: v in post[i..] && v < |g| && s in g[v].successors && s < |g| ==> holders[v] <= holders[s])
  }

  /** What one node of the order passes on to its callees. */
  ghost predicate PassedOn(g: Graph, u: nat, was: Holders, holders: Holders)
    requires u < |g|
  {
    && |was| == |g| && |holders| == |g|
    && var mine := if g[u].variable then {u} else was[u];
       forall s :: 0 <= s < |g| ==>
         holders[s] == (if s == u then mine else if s in g[u].successors then was[s] + mine else was[s])
  }

  /** A holder recorded for `v` has a call path to it. */
  ghost predicate Recorded(g: Graph, post: seq<nat>, i: nat, u: nat, v: nat)
    requires i <= |post|
  {
    u in post && Holds(g, u, v, false) && (v !in post[i..] ==> Holds(g, u, v, true))
  }

  lemma HoldsItself(g: Graph, u: nat)
    requires u < |g| && g[u].variable
    ensures Holds(g, u, u, false)
  {
    assert IsPath(g, [u]) && [u][0] == u && Last([u]) == u;
  }

  lemma PassRecorded(g: Graph, entries: seq<nat>, post: seq<nat>, i: nat, was: Holders, holders: Holders, v: nat,
                     x: nat)
    requires GraphOk(g, entries) && Postorder(g, post) && i < |post| && NestingProgress(g, post, i + 1, was)
    requires PassedOn(g, post[i], was, holders) && v < |g| && x in holders[v]
    ensures Recorded(g, post, i, x, v)
  {
    var u := post[i];
    assert post[i..] == [u] + post[i + 1..];
    if x in was[v] {
      assert Recorded(g, post, i + 1, x, v);
    } else {
      if x == u && g[u].variable {
        HoldsItself(g, u);
      } else {
        assert Recorded(g, post, i + 1, x, u);
      }
      if v != u { HolderMoves(g, x, u, v); }
    }
  }

  lemma PassKeeps(g: Graph, entries: seq<nat>, post: seq<nat>, i: nat, was: Holders, holders: Holders)
    requires GraphOk(g, entries) && Postorder(g, post) && i < |post| && NestingProgress(g, post, i + 1, was)
    requires PassedOn(g, post[i], was, holders) && (g[post[i]].variable ==> was[post[i]] == {})
    ensures NestingProgress(g, post, i, holders)
  {
    var u := post[i];
    assert post[i..] == [u] + post[i + 1..];
    forall v | v in post[i..] ensures v !in g[u].successors { OrderedApart(g, post, i, v); }
    forall v, x | 0 <= v < |g| && x in holders[v] ensures Recorded(g, post, i, x, v) {
      PassRecorded(g, entries, post, i, was, holders, v, x);
    }
    hide Recorded, Postorder, PassedOn;
    forall v, s | v in post[i..] && v < |g| && s in g[v].successors && s < |g| ensures holders[v] <= holders[s] {
      PassSubset(g, u, was, holders, v, s);
    }
    forall v | v in post[i..] && v < |g| && g[v].variable ensures holders[v] == {v} {
      PassOwn(g, u, was, holders, v);
    }
  }

  lemma PassSubset(g: Graph, u: nat, was: Holders, holders: Holders, v: nat, s: nat)
    requires u < |g| && PassedOn(g, u, was, holders) && (g[u].variable ==> was[u] == {}) && v < |g|
        && v !in g[u].successors
    requires s in g[v].successors && s < |g| && (v != u ==> was[v] <= was[s])
    ensures holders[v] <= holders[s]
  {
  }

  lemma PassOwn(g: Graph, u: nat, was: Holders, holders: Holders, v: nat)
    requires u < |g| && PassedOn(g, u, was, holders) && v < |g| && g[v].variable && v !in g[u].successors
    requires v != u ==> was[v] == {v}
    ensures holders[v] == {v}
  {
  }

  lemma HolderMoves(g: Graph, x: nat, u: nat, v: nat)
    requires Holds(g, x, u, false) && Edge(g, u, v) && v < |g|
    ensures Holds(g, x, v, true)
  {
    var p :| IsPath(g, p) && p[0] == x && Last(p) == u;
    PathGrows(g, p, v);
    assert IsPath(g, p + [v]) && (p + [v])[0] == x && Last(p + [v]) == v && |p + [v]| >= 2;
  }

  /** At most one variable frame on any call path, or two that nest. */
  method CheckNesting(g: Graph, entries: seq<nat>, post: seq<nat>) returns (r: Option<(nat, nat)>)
    requires GraphOk(g, entries) && Postorder(g, post) && forall e :: e in entries ==> e in post
    ensures r.Some? ==> r.value.0 in post && exists p :: Nesting(g, p) && p[0] == r.value.0 && Last(p) == r.value.1
    ensures r.None? ==> NoNest(g, entries)
  {
    var holders: Holders := seq(|g|, _ => {});
    var i := |post|;
    while i > 0
      invariant 0 <= i <= |post| && NestingProgress(g, post, i, holders)
    {
      i := i - 1;
      var u := post[i];
      ghost var was := holders;
      if g[u].variable {
        if holders[u] != {} {
          var outer :| outer in holders[u];
          assert Recorded(g, post, i + 1, outer, u) && u !in post[i + 1..];
          return Some((outer, u));
        }
        holders := holders[u := {u}];
      }
      holders := PassHolders(g, entries, u, holders);
      assert PassedOn(g, u, was, holders) by { OrderedApart(g, post, i, u) by { assert u in post[i..]; } }
      PassKeeps(g, entries, post, i, was, holders);
    }
    NeverNests(g, entries, post, holders);
    return None;
  }

  method PassHolders(g: Graph, ghost entries: seq<nat>, u: nat, was: Holders) returns (holders: Holders)
    requires GraphOk(g, entries) && u < |g| && |was| == |g|
    ensures |holders| == |g|
    ensures forall s :: 0 <= s < |g| ==> holders[s] == if s in g[u].successors then was[s] + was[u] else was[s]
  {
    var callees := g[u].successors;
    holders := was;
    for k := 0 to |callees|
      invariant |holders| == |g|
      invariant forall s :: 0 <= s < |g| ==> holders[s] == if s in callees[..k] then was[s] + was[u] else was[s]
    {
      var s := callees[k];
      assert s in callees;
      assert callees[..k + 1] == callees[..k] + [s];
      holders := holders[s := holders[s] + holders[u]];
    }
    assert callees[..|callees|] == callees;
  }

  ghost predicate OneVariable(g: Graph, p: seq<nat>) {
    forall a, b :: 0 <= a < b < |p| && p[a] < |g| && p[b] < |g| ==> !(g[p[a]].variable && g[p[b]].variable)
  }

  ghost predicate NoNest(g: Graph, entries: seq<nat>) {
    forall p :: EntryPath(g, entries, p) ==> OneVariable(g, p)
  }

  lemma {:induction false} HoldersFlow(g: Graph, post: seq<nat>, holders: Holders, p: seq<nat>, a: nat, b: nat)
    requires Postorder(g, post) && NestingProgress(g, post, 0, holders) && IsPath(g, p) && p[0] in post
    requires a <= b < |p| && g[p[a]].variable
    ensures p[a] in holders[p[b]]
    decreases b
  {
    assert post[0..] == post;
    PathDown(g, post, p, b);
    if a < b {
      HoldersFlow(g, post, holders, p, a, b - 1);
      PathDown(g, post, p, b - 1);
      assert Edge(g, p[b - 1], p[b]);
    }
  }

  lemma OneApart(g: Graph, post: seq<nat>, holders: Holders, p: seq<nat>, a: nat, b: nat)
    requires Postorder(g, post) && NestingProgress(g, post, 0, holders) && IsPath(g, p) && p[0] in post
    requires a < b < |p| && g[p[a]].variable
    ensures !g[p[b]].variable
  {
    HoldersFlow(g, post, holders, p, a, b);
    PathDown(g, post, p, a);
    PathDown(g, post, p, b);
    assert IsPath(g, p[a..]);
    PathDown(g, post, p[a..], b - a);
    assert post[0..] == post;
  }

  lemma NoNesting(g: Graph, entries: seq<nat>, post: seq<nat>, holders: Holders, p: seq<nat>)
    requires Postorder(g, post) && NestingProgress(g, post, 0, holders) && EntryPath(g, entries, p) && forall e ::
        e in entries ==> e in post
    ensures OneVariable(g, p)
  {
    forall a, b | 0 <= a < b < |p| && g[p[a]].variable ensures !g[p[b]].variable {
      OneApart(g, post, holders, p, a, b);
    }
  }

  /** Two nested variable frames lie on a reachable call path. */
  lemma NestingIsReached(g: Graph, entries: seq<nat>, p: seq<nat>)
    requires Nesting(g, p) && Reached(g, entries, p[0])
    ensures exists q :: EntryPath(g, entries, q) && !OneVariable(g, q)
  {
    var to :| EntryPath(g, entries, to) && Last(to) == p[0];
    var q := to + p[1..];
    forall i | 0 < i < |q| ensures Edge(g, q[i - 1], q[i]) {
      if i >= |to| { assert q[i] == p[i - |to| + 1] && q[i - 1] == p[i - |to|]; }
    }
    assert q[|to| - 1] == p[0] && q[|q| - 1] == Last(p);
    assert EntryPath(g, entries, q) && !OneVariable(g, q);
  }

  // ----- what acceptance means -----

  /** A reachable call path whose only variable frame is `v`. */
  ghost predicate Around(g: Graph, entries: seq<nat>, v: nat, before: seq<nat>, after: seq<nat>) {
    v < |g| && g[v].variable && EntryPath(g, entries, before + [v] + after) && FixedPath(g, before)
        && FixedPath(g, after)
  }

  function Need(g: Graph, v: nat): nat
    requires v < |g|
  {
    if g[v].floor < PORTABLE_STACK_GRANULE then PORTABLE_STACK_GRANULE else g[v].floor
  }

  ghost predicate PathFits(g: Graph, p: seq<nat>) {
    OneVariable(g, p) && |p| <= KERNEL_CALL_FRAMES && (FixedPath(g, p) ==> Weight(Floors(g), p) <= KERNEL_STACK_BYTES)
  }

  /** Which graphs the pass must accept, said over call paths only. */
  ghost predicate Acceptable(g: Graph, entries: seq<nat>) {
    && (forall cycle :: !Recursion(g, entries, cycle))
    && (forall p :: EntryPath(g, entries, p) ==> PathFits(g, p))
    && (forall v, before, after :: Around(g, entries, v, before, after) ==>
          Weight(Floors(g), before) + Weight(Floors(g), after) + Need(g, v) <= KERNEL_STACK_BYTES)
  }

  /** The budget is what the costliest surrounding path leaves, and some path really costs that. */
  ghost predicate Exact(g: Graph, entries: seq<nat>, v: nat, budget: nat) {
    && (Reached(g, entries, v) ==>
         && (forall before, after :: Around(g, entries, v, before, after) ==>
               Weight(Floors(g), before) + Weight(Floors(g), after) + budget <= KERNEL_STACK_BYTES)
         && exists before, after ::
              && Around(g, entries, v, before, after) && Leaf(g, before + [v] + after)
              && Weight(Floors(g), before) + Weight(Floors(g), after) + budget == KERNEL_STACK_BYTES)
    && (!Reached(g, entries, v) ==> budget == KERNEL_STACK_BYTES)
  }

  ghost predicate Leaf(g: Graph, p: seq<nat>) {
    p != [] && Last(p) < |g| && g[Last(p)].successors == []
  }

  ghost predicate Budgets(g: Graph, entries: seq<nat>, budgets: seq<nat>) {
    |budgets| == |g| && forall v :: 0 <= v < |g| && g[v].variable ==> Exact(g, entries, v, budgets[v])
  }

  // ----- every run fits -----

  /** Frame sizes within the budgets: measured frames as measured, variable ones at most their budget. */
  ghost predicate Sizes(g: Graph, budgets: seq<nat>, frames: seq<nat>) {
    |budgets| == |g| && |frames| == |g|
    && forall v :: 0 <= v < |g| ==> if g[v].variable then frames[v] <= budgets[v] else frames[v] == g[v].floor
  }

  lemma {:induction false} FixedWeight(g: Graph, budgets: seq<nat>, frames: seq<nat>, p: seq<nat>)
    requires Sizes(g, budgets, frames) && FixedPath(g, p)
    ensures Weight(frames, p) == Weight(Floors(g), p)
  {
    if p != [] {
      FixedWeight(g, budgets, frames, p[..|p| - 1]);
      assert Fixed(g)[Last(p)];
    }
  }

  lemma AroundFits(g: Graph, entries: seq<nat>, budgets: seq<nat>, frames: seq<nat>, before: seq<nat>, v: nat,
                   after: seq<nat>)
    requires Budgets(g, entries, budgets) && Sizes(g, budgets, frames) && Around(g, entries, v, before, after)
    ensures Weight(frames, before + [v] + after) <= KERNEL_STACK_BYTES
  {
    assert (before + [v] + after)[|before|] == v;
    ReachedPrefix(g, entries, before + [v] + after, |before|);
    assert Exact(g, entries, v, budgets[v]);
    FixedWeight(g, budgets, frames, before);
    FixedWeight(g, budgets, frames, after);
    WeightConcat(frames, before + [v], after);
    WeightConcat(frames, before, [v]);
    WeightOne(frames, v);
  }

  lemma AroundSplit(g: Graph, entries: seq<nat>, p: seq<nat>, k: nat)
    requires EntryPath(g, entries, p) && OneVariable(g, p) && k < |p| && g[p[k]].variable
    ensures p == p[..k] + [p[k]] + p[k + 1..] && Around(g, entries, p[k], p[..k], p[k + 1..])
  {
    assert p == p[..k] + [p[k]] + p[k + 1..];
    forall i | 0 <= i < |p| && i != k ensures !g[p[i]].variable {}
  }

  /** Whatever the sizes chosen within the budgets, every reachable call path fits all three limits. */
  lemma EveryPathFits(g: Graph, entries: seq<nat>, budgets: seq<nat>, frames: seq<nat>, p: seq<nat>)
    requires Acceptable(g, entries) && Budgets(g, entries, budgets) && Sizes(g, budgets, frames)
        && EntryPath(g, entries, p)
    ensures Weight(frames, p) <= KERNEL_STACK_BYTES && |p| <= KERNEL_CALL_FRAMES && OneVariable(g, p)
  {
    assert PathFits(g, p);
    hide Acceptable, Budgets, Sizes, Weight, Around, OneVariable;
    if k :| 0 <= k < |p| && g[p[k]].variable {
      AroundSplit(g, entries, p, k);
      AroundFits(g, entries, budgets, frames, p[..k], p[k], p[k + 1..]);
    } else {
      FixedWeight(g, budgets, frames, p);
    }
  }

  // ----- the pass -----

  /** The longest prefixes and suffixes of fixed frames around every node. */
  ghost predicate FixedCosts(g: Graph, entries: seq<nat>, post: seq<nat>, prefix: Values, prefixLink: Values,
                             suffix: Values, suffixLink: Values) {
    && Setup(g, entries, post, Floors(g), Fixed(g)) && Measured(g)
    && (forall v :: v in post <==> Reached(g, entries, v))
    && Progress(g, entries, post, Floors(g), Fixed(g), KERNEL_STACK_BYTES, 0, prefix, prefixLink)
    && SuffixOk(g, Floors(g), Fixed(g), post, suffix, suffixLink)
  }

  /** The costliest fixed caller prefix of `v`. */
  method CostBefore(g: Graph, prefix: Values, v: nat) returns (cost: nat, from: Option<nat>)
    requires |prefix| == |g|
    ensures from.None? ==> cost == 0 && forall u: nat :: u < |g| && prefix[u].Some? ==> !Edge(g, u, v)
    ensures from.Some? ==> from.value < |g| && prefix[from.value] == Some(cost) && Edge(g, from.value, v)
    ensures forall u: nat :: u < |g| && prefix[u].Some? && Edge(g, u, v) ==> prefix[u].value <= cost
  {
    cost, from := 0, None;
    for u := 0 to |g|
      invariant from.None? ==> cost == 0 && forall x: nat :: x < u && prefix[x].Some? ==> !Edge(g, x, v)
      invariant from.Some? ==> from.value < |g| && prefix[from.value] == Some(cost) && Edge(g, from.value, v)
      invariant forall x: nat :: x < u && prefix[x].Some? && Edge(g, x, v) ==> prefix[x].value <= cost
    {
      if prefix[u].Some? && v in g[u].successors && (from.None? || cost < prefix[u].value) {
        cost, from := prefix[u].value, Some(u);
      }
    }
  }

  /** The costliest fixed callee suffix of `v`. */
  method CostAfter(g: Graph, suffix: Values, v: nat) returns (cost: nat, to: Option<nat>)
    requires |suffix| == |g| && v < |g| && (forall s :: s in g[v].successors ==> s < |g|)
    ensures to.None? ==> cost == 0
    ensures to.Some? ==> to.value < |g| && suffix[to.value] == Some(cost) && Edge(g, v, to.value)
    ensures forall s :: s in g[v].successors && suffix[s].Some? ==> suffix[s].value <= cost
  {
    cost, to := 0, None;
    var callees := g[v].successors;
    for k := 0 to |callees|
      invariant to.None? ==> cost == 0
      invariant to.Some? ==> to.value < |g| && suffix[to.value] == Some(cost) && Edge(g, v, to.value)
      invariant forall s :: s in callees[..k] && s < |g| && suffix[s].Some? ==> suffix[s].value <= cost
    {
      var s := callees[k];
      assert s in callees;
      assert callees[..k + 1] == callees[..k] + [s];
      if suffix[s].Some? && cost < suffix[s].value {
        cost, to := suffix[s].value, Some(s);
      }
    }
    assert callees[..|callees|] == callees;
  }

  lemma SplitPath(g: Graph, entries: seq<nat>, v: nat, before: seq<nat>, after: seq<nat>)
    requires Around(g, entries, v, before, after)
    ensures before != [] ==> EntryPath(g, entries, before) && Edge(g, Last(before), v)
    ensures before == [] ==> v in entries
    ensures after != [] ==> IsPath(g, after) && Edge(g, v, after[0])
  {
    var p := before + [v] + after;
    var k := |before|;
    assert p[k] == v;
    if before != [] {
      assert p[..k] == before && p[k - 1] == Last(before) && Edge(g, p[k - 1], p[k]);
      forall i | 0 < i < k ensures Edge(g, before[i - 1], before[i]) {
        assert before[i] == p[i] && before[i - 1] == p[i - 1];
      }
    }
    if after != [] {
      assert p[k + 1] == after[0] && Edge(g, p[k], p[k + 1]);
      forall i | 0 < i < |after| ensures Edge(g, after[i - 1], after[i]) {
        assert after[i] == p[k + 1 + i] && after[i - 1] == p[k + i];
      }
      forall i | 0 <= i < |after| ensures after[i] < |g| {
        assert after[i] == p[k + 1 + i];
      }
    }
  }

  lemma JoinPath(g: Graph, entries: seq<nat>, v: nat, before: seq<nat>, after: seq<nat>)
    requires v < |g| && g[v].variable && FixedPath(g, before) && FixedPath(g, after)
    requires if before == [] then v in entries else EntryPath(g, entries, before) && Edge(g, Last(before), v)
    requires after != [] ==> IsPath(g, after) && Edge(g, v, after[0])
    ensures Around(g, entries, v, before, after)
  {
    var p := before + [v] + after;
    var k := |before|;
    forall i | 0 < i < |p| ensures Edge(g, p[i - 1], p[i]) {
      if i > k + 1 { assert p[i] == after[i - k - 1] && p[i - 1] == after[i - k - 2]; }
    }
  }

  /** No surrounding path costs more than the two maxima together. */
  lemma CostBound(g: Graph, entries: seq<nat>, post: seq<nat>, prefix: Values, prefixLink: Values, suffix: Values,
                  suffixLink: Values, v: nat, ahead: nat, behind: nat, before: seq<nat>, after: seq<nat>)
    requires FixedCosts(g, entries, post, prefix, prefixLink, suffix, suffixLink)
        && Around(g, entries, v, before, after)
    requires forall u: nat :: u < |g| && prefix[u].Some? && Edge(g, u, v) ==> prefix[u].value <= ahead
    requires forall s :: s in g[v].successors && s < |g| && suffix[s].Some? ==> suffix[s].value <= behind
    ensures Weight(Floors(g), before) <= ahead && Weight(Floors(g), after) <= behind
  {
    SplitPath(g, entries, v, before, after);
    if before != [] {
      PrefixBound(g, entries, post, Floors(g), Fixed(g), KERNEL_STACK_BYTES, prefix, prefixLink, before);
    }
    if after != [] {
      var p := before + [v] + after;
      ReachedPrefix(g, entries, p, |before|);
      EdgeDown(g, post, v, after[0]);
      SuffixBound(g, post, Floors(g), Fixed(g), suffix, suffixLink, after);
    }
  }

  /** A reachable frame no fixed caller leads to is an entry. */
  lemma CallerOrEntry(g: Graph, entries: seq<nat>, post: seq<nat>, prefix: Values, prefixLink: Values, v: nat)
    requires Setup(g, entries, post, Floors(g), Fixed(g))
        && Progress(g, entries, post, Floors(g), Fixed(g), KERNEL_STACK_BYTES, 0, prefix, prefixLink)
    requires NoNest(g, entries) && Reached(g, entries, v) && v < |g| && g[v].variable
    requires forall u: nat :: u < |g| && prefix[u].Some? ==> !Edge(g, u, v)
    ensures v in entries
  {
    var p :| EntryPath(g, entries, p) && Last(p) == v;
    if |p| > 1 {
      var q := p[..|p| - 1];
      assert EntryPath(g, entries, q) && Edge(g, p[|p| - 2], p[|p| - 1]) && Last(q) == p[|p| - 2];
      assert OneVariable(g, p);
      assert FixedPath(g, q) by {
        forall i | 0 <= i < |q| ensures !g[q[i]].variable { assert q[i] == p[i]; }
      }
      PrefixBound(g, entries, post, Floors(g), Fixed(g), KERNEL_STACK_BYTES, prefix, prefixLink, q);
    }
  }

  /** With at most one variable frame per path, a path through one ends where only variable callees would follow. */
  lemma EndsAtLeaf(g: Graph, entries: seq<nat>, v: nat, before: seq<nat>, after: seq<nat>)
    requires GraphOk(g, entries) && Around(g, entries, v, before, after)
    requires NoNest(g, entries)
    requires forall s: nat :: Edge(g, Last(before + [v] + after), s) ==> s < |g| && !Fixed(g)[s]
    ensures Leaf(g, before + [v] + after)
  {
    hide NoNest;
    var p := before + [v] + after;
    if g[Last(p)].successors != [] {
      var s := g[Last(p)].successors[0];
      assert Edge(g, Last(p), s);
      PathGrows(g, p, s);
      var longer := p + [s];
      assert longer[|before|] == v && longer[|p|] == s;
      OneOf(g, entries, longer);
    }
  }

  /** `before` and `after` make a real path through `v` to a leaf, and no surrounding path costs more than `fixed`. */
  ghost predicate Costliest(g: Graph, entries: seq<nat>, v: nat, fixed: nat, before: seq<nat>, after: seq<nat>) {
    && (Reached(g, entries, v) ==> Around(g, entries, v, before, after) && Leaf(g, before + [v] + after)
                                   && fixed == Weight(Floors(g), before) + Weight(Floors(g), after))
    && forall b, a :: Around(g, entries, v, b, a) ==> Weight(Floors(g), b) + Weight(Floors(g), a) <= fixed
  }

  lemma CostliestPath(g: Graph, entries: seq<nat>, post: seq<nat>, prefix: Values, prefixLink: Values, suffix: Values,
                      suffixLink: Values, v: nat,
                      ahead: nat, from: Option<nat>, behind: nat, to: Option<nat>, before: seq<nat>, after: seq<nat>)
    requires FixedCosts(g, entries, post, prefix, prefixLink, suffix, suffixLink) && NoNest(g, entries)
    requires v < |g| && g[v].variable && Reached(g, entries, v)
    requires from.None? ==> before == [] && forall u: nat :: u < |g| && prefix[u].Some? ==> !Edge(g, u, v)
    requires from.Some? ==> EntryPath(g, entries, before) && FixedPath(g, before) && Edge(g, Last(before), v)
    requires to.None? ==> after == [] && behind == 0
    requires to.Some? ==> IsPath(g, after) && FixedPath(g, after) && Edge(g, v, after[0])
                          && forall s: nat :: Edge(g, Last(after), s) ==> s < |g| && !Fixed(g)[s]
    requires forall s :: s in g[v].successors && s < |g| && suffix[s].Some? ==> suffix[s].value <= behind
    ensures Around(g, entries, v, before, after) && Leaf(g, before + [v] + after)
  {
    if from.None? { CallerOrEntry(g, entries, post, prefix, prefixLink, v); }
    JoinPath(g, entries, v, before, after);
    LastOfPath(g, entries, post, prefix, prefixLink, suffix, suffixLink, v, behind, to, before, after);
    EndsAtLeaf(g, entries, v, before, after);
  }

  method BudgetFor(g: Graph, entries: seq<nat>, post: seq<nat>, prefix: Values, prefixLink: Values, suffix: Values,
                   suffixLink: Values, v: nat)
    returns (fixed: nat, before: seq<nat>, after: seq<nat>)
    requires FixedCosts(g, entries, post, prefix, prefixLink, suffix, suffixLink) && v < |g| && g[v].variable
    requires NoNest(g, entries)
    ensures Costliest(g, entries, v, fixed, before, after)
  {
    assert GraphOk(g, entries);
    var ahead, from := CostBefore(g, prefix, v);
    var behind, to := CostAfter(g, suffix, v);
    hide GraphOk, Postorder, NoNest, Reached, Around, Leaf, Weight, Through, EntryPath, IsPath, Linked, Relaxed,
        SuffixAt, Edge, Floors, Fixed, Measured;
    fixed, before, after := ahead + behind, [], [];
    assert Weight(Floors(g), []) == 0 by { WeightEmpty(g); }
    if from.Some? {
      before := PrefixPath(g, entries, post, Floors(g), Fixed(g), 0, prefix, prefixLink, from.value);
    }
    if to.Some? {
      FloorsPositive(g);
      after := SuffixPath(g, entries, post, Floors(g), Fixed(g), suffix, suffixLink, to.value);
      PathNonEmpty(g, after);
    }
    forall b, a | Around(g, entries, v, b, a) ensures Weight(Floors(g), b) + Weight(Floors(g), a) <= fixed {
      CostBound(g, entries, post, prefix, prefixLink, suffix, suffixLink, v, ahead, behind, b, a);
    }
    if Reached(g, entries, v) {
      CostliestPath(g, entries, post, prefix, prefixLink, suffix, suffixLink, v,
                    ahead, from, behind, to, before, after);
    }
  }

  lemma WeightEmpty(g: Graph)
    ensures Weight(Floors(g), []) == 0
  {
  }

  lemma PathNonEmpty(g: Graph, p: seq<nat>)
    requires IsPath(g, p)
    ensures p != []
  {
  }

  lemma FloorsPositive(g: Graph)
    requires Measured(g)
    ensures |Floors(g)| == |g| && |Fixed(g)| == |g| && forall x :: 0 <= x < |g| && Fixed(g)[x] ==> Floors(g)[x] > 0
  {
  }

  lemma LastOfPath(g: Graph, entries: seq<nat>, post: seq<nat>, prefix: Values, prefixLink: Values, suffix: Values,
                   suffixLink: Values, v: nat, behind: nat, to: Option<nat>, before: seq<nat>, after: seq<nat>)
    requires FixedCosts(g, entries, post, prefix, prefixLink, suffix, suffixLink) && v < |g| && Reached(g, entries, v)
    requires forall s :: s in g[v].successors && s < |g| && suffix[s].Some? ==> suffix[s].value <= behind
    requires to.None? ==> after == [] && behind == 0
    requires to.Some? ==> after != [] && forall s: nat :: Edge(g, Last(after), s) ==> s < |g| && !Fixed(g)[s]
    ensures forall s: nat :: Edge(g, Last(before + [v] + after), s) ==> s < |g| && !Fixed(g)[s]
  {
    if to.None? {
      assert Last(before + [v] + after) == v;
      forall s: nat | Edge(g, v, s) ensures s < |g| && !Fixed(g)[s] {
        EdgeDown(g, post, v, s);
        SuffixAtLeast(g, post, Floors(g), Fixed(g), suffix, suffixLink, s);
      }
    }
  }

  lemma RejectNesting(g: Graph, entries: seq<nat>, outer: nat, inner: nat)
    requires Reached(g, entries, outer) && exists p :: Nesting(g, p) && p[0] == outer && Last(p) == inner
    ensures !Acceptable(g, entries) && Witnessed(g, entries, NestedFrames(outer, inner))
  {
    var p :| Nesting(g, p) && p[0] == outer && Last(p) == inner;
    NestingIsReached(g, entries, p);
    var q :| EntryPath(g, entries, q) && !OneVariable(g, q);
    assert !PathFits(g, q);
  }

  lemma {:induction false} LengthWeight(g: Graph, p: seq<nat>)
    requires forall i :: 0 <= i < |p| ==> p[i] < |g|
    ensures Weight(Ones(g), p) == |p|
  {
    if p != [] { LengthWeight(g, p[..|p| - 1]); }
  }

  lemma ShortAndSmall(g: Graph, entries: seq<nat>, post: seq<nat>, frames: Values, frameLink: Values, prefix: Values,
                      prefixLink: Values, p: seq<nat>)
    requires Setup(g, entries, post, Ones(g), All(g))
        && Progress(g, entries, post, Ones(g), All(g), KERNEL_CALL_FRAMES, 0, frames, frameLink)
    requires Setup(g, entries, post, Floors(g), Fixed(g))
        && Progress(g, entries, post, Floors(g), Fixed(g), KERNEL_STACK_BYTES, 0, prefix, prefixLink)
    requires EntryPath(g, entries, p) && OneVariable(g, p)
    ensures PathFits(g, p)
  {
    PrefixBound(g, entries, post, Ones(g), All(g), KERNEL_CALL_FRAMES, frames, frameLink, p);
    LengthWeight(g, p);
    if FixedPath(g, p) {
      PrefixBound(g, entries, post, Floors(g), Fixed(g), KERNEL_STACK_BYTES, prefix, prefixLink, p);
    }
  }

  /** What is left for node `v` when its surroundings cost `fixed`. */
  function Remaining(fixed: nat): nat {
    if fixed < KERNEL_STACK_BYTES then KERNEL_STACK_BYTES - fixed else 0
  }

  ghost predicate Served(g: Graph, entries: seq<nat>, budgets: seq<nat>, v: nat) {
    v < |g| && v < |budgets| && g[v].variable ==>
      && Exact(g, entries, v, budgets[v])
      && forall before, after :: Around(g, entries, v, before, after) ==>
           Weight(Floors(g), before) + Weight(Floors(g), after) + Need(g, v) <= KERNEL_STACK_BYTES
  }

  lemma Serve(g: Graph, entries: seq<nat>, budgets: seq<nat>, v: nat, fixed: nat, before: seq<nat>, after: seq<nat>)
    requires v < |g| && v < |budgets| && g[v].variable
    requires Costliest(g, entries, v, fixed, before, after)
    requires Reached(g, entries, v) ==> budgets[v] == Remaining(fixed) && Need(g, v) <= budgets[v]
    requires !Reached(g, entries, v) ==> budgets[v] == KERNEL_STACK_BYTES
    ensures Served(g, entries, budgets, v)
  {
    forall b, a | Around(g, entries, v, b, a)
      ensures Weight(Floors(g), b) + Weight(Floors(g), a) + Need(g, v) <= KERNEL_STACK_BYTES
    {
      ReachedPrefix(g, entries, b + [v] + a, |b|);
    }
  }

  lemma RejectFrame(g: Graph, entries: seq<nat>, v: nat, fixed: nat, before: seq<nat>, after: seq<nat>)
    requires v < |g| && g[v].variable && Reached(g, entries, v) && Costliest(g, entries, v, fixed, before, after)
    requires Remaining(fixed) < PORTABLE_STACK_GRANULE || g[v].floor > Remaining(fixed)
    ensures !Acceptable(g, entries) && Witnessed(g, entries, NoFrameFits(v, before + [v] + after))
  {
  }

  /** A call path around `v` whose fixed frames leave less than the frame needs. */
  ghost predicate NoRoom(g: Graph, entries: seq<nat>, v: nat, path: seq<nat>) {
    exists before, after :: path == before + [v] + after && Around(g, entries, v, before, after)
      && Weight(Floors(g), before) + Weight(Floors(g), after) + Need(g, v) > KERNEL_STACK_BYTES
  }

  lemma ServeFixed(g: Graph, entries: seq<nat>, budgets: seq<nat>, v: nat)
    requires v < |g| && !g[v].variable
    ensures Served(g, entries, budgets, v)
  {
  }

  lemma ServedStays(g: Graph, entries: seq<nat>, was: seq<nat>, budgets: seq<nat>, v: nat)
    requires v < |was| <= |budgets| && was[v] == budgets[v] && Served(g, entries, was, v)
    ensures Served(g, entries, budgets, v)
  {
  }

  lemma PostIsReached(g: Graph, entries: seq<nat>, post: seq<nat>, prefix: Values, prefixLink: Values, suffix: Values,
                      suffixLink: Values)
    requires FixedCosts(g, entries, post, prefix, prefixLink, suffix, suffixLink)
    ensures forall v :: v in post <==> Reached(g, entries, v)
  {
  }

  method AssignAll(g: Graph, entries: seq<nat>, post: seq<nat>, prefix: Values, prefixLink: Values, suffix: Values,
                   suffixLink: Values)
    returns (r: Result<seq<nat>, Rejection>)
    requires FixedCosts(g, entries, post, prefix, prefixLink, suffix, suffixLink)
    requires NoNest(g, entries)
    ensures r.Ok? ==> |r.value| == |g| && forall v :: 0 <= v < |g| ==> Served(g, entries, r.value, v)
    ensures r.Err? ==> Witnessed(g, entries, r.error) && !Acceptable(g, entries)
  {
    var budgets: seq<nat> := [];
    hide FixedCosts, Costliest, Served, Reached, NoNest, Acceptable, EntryPath, Witnessed;
    PostIsReached(g, entries, post, prefix, prefixLink, suffix, suffixLink);
    for v := 0 to |g|
      invariant |budgets| == v && forall x :: 0 <= x < v ==> Served(g, entries, budgets, x)
    {
      ghost var was := budgets;
      if g[v].variable {
        var fixed, before, after := BudgetFor(g, entries, post, prefix, prefixLink, suffix, suffixLink, v);
        var budget := if v in post then Remaining(fixed) else KERNEL_STACK_BYTES;
        if v in post && (budget < PORTABLE_STACK_GRANULE || g[v].floor > budget) {
          RejectFrame(g, entries, v, fixed, before, after);
          return Err(NoFrameFits(v, before + [v] + after));
        }
        budgets := budgets + [budget];
        Serve(g, entries, budgets, v, fixed, before, after);
      } else {
        budgets := budgets + [0];
        ServeFixed(g, entries, budgets, v);
      }
      forall x | 0 <= x < v ensures Served(g, entries, budgets, x) {
        ServedStays(g, entries, was, budgets, x);
      }
    }
    return Ok(budgets);
  }

  /** The rejection carries what rules the graph out. */
  ghost predicate Witnessed(g: Graph, entries: seq<nat>, r: Rejection) {
    match r
    case Recursive(cycle) => Recursion(g, entries, cycle)
    case NestedFrames(outer, inner) =>
      Reached(g, entries, outer) && exists p :: Nesting(g, p) && p[0] == outer && Last(p) == inner
    case TooManyFrames(path) => EntryPath(g, entries, path) && |path| > KERNEL_CALL_FRAMES
    case TooManyBytes(path) =>
      EntryPath(g, entries, path) && FixedPath(g, path) && Weight(Floors(g), path) > KERNEL_STACK_BYTES
    case NoFrameFits(v, path) => NoRoom(g, entries, v, path)
  }

  /** Accept exactly the graphs whose every call path can be made to fit, with exact budgets. */
  method Assign(g: Graph, entries: seq<nat>) returns (r: Result<seq<nat>, Rejection>)
    requires GraphOk(g, entries) && Measured(g)
    ensures r.Ok? <==> Acceptable(g, entries)
    ensures r.Ok? ==> Budgets(g, entries, r.value)
    ensures r.Err? ==> Witnessed(g, entries, r.error)
  {
    var order := Order(g, entries);
    hide Acceptable, Witnessed, Budgets;
    if order.Err? {
      RejectCycle(g, entries, order.error);
      return Err(Recursive(order.error));
    }
    var post := order.value;
    assert Setup(g, entries, post, Ones(g), All(g)) && Setup(g, entries, post, Floors(g), Fixed(g));
    var nested := CheckNesting(g, entries, post);
    if nested.Some? {
      RejectNesting(g, entries, nested.value.0, nested.value.1);
      return Err(NestedFrames(nested.value.0, nested.value.1));
    }
    hide NoNest, Recursion, Reached, EntryPath, IsPath, Postorder, GraphOk, Progress, SuffixOk, Served;
    var frames := LongestPrefix(g, entries, post, Ones(g), All(g), KERNEL_CALL_FRAMES);
    if frames.Err? {
      RejectFrames(g, entries, frames.error);
      return Err(TooManyFrames(frames.error));
    }
    var prefixes := LongestPrefix(g, entries, post, Floors(g), Fixed(g), KERNEL_STACK_BYTES);
    if prefixes.Err? {
      RejectBytes(g, entries, prefixes.error);
      return Err(TooManyBytes(prefixes.error));
    }
    var suffix, suffixLink := LongestSuffix(g, entries, post, Floors(g), Fixed(g));
    r := AssignAll(g, entries, post, prefixes.value.0, prefixes.value.1, suffix, suffixLink);
    if r.Ok? {
      forall p | EntryPath(g, entries, p) ensures PathFits(g, p) {
        OneOf(g, entries, p);
        ShortAndSmall(g, entries, post, frames.value.0, frames.value.1, prefixes.value.0, prefixes.value.1, p);
      }
      AllServed(g, entries, r.value);
    }
  }

  lemma NeverNests(g: Graph, entries: seq<nat>, post: seq<nat>, holders: Holders)
    requires Postorder(g, post) && (forall e :: e in entries ==> e in post) && NestingProgress(g, post, 0, holders)
    ensures NoNest(g, entries)
  {
    forall p | EntryPath(g, entries, p) ensures OneVariable(g, p) { NoNesting(g, entries, post, holders, p); }
  }

  lemma OneOf(g: Graph, entries: seq<nat>, p: seq<nat>)
    requires NoNest(g, entries) && EntryPath(g, entries, p)
    ensures OneVariable(g, p)
  {
  }

  lemma RejectFrames(g: Graph, entries: seq<nat>, p: seq<nat>)
    requires EntryPath(g, entries, p) && Weight(Ones(g), p) > KERNEL_CALL_FRAMES
    ensures !Acceptable(g, entries) && Witnessed(g, entries, TooManyFrames(p))
  {
    LengthWeight(g, p);
    assert !PathFits(g, p);
  }

  lemma RejectBytes(g: Graph, entries: seq<nat>, p: seq<nat>)
    requires EntryPath(g, entries, p) && FixedPath(g, p) && Weight(Floors(g), p) > KERNEL_STACK_BYTES
    ensures !Acceptable(g, entries) && Witnessed(g, entries, TooManyBytes(p))
  {
    assert !PathFits(g, p);
  }

  lemma RejectCycle(g: Graph, entries: seq<nat>, cycle: seq<nat>)
    requires Recursion(g, entries, cycle)
    ensures !Acceptable(g, entries) && Witnessed(g, entries, Recursive(cycle))
  {
  }

  lemma AllServed(g: Graph, entries: seq<nat>, budgets: seq<nat>)
    requires |budgets| == |g| && forall v :: 0 <= v < |g| ==> Served(g, entries, budgets, v)
    requires (forall cycle :: !Recursion(g, entries, cycle)) && forall p :: EntryPath(g, entries, p) ==> PathFits(g, p)
    ensures Acceptable(g, entries) && Budgets(g, entries, budgets)
  {
    forall v, before, after | Around(g, entries, v, before, after)
      ensures Weight(Floors(g), before) + Weight(Floors(g), after) + Need(g, v) <= KERNEL_STACK_BYTES
    {
      assert Served(g, entries, budgets, v);
    }
    forall v | 0 <= v < |g| && g[v].variable ensures Exact(g, entries, v, budgets[v]) {
      assert Served(g, entries, budgets, v);
    }
  }
}
