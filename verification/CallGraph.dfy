/** Physical call graphs: paths, and the coloured depth-first search that orders them. */
module CallGraph {
  import opened Wrappers

  /** One emitted frame. A variable frame's size is chosen later; `floor` is what it needs at least. */
  datatype Node = Node(variable: bool, floor: nat, successors: seq<nat>)

  type Graph = seq<Node>

  ghost predicate GraphOk(g: Graph, entries: seq<nat>) {
    && (forall v, s :: 0 <= v < |g| && s in g[v].successors ==> s < |g|)
    && (forall e :: e in entries ==> e < |g|)
  }

  predicate Edge(g: Graph, u: nat, v: nat) {
    u < |g| && v in g[u].successors
  }

  ghost predicate IsPath(g: Graph, p: seq<nat>) {
    && p != []
    && (forall i :: 0 <= i < |p| ==> p[i] < |g|)
    && (forall i :: 0 < i < |p| ==> Edge(g, p[i - 1], p[i]))
  }

  function Last(p: seq<nat>): nat
    requires p != []
  {
    p[|p| - 1]
  }

  /** A call path the kernel can reach. */
  ghost predicate EntryPath(g: Graph, entries: seq<nat>, p: seq<nat>) {
    IsPath(g, p) && p[0] in entries
  }

  ghost predicate Reached(g: Graph, entries: seq<nat>, v: nat) {
    exists p :: EntryPath(g, entries, p) && Last(p) == v
  }

  /** A reachable call path that comes back to where it started. */
  ghost predicate Recursion(g: Graph, entries: seq<nat>, cycle: seq<nat>) {
    IsPath(g, cycle) && |cycle| >= 2 && cycle[0] == Last(cycle) && Reached(g, entries, cycle[0])
  }

  lemma PathGrows(g: Graph, p: seq<nat>, v: nat)
    requires IsPath(g, p) && Edge(g, Last(p), v) && v < |g|
    ensures IsPath(g, p + [v])
  {
  }

  lemma ReachedPrefix(g: Graph, entries: seq<nat>, p: seq<nat>, i: nat)
    requires EntryPath(g, entries, p) && i < |p|
    ensures Reached(g, entries, p[i])
  {
    assert EntryPath(g, entries, p[..i + 1]) && Last(p[..i + 1]) == p[i];
  }

  // ----- orders -----

  /** Every node's callees come before it. */
  ghost predicate Postorder(g: Graph, post: seq<nat>) {
    && Unique(post)
    && (forall i :: 0 <= i < |post| ==> post[i] < |g|)
    && (forall i, s :: 0 <= i < |post| && s in g[post[i]].successors ==> s in post[..i])
  }

  function Index(post: seq<nat>, v: nat): (i: nat)
    requires v in post
    ensures i < |post| && post[i] == v && v !in post[..i]
  {
    if post[0] == v then 0 else 1 + Index(post[1..], v)
  }

  lemma EdgeDown(g: Graph, post: seq<nat>, u: nat, v: nat)
    requires Postorder(g, post) && u in post && Edge(g, u, v)
    ensures v in post && Index(post, v) < Index(post, u)
  {
    var i := Index(post, u);
    assert v in post[..i];
    var j :| 0 <= j < i && post[j] == v;
  }

  lemma {:induction false} PathDown(g: Graph, post: seq<nat>, p: seq<nat>, i: nat)
    requires Postorder(g, post) && IsPath(g, p) && p[0] in post && i < |p|
    ensures p[i] in post && (i > 0 ==> Index(post, p[i]) < Index(post, p[0]))
  {
    if i > 0 {
      PathDown(g, post, p, i - 1);
      EdgeDown(g, post, p[i - 1], p[i]);
    }
  }

  /** An order of the reachable graph exists only without recursion. */
  lemma OrderedHasNoRecursion(g: Graph, entries: seq<nat>, post: seq<nat>, cycle: seq<nat>)
    requires Postorder(g, post) && forall e :: e in entries ==> e in post
    ensures !Recursion(g, entries, cycle)
  {
    if Recursion(g, entries, cycle) {
      var p :| EntryPath(g, entries, p) && Last(p) == cycle[0];
      PathDown(g, post, p, |p| - 1);
      PathDown(g, post, cycle, |cycle| - 1);
    }
  }

  lemma ReachedIsOrdered(g: Graph, entries: seq<nat>, post: seq<nat>, v: nat)
    requires Postorder(g, post) && (forall e :: e in entries ==> e in post) && Reached(g, entries, v)
    ensures v in post
  {
    var p :| EntryPath(g, entries, p) && Last(p) == v;
    PathDown(g, post, p, |p| - 1);
  }

  // ----- the search -----

  /** White is 0, on the active call path 1, finished 2. */
  ghost predicate Searching(g: Graph, entries: seq<nat>, color: seq<nat>, active: seq<nat>, post: seq<nat>) {
    && GraphOk(g, entries) && |color| == |g|
    && (forall v :: 0 <= v < |g| ==> (color[v] == 1 <==> v in active) && (color[v] == 2 <==> v in post))
    && (forall v :: v in active ==> v < |g|)
    && Postorder(g, post)
    && Unique(active) && (active != [] ==> EntryPath(g, entries, active))
    && (forall v :: v in post ==> Reached(g, entries, v))
  }

  /** `node` continues the active call path. */
  ghost predicate Called(g: Graph, entries: seq<nat>, active: seq<nat>, node: nat) {
    node < |g| && if active == [] then node in entries else Edge(g, Last(active), node)
  }

  ghost function White(color: seq<nat>): set<nat> {
    set v | 0 <= v < |color| && color[v] != 1 && color[v] != 2
  }

  lemma Enter(g: Graph, entries: seq<nat>, color: seq<nat>, active: seq<nat>, post: seq<nat>, node: nat)
    requires Searching(g, entries, color, active, post) && Called(g, entries, active, node)
    requires color[node] != 1 && color[node] != 2
    ensures Searching(g, entries, color[node := 1], active + [node], post)
    ensures White(color[node := 1]) < White(color)
  {
    assert node in White(color) && node !in White(color[node := 1]);
    if active != [] { PathGrows(g, active, node); }
  }

  lemma Leave(g: Graph, entries: seq<nat>, color: seq<nat>, active: seq<nat>, post: seq<nat>, node: nat)
    requires Searching(g, entries, color, active + [node], post)
    requires node < |g| && forall s :: s in g[node].successors ==> s in post
    ensures Searching(g, entries, color[node := 2], active, post + [node])
    ensures White(color[node := 2]) <= White(color)
  {
    var path := active + [node];
    assert path[|active|] == node && node in path && color[node] == 1;
    Finish(g, post, node);
    assert Reached(g, entries, node) by { assert EntryPath(g, entries, path) && Last(path) == node; }
    assert active == path[..|active|];
    if active != [] { assert EntryPath(g, entries, path[..|active|]); }
    assert node !in active by { assert forall i :: 0 <= i < |active| ==> active[i] == path[i]; }
    assert forall v :: v in path <==> v in active || v == node;
  }

  lemma Callee(g: Graph, entries: seq<nat>, active: seq<nat>, node: nat, k: nat)
    requires GraphOk(g, entries) && node < |g| && k < |g[node].successors|
    ensures Called(g, entries, active + [node], g[node].successors[k])
  {
    assert g[node].successors[k] in g[node].successors;
  }

  class Search {
    const g: Graph
    const entries: seq<nat>
    var color: seq<nat>
    var active: seq<nat>
    var postorder: seq<nat>

    constructor (g: Graph, entries: seq<nat>)
      requires GraphOk(g, entries)
      ensures this.g == g && this.entries == entries && Valid() && active == [] && postorder == []
    {
      this.g, this.entries := g, entries;
      color, active, postorder := seq(|g|, _ => 0), [], [];
    }

    ghost predicate Valid()
      reads this
    {
      Searching(g, entries, color, active, postorder)
    }

    /** Visit a callee of the active path: finish it and all it reaches, or report the cycle it closes. */
    method Visit(node: nat) returns (cycle: Option<seq<nat>>)
      requires Valid() && Called(g, entries, active, node)
      modifies this
      ensures cycle.Some? ==> Recursion(g, entries, cycle.value)
      ensures cycle.None? ==> Valid() && active == old(active) && node in postorder
      ensures cycle.None? ==> old(postorder) <= postorder && White(color) <= old(White(color))
      decreases White(color)
    {
      VisitFacts(g, entries, color, active, postorder, node);
      hide Searching, White, Called, Recursion, GraphOk, Index, Edge;
      if color[node] == 2 { return None; }
      if color[node] == 1 {
        return Some(active[Index(active, node)..] + [node]);
      }
      Enter(g, entries, color, active, postorder, node);
      color := color[node := 1];
      active := active + [node];
      ghost var whites := White(color);
      var k := 0;
      while k < |g[node].successors|
        invariant 0 <= k <= |g[node].successors| && Valid() && active == old(active) + [node]
        invariant old(postorder) <= postorder && White(color) <= whites
        invariant forall j :: 0 <= j < k ==> g[node].successors[j] in postorder
      {
        ghost var before := postorder;
        Callee(g, entries, old(active), node, k);
        var deeper := Visit(g[node].successors[k]);
        if deeper.Some? { return deeper; }
        assert forall v :: v in before ==> v in postorder;
        k := k + 1;
      }
      ColorSize(g, entries, color, active, postorder);
      Leave(g, entries, color, old(active), postorder, node);
      active := active[..|active| - 1];
      color := color[node := 2];
      postorder := postorder + [node];
      return None;
    }
  }

  lemma VisitFacts(g: Graph, entries: seq<nat>, color: seq<nat>, active: seq<nat>, post: seq<nat>, node: nat)
    requires Searching(g, entries, color, active, post) && Called(g, entries, active, node)
    ensures node < |g| && |color| == |g| && GraphOk(g, entries)
    ensures color[node] == 2 ==> node in post
    ensures color[node] == 1 ==> node in active && Recursion(g, entries, active[Index(active, node)..] + [node])
  {
    if color[node] == 1 {
      CycleFound(g, entries, active, Index(active, node), node);
    }
  }

  lemma ColorSize(g: Graph, entries: seq<nat>, color: seq<nat>, active: seq<nat>, post: seq<nat>)
    requires Searching(g, entries, color, active, post)
    ensures |color| == |g|
  {
  }

  lemma CycleFound(g: Graph, entries: seq<nat>, active: seq<nat>, first: nat, node: nat)
    requires active != [] && EntryPath(g, entries, active) && first < |active| && active[first] == node
        && Edge(g, Last(active), node)
    ensures Recursion(g, entries, active[first..] + [node])
  {
    ReachedPrefix(g, entries, active, first);
    assert IsPath(g, active[first..]);
    PathGrows(g, active[first..], node);
  }

  lemma Finish(g: Graph, post: seq<nat>, node: nat)
    requires Postorder(g, post) && node < |g| && node !in post && forall s :: s in g[node].successors ==> s in post
    ensures Postorder(g, post + [node])
  {
    var longer := post + [node];
    forall i, s | 0 <= i < |longer| && s in g[longer[i]].successors ensures s in longer[..i] {
      assert longer[..i] == post[..i];
    }
  }

  /** A topological order of exactly the reachable nodes, or a genuine recursion. */
  method Order(g: Graph, entries: seq<nat>) returns (r: Result<seq<nat>, seq<nat>>)
    requires GraphOk(g, entries)
    ensures r.Ok? ==> Postorder(g, r.value) && (forall v :: v in r.value <==> Reached(g, entries, v))
    ensures r.Ok? ==> (forall e :: e in entries ==> e in r.value) && forall cycle :: !Recursion(g, entries, cycle)
    ensures r.Err? ==> Recursion(g, entries, r.error)
  {
    var search := new Search(g, entries);
    for k := 0 to |entries|
      invariant search.Valid() && search.g == g && search.entries == entries && search.active == []
      invariant forall j :: 0 <= j < k ==> entries[j] in search.postorder
    {
      assert entries[k] in entries;
      ghost var before := search.postorder;
      var cycle := search.Visit(entries[k]);
      if cycle.Some? { return Err(cycle.value); }
      assert forall v :: v in before ==> v in search.postorder;
    }
    var post := search.postorder;
    forall v | Reached(g, entries, v) ensures v in post { ReachedIsOrdered(g, entries, post, v); }
    forall cycle: seq<nat> ensures !Recursion(g, entries, cycle) { OrderedHasNoRecursion(g, entries, post, cycle); }
    return Ok(post);
  }
}
