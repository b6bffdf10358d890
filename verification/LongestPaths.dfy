/** Longest entry prefixes and longest suffixes over a topological order, with the links
    that rebuild the paths which attain them. */
module LongestPaths {
  import opened Wrappers
  import opened CallGraph

  function Weight(w: seq<nat>, p: seq<nat>): nat {
    if p == [] then 0 else Weight(w, p[..|p| - 1]) + if Last(p) < |w| then w[Last(p)] else 0
  }

  lemma {:induction false} WeightConcat(w: seq<nat>, p: seq<nat>, q: seq<nat>)
    ensures Weight(w, p + q) == Weight(w, p) + Weight(w, q)
  {
    if q == [] {
      assert p + q == p;
    } else {
      WeightConcat(w, p, q[..|q| - 1]);
      assert (p + q)[..|p + q| - 1] == p + q[..|q| - 1];
    }
  }

  lemma WeightOne(w: seq<nat>, v: nat)
    ensures Weight(w, [v]) == if v < |w| then w[v] else 0
  {
    assert [v][..0] == [];
  }

  /** The path only visits marked nodes. */
  ghost predicate Through(mark: seq<bool>, p: seq<nat>) {
    forall i :: 0 <= i < |p| ==> p[i] < |mark| && mark[p[i]]
  }

  type Values = seq<Option<nat>>

  /** A graph, its entries, an order of what they reach, a weight and a mark per node. */
  ghost predicate Setup(g: Graph, entries: seq<nat>, post: seq<nat>, w: seq<nat>, mark: seq<bool>) {
    GraphOk(g, entries) && Postorder(g, post) && (forall e :: e in entries ==> e in post) && |w| == |g| && |mark| == |g|
  }

  /** How a value is justified: an entry's own weight, or one more than the linked caller's value. */
  ghost predicate Linked(g: Graph, entries: seq<nat>, post: seq<nat>, i: nat, w: seq<nat>, mark: seq<bool>,
                         value: Values, link: Values, v: nat)
    requires i <= |post| && |w| == |g| && |mark| == |g| && |value| == |g| && |link| == |g| && v < |g|
  {
    value[v].Some? ==>
      && mark[v] && v in post
      && match link[v]
         case None => v in entries && value[v].value == w[v]
         case Some(u) =>
           u < |g| && u in post[i..] && Edge(g, u, v) && value[u].Some?
           && value[v].value == value[u].value + w[v]
  }

  /** Callees of `u` have at least the value that `u` gives them. */
  ghost predicate Relaxed(g: Graph, w: seq<nat>, mark: seq<bool>, value: Values, u: nat)
    requires |w| == |g| && |mark| == |g| && |value| == |g|
  {
    u < |g| && value[u].Some? ==>
      forall s :: s in g[u].successors && s < |g| && mark[s] ==>
          value[s].Some? && value[u].value + w[s] <= value[s].value
  }

  /** Nodes from index `i` of the order on have been processed. */
  ghost predicate Progress(g: Graph, entries: seq<nat>, post: seq<nat>, w: seq<nat>, mark: seq<bool>, limit: nat,
                           i: nat, value: Values, link: Values) {
    && |w| == |g| && |mark| == |g| && |value| == |g| && |link| == |g| && i <= |post|
    && (forall v :: 0 <= v < |g| ==> Linked(g, entries, post, i, w, mark, value, link, v))
    && (forall e :: e in entries && e < |g| && mark[e] ==> value[e].Some? && w[e] <= value[e].value)
    && (forall u :: u in post[i..] ==> Relaxed(g, w, mark, value, u))
    && (forall u :: u in post[i..] && u < |g| && value[u].Some? ==> value[u].value <= limit)
  }

  /** The values after `u` has offered its own to its first `k` callees. */
  function Offered(w: seq<nat>, mark: seq<bool>, callees: seq<nat>, mine: nat, s: nat): Option<nat>
    requires |mark| == |w|
  {
    if s in callees && s < |w| && mark[s] then Some(mine + w[s]) else None
  }

  function Improved(was: Option<nat>, offer: Option<nat>): bool {
    offer.Some? && (was.None? || was.value < offer.value)
  }

  ghost predicate Offering(w: seq<nat>, mark: seq<bool>, callees: seq<nat>, u: nat, mine: nat, was: Values,
                           value: Values, wasLink: Values, link: Values) {
    && |mark| == |w| && |was| == |w| && |value| == |w| && |wasLink| == |w| && |link| == |w|
    && forall s :: 0 <= s < |w| ==>
         var offer := Offered(w, mark, callees, mine, s);
         if Improved(was[s], offer) then value[s] == offer && link[s] == Some(u)
         else value[s] == was[s] && link[s] == wasLink[s]
  }

  /** One node of the order: raise every marked callee to at least this node's value plus its own weight. */
  method OfferAll(g: Graph, w: seq<nat>, mark: seq<bool>, u: nat, mine: nat, was: Values, wasLink: Values)
    returns (value: Values, link: Values)
    requires u < |g| && |w| == |g| && |mark| == |g| && |was| == |g| && |wasLink| == |g|
    requires forall s :: s in g[u].successors ==> s < |g|
    ensures Offering(w, mark, g[u].successors, u, mine, was, value, wasLink, link)
  {
    var callees := g[u].successors;
    value, link := was, wasLink;
    for k := 0 to |callees|
      invariant Offering(w, mark, callees[..k], u, mine, was, value, wasLink, link)
    {
      var s := callees[k];
      assert s in callees;
      assert callees[..k + 1] == callees[..k] + [s];
      if mark[s] && (value[s].None? || value[s].value < mine + w[s]) {
        value, link := value[s := Some(mine + w[s])], link[s := Some(u)];
      }
    }
    assert callees[..|callees|] == callees;
  }

  lemma OfferKeeps(g: Graph, entries: seq<nat>, post: seq<nat>, w: seq<nat>, mark: seq<bool>, limit: nat, i: nat,
                   was: Values, wasLink: Values, value: Values, link: Values)
    requires Setup(g, entries, post, w, mark) && Progress(g, entries, post, w, mark, limit, i + 1, was, wasLink)
    requires i < |post| && was[post[i]].Some? && was[post[i]].value <= limit
    requires Offering(w, mark, g[post[i]].successors, post[i], was[post[i]].value, was, value, wasLink, link)
    ensures Progress(g, entries, post, w, mark, limit, i, value, link)
  {
    var u := post[i];
    forall v | v in post[i..] ensures value[v] == was[v] {
      OrderedApart(g, post, i, v);
    }
    assert forall v :: v in post[i..] <==> v == u || v in post[i + 1..];
    forall v | 0 <= v < |g| ensures Linked(g, entries, post, i, w, mark, value, link, v) {
      assert Linked(g, entries, post, i + 1, w, mark, was, wasLink, v);
      OfferedIsOrdered(g, post, i, v);
    }
    forall v | v in post[i..] ensures Relaxed(g, w, mark, value, v) {
      if v != u { assert Relaxed(g, w, mark, was, v); }
    }
  }

  lemma OfferedIsOrdered(g: Graph, post: seq<nat>, i: nat, v: nat)
    requires Postorder(g, post) && i < |post|
    ensures v in g[post[i]].successors ==> v in post
  {
    if v in g[post[i]].successors {
      assert v in post[..i];
    }
  }

  lemma OrderedApart(g: Graph, post: seq<nat>, i: nat, v: nat)
    requires Postorder(g, post) && i < |post| && v in post[i..]
    ensures v !in g[post[i]].successors
  {
  }

  // ----- prefixes -----

  /** The longest marked entry path to every node it reaches, or one that exceeds the limit. */
  method LongestPrefix(g: Graph, entries: seq<nat>, post: seq<nat>, w: seq<nat>, mark: seq<bool>, limit: nat)
    returns (r: Result<(Values, Values), seq<nat>>)
    requires Setup(g, entries, post, w, mark)
    ensures r.Ok? ==> Progress(g, entries, post, w, mark, limit, 0, r.value.0, r.value.1)
    ensures r.Err? ==> EntryPath(g, entries, r.error) && Through(mark, r.error) && Weight(w, r.error) > limit
  {
    var value: Values, link: Values := seq(|g|, _ => None), seq(|g|, _ => None);
    for k := 0 to |entries|
      invariant |value| == |g| && link == seq(|g|, _ => None)
      invariant forall v :: 0 <= v < |g| ==> value[v] == if v in entries[..k] && mark[v] then Some(w[v]) else None
    {
      var e := entries[k];
      assert e in entries;
      assert entries[..k + 1] == entries[..k] + [e];
      if mark[e] { value := value[e := Some(w[e])]; }
    }
    assert entries[..|entries|] == entries;
    assert post[|post|..] == [];
    assert Progress(g, entries, post, w, mark, limit, |post|, value, link);
    var i := |post|;
    while i > 0
      invariant 0 <= i <= |post| && Progress(g, entries, post, w, mark, limit, i, value, link)
    {
      i := i - 1;
      var u := post[i];
      assert post[i..] == [u] + post[i + 1..];
      if value[u].Some? {
        if value[u].value > limit {
          var path := PrefixPath(g, entries, post, w, mark, i + 1, value, link, u);
          return Err(path);
        }
        var offered, linked := OfferAll(g, w, mark, u, value[u].value, value, link);
        OfferKeeps(g, entries, post, w, mark, limit, i, value, link, offered, linked);
        value, link := offered, linked;
      } else {
        SkipKeeps(g, entries, post, w, mark, limit, i, value, link);
      }
    }
    return Ok((value, link));
  }

  lemma SkipKeeps(g: Graph, entries: seq<nat>, post: seq<nat>, w: seq<nat>, mark: seq<bool>, limit: nat, i: nat,
                  value: Values, link: Values)
    requires Setup(g, entries, post, w, mark) && i < |post|
        && Progress(g, entries, post, w, mark, limit, i + 1, value, link) && value[post[i]].None?
    ensures Progress(g, entries, post, w, mark, limit, i, value, link)
  {
    assert post[i..] == [post[i]] + post[i + 1..];
    forall v | 0 <= v < |g| ensures Linked(g, entries, post, i, w, mark, value, link, v) {
      assert Linked(g, entries, post, i + 1, w, mark, value, link, v);
    }
    forall v | v in post[i..] ensures Relaxed(g, w, mark, value, v) {
      if v != post[i] { assert Relaxed(g, w, mark, value, v); }
    }
  }

  /** Follow the links back to an entry: a real marked path whose weight is the node's value. */
  method PrefixPath(g: Graph, entries: seq<nat>, post: seq<nat>, w: seq<nat>, mark: seq<bool>, ghost i: nat,
                    value: Values, link: Values, v: nat)
    returns (path: seq<nat>)
    requires Setup(g, entries, post, w, mark) && i <= |post| && |value| == |g| && |link| == |g| && v < |g|
        && value[v].Some?
    requires forall x :: 0 <= x < |g| ==> Linked(g, entries, post, i, w, mark, value, link, x)
    ensures EntryPath(g, entries, path) && Last(path) == v && Through(mark, path) && Weight(w, path) == value[v].value
  {
    var current: nat := v;
    path := [v];
    WeightOne(w, v);
    assert Linked(g, entries, post, i, w, mark, value, link, v);
    hide Weight, Index, Postorder, GraphOk;
    while link[current].Some?
      invariant current < |g| && value[current].Some? && current in post
      invariant IsPath(g, path) && path[0] == current && Last(path) == v && Through(mark, path)
      invariant Weight(w, path) + value[current].value == value[v].value + w[current]
      decreases |post| - Index(post, current)
    {
      assert Linked(g, entries, post, i, w, mark, value, link, current);
      var u := link[current].value;
      assert Linked(g, entries, post, i, w, mark, value, link, u);
      EdgeDown(g, post, u, current);
      WeightConcat(w, [u], path);
      WeightOne(w, u);
      path := [u] + path;
      current := u;
    }
    assert Linked(g, entries, post, i, w, mark, value, link, current);
  }

  /** No marked entry path weighs more than its end's value. */
  lemma {:induction false} PrefixBound(g: Graph, entries: seq<nat>, post: seq<nat>, w: seq<nat>, mark: seq<bool>,
                                       limit: nat, value: Values, link: Values, p: seq<nat>)
    requires Setup(g, entries, post, w, mark) && Progress(g, entries, post, w, mark, limit, 0, value, link)
    requires EntryPath(g, entries, p) && Through(mark, p)
    ensures value[Last(p)].Some? && Weight(w, p) <= value[Last(p)].value <= limit
  {
    var v := Last(p);
    assert post[0..] == post;
    ReachedIsOrdered(g, entries, post, v) by { assert Reached(g, entries, v); }
    if |p| == 1 {
      WeightOne(w, v);
      assert p == [v];
    } else {
      var q := p[..|p| - 1];
      PrefixBound(g, entries, post, w, mark, limit, value, link, q);
      ReachedIsOrdered(g, entries, post, Last(q)) by { assert Reached(g, entries, Last(q)); }
      assert Relaxed(g, w, mark, value, Last(q));
      assert Edge(g, Last(q), v);
    }
  }

  // ----- suffixes -----

  /** The longest marked path from a node, with the link to its next node. */
  ghost predicate SuffixOk(g: Graph, w: seq<nat>, mark: seq<bool>, done: seq<nat>, value: Values, link: Values) {
    && |w| == |g| && |mark| == |g| && |value| == |g| && |link| == |g|
    && (forall v :: 0 <= v < |g| ==> (value[v].Some? <==> v in done && mark[v]))
    && (forall v :: 0 <= v < |g| && value[v].Some? ==> SuffixAt(g, w, mark, value, link[v], v, g[v].successors))
  }

  /** The best of the node alone and the node followed by one of its first callees. */
  ghost predicate SuffixAt(g: Graph, w: seq<nat>, mark: seq<bool>, value: Values, link: Option<nat>, v: nat,
                           callees: seq<nat>)
    requires |w| == |g| && |mark| == |g| && |value| == |g| && v < |g|
  {
    && value[v].Some?
    && (forall s :: s in callees && s < |g| && mark[s] && value[s].Some? ==> w[v] + value[s].value <= value[v].value)
    && match link
       case None => value[v].value == w[v]
       case Some(s) => s < |g| && s in callees && mark[s] && value[s].Some? && value[v].value == w[v] + value[s].value
  }

  /** The best of a node alone and the node followed by a callee already measured. */
  method BestSuffix(g: Graph, w: seq<nat>, mark: seq<bool>, value: Values, v: nat)
    returns (best: nat, link: Option<nat>)
    requires v < |g| && |w| == |g| && |mark| == |g| && |value| == |g| && v !in g[v].successors
    requires forall s :: s in g[v].successors ==> s < |g|
    ensures SuffixAt(g, w, mark, value[v := Some(best)], link, v, g[v].successors)
  {
    var callees := g[v].successors;
    best, link := w[v], None;
    for k := 0 to |callees|
      invariant SuffixAt(g, w, mark, value[v := Some(best)], link, v, callees[..k])
    {
      var s := callees[k];
      assert s in callees;
      assert callees[..k + 1] == callees[..k] + [s];
      if mark[s] && value[s].Some? && w[v] + value[s].value > best {
        best, link := w[v] + value[s].value, Some(s);
      }
    }
    assert callees[..|callees|] == callees;
  }

  lemma SuffixAtStays(g: Graph, w: seq<nat>, mark: seq<bool>, value: Values, link: Option<nat>, v: nat, u: nat,
                      best: nat)
    requires |w| == |g| && |mark| == |g| && |value| == |g| && v < |g| && u < |g| && u != v && u !in g[v].successors
    requires SuffixAt(g, w, mark, value, link, v, g[v].successors)
    ensures SuffixAt(g, w, mark, value[u := Some(best)], link, v, g[v].successors)
  {
  }

  lemma EarlierDoesNotCallLater(g: Graph, post: seq<nat>, i: nat, v: nat)
    requires Postorder(g, post) && i < |post| && v in post[..i]
    ensures post[i] !in g[v].successors && post[i] != v
  {
    var j :| 0 <= j < i && post[j] == v;
    assert post[i] !in post[..j];
  }

  lemma SuffixStep(g: Graph, entries: seq<nat>, post: seq<nat>, w: seq<nat>, mark: seq<bool>, i: nat, value: Values,
                   link: Values, best: nat, next: Option<nat>)
    requires Setup(g, entries, post, w, mark) && i < |post| && SuffixOk(g, w, mark, post[..i], value, link)
        && mark[post[i]]
    requires SuffixAt(g, w, mark, value[post[i] := Some(best)], next, post[i], g[post[i]].successors)
    ensures SuffixOk(g, w, mark, post[..i + 1], value[post[i] := Some(best)], link[post[i] := next])
  {
    var u := post[i];
    var after := value[u := Some(best)];
    assert post[..i + 1] == post[..i] + [u];
    hide SuffixAt, Postorder, GraphOk;
    forall v | 0 <= v < |g| && after[v].Some?
        && v != u ensures SuffixAt(g, w, mark, after, link[v], v, g[v].successors) {
      EarlierDoesNotCallLater(g, post, i, v);
      SuffixAtStays(g, w, mark, value, link[v], v, u, best);
    }
  }

  method LongestSuffix(g: Graph, entries: seq<nat>, post: seq<nat>, w: seq<nat>, mark: seq<bool>)
    returns (value: Values, link: Values)
    requires Setup(g, entries, post, w, mark)
    ensures SuffixOk(g, w, mark, post, value, link)
  {
    value, link := seq(|g|, _ => None), seq(|g|, _ => None);
    for i := 0 to |post|
      invariant SuffixOk(g, w, mark, post[..i], value, link)
    {
      var v := post[i];
      OrderedApart(g, post, i, v) by { assert v in post[i..]; }
      if mark[v] {
        var best, next := BestSuffix(g, w, mark, value, v);
        SuffixStep(g, entries, post, w, mark, i, value, link, best, next);
        value, link := value[v := Some(best)], link[v := next];
      } else {
        assert post[..i + 1] == post[..i] + [v];
      }
    }
    assert post[..|post|] == post;
  }

  /** No marked path weighs more than its first node's value. */
  lemma {:induction false} SuffixBound(g: Graph, post: seq<nat>, w: seq<nat>, mark: seq<bool>, value: Values,
                                       link: Values, p: seq<nat>)
    requires Postorder(g, post) && SuffixOk(g, w, mark, post, value, link)
    requires IsPath(g, p) && p[0] in post && Through(mark, p)
    ensures value[p[0]].Some? && Weight(w, p) <= value[p[0]].value
  {
    var v := p[0];
    assert SuffixAt(g, w, mark, value, link[v], v, g[v].successors);
    hide Weight;
    if |p| == 1 {
      WeightOne(w, v);
      assert p == [v];
    } else {
      var q := p[1..];
      assert Edge(g, p[0], p[1]);
      EdgeDown(g, post, v, q[0]);
      SuffixBound(g, post, w, mark, value, link, q);
      WeightConcat(w, [v], q);
      WeightOne(w, v);
      assert p == [v] + q;
    }
  }

  /** Follow the links: a real marked path of the value's weight that no marked callee extends. */
  method SuffixPath(g: Graph, entries: seq<nat>, post: seq<nat>, w: seq<nat>, mark: seq<bool>, value: Values,
                    link: Values, v: nat) returns (path: seq<nat>)
    requires Setup(g, entries, post, w, mark) && SuffixOk(g, w, mark, post, value, link) && v < |g| && value[v].Some?
    requires forall x :: 0 <= x < |g| && mark[x] ==> w[x] > 0
    ensures IsPath(g, path) && path[0] == v && Through(mark, path) && Weight(w, path) == value[v].value
    ensures forall s: nat :: Edge(g, Last(path), s) ==> s < |g| && !mark[s]
  {
    var current: nat := v;
    path := [v];
    WeightOne(w, v);
    while link[current].Some?
      invariant current < |g| && value[current].Some? && current in post
      invariant IsPath(g, path) && path[0] == v && Last(path) == current && Through(mark, path)
      invariant Weight(w, path) + value[current].value == value[v].value + w[current]
      decreases Index(post, current)
    {
      var s := link[current].value;
      SuffixLink(g, post, w, mark, value, link, current);
      EdgeDown(g, post, current, s);
      WeightConcat(w, path, [s]);
      WeightOne(w, s);
      PathGrows(g, path, s);
      path := path + [s];
      current := s;
    }
    LeafOf(g, entries, post, w, mark, value, link, current);
  }

  lemma SuffixLink(g: Graph, post: seq<nat>, w: seq<nat>, mark: seq<bool>, value: Values, link: Values, v: nat)
    requires SuffixOk(g, w, mark, post, value, link) && v < |g| && value[v].Some? && link[v].Some?
    ensures var s := link[v].value;
            s < |g| && Edge(g, v, s) && mark[s] && s in post && value[s].Some?
            && value[v].value == w[v] + value[s].value
  {
    assert SuffixAt(g, w, mark, value, link[v], v, g[v].successors);
  }

  lemma LeafOf(g: Graph, entries: seq<nat>, post: seq<nat>, w: seq<nat>, mark: seq<bool>, value: Values, link: Values,
               v: nat)
    requires Setup(g, entries, post, w, mark) && SuffixOk(g, w, mark, post, value, link) && v < |g| && value[v].Some?
        && link[v].None?
    requires forall x :: 0 <= x < |g| && mark[x] ==> w[x] > 0
    ensures value[v].value == w[v] && forall s: nat :: Edge(g, v, s) ==> s < |g| && !mark[s]
  {
    assert SuffixAt(g, w, mark, value, link[v], v, g[v].successors);
    forall s: nat | Edge(g, v, s) ensures s < |g| && !mark[s] {
      EdgeDown(g, post, v, s);
      SuffixAtLeast(g, post, w, mark, value, link, s);
    }
  }

  lemma SuffixAtLeast(g: Graph, post: seq<nat>, w: seq<nat>, mark: seq<bool>, value: Values, link: Values, v: nat)
    requires SuffixOk(g, w, mark, post, value, link) && v < |g|
    ensures value[v].Some? ==> value[v].value >= w[v]
  {
    assert value[v].Some? ==> SuffixAt(g, w, mark, value, link[v], v, g[v].successors);
  }
}
