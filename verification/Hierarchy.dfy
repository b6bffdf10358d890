/** Placing unit bodies in dispatch-hierarchy order, and the whole flattening step. */
module Hierarchy {
  import opened Wrappers
  import opened Machine
  import F = Flatten
  import Pruning

  datatype Unit = Unit(name: nat, blocks: seq<Block>)

  /** The root function and its allocation units, each with its own block layout. */
  datatype Dispatch = Dispatch(root: Unit, units: seq<Unit>, code: map<Block, seq<Instr>>, limit: Block)

  function Bodies(us: seq<Unit>): seq<Block> {
    if us == [] then [] else us[0].blocks + Bodies(us[1..])
  }

  function Named(us: seq<Unit>, name: nat): Option<Unit> {
    if us == [] then None else if us[0].name == name then Some(us[0]) else Named(us[1..], name)
  }

  /** The units called from a body, in block order. */
  function CallsIn(body: seq<Instr>): seq<nat> {
    if body == [] then [] else (if body[0].Call? then [body[0].callee] else []) + CallsIn(body[1..])
  }

  function Sites(code: map<Block, seq<Instr>>, blocks: seq<Block>): seq<nat> {
    if blocks == [] then [] else (if blocks[0] in code then CallsIn(code[blocks[0]]) else []) + Sites(code, blocks[1..])
  }

  function Functions(d: Dispatch): seq<Unit> { [d.root] + d.units }

  /** The function with every unit body cloned after the root, in unit order. */
  function Cloned(d: Dispatch): Program {
    Ordered(d, Functions(d))
  }

  function Ordered(d: Dispatch, order: seq<Unit>): Program {
    Program(Bodies(order), d.code, Entries(d.units), d.limit)
  }

  function Entries(us: seq<Unit>): map<nat, Block> {
    if us == [] then map[]
    else if us[0].blocks == [] then Entries(us[1..])
    else Entries(us[1..])[us[0].name := us[0].blocks[0]]
  }

  // ----- the dispatch tree -----

  datatype Tree = Tree(top: Unit, kids: seq<Tree>)

  function Preorder(t: Tree): seq<Unit> { [t.top] + PreorderAll(t.kids) }

  function PreorderAll(ts: seq<Tree>): seq<Unit> {
    if ts == [] then [] else Preorder(ts[0]) + PreorderAll(ts[1..])
  }

  function Tops(ts: seq<Tree>): seq<nat> {
    seq(|ts|, i requires 0 <= i < |ts| => ts[i].top.name)
  }

  /** Each function's children are the units it calls, in call order. */
  ghost predicate Fits(d: Dispatch, t: Tree) {
    Tops(t.kids) == Sites(d.code, t.top.blocks) && FitsAll(d, t.kids)
  }

  ghost predicate FitsAll(d: Dispatch, ts: seq<Tree>) {
    forall i :: 0 <= i < |ts| ==> ts[i].top in d.units && Fits(d, ts[i])
  }

  // ----- what the contract demands of the input -----

  ghost predicate UniqueNames(us: seq<Unit>) {
    forall i, j :: 0 <= i < j < |us| ==> us[i].name != us[j].name
  }

  lemma {:induction false} NamedIn(us: seq<Unit>, name: nat)
    ensures Named(us, name).Some? ==> Named(us, name).value in us && Named(us, name).value.name == name
    ensures Named(us, name).None? ==> forall u :: u in us ==> u.name != name
  {
    if us != [] {
      NamedIn(us[1..], name);
      assert us == [us[0]] + us[1..];
    }
  }

  /** All call sites, in layout order. */
  function AllSites(d: Dispatch, fs: seq<Unit>): seq<nat> {
    if fs == [] then [] else Sites(d.code, fs[0].blocks) + AllSites(d, fs[1..])
  }

  /** Bodies are disjoint, branches stay inside their body, and control leaves a body only by branches and returns. */
  ghost predicate BodyOk(d: Dispatch, u: Unit) {
    && u.blocks != []
    && (forall b :: b in u.blocks ==> b in d.code)
    && !CanFallThrough(d.code[u.blocks[|u.blocks| - 1]])
    && (forall b, i :: b in u.blocks && 0 <= i < |d.code[b]| && d.code[b][i].IsBranch() ==>
        d.code[b][i].target in u.blocks)
  }

  ghost predicate InputOk(d: Dispatch) {
    && UniqueNames(Functions(d))
    && Unique(Bodies(Functions(d)))
    && (forall b :: b in d.code <==> b in Bodies(Functions(d)))
    && (forall b :: b in d.code ==> b < d.limit)
    && (forall u {:trigger BodyOk(d, u)} :: u in Functions(d) ==> BodyOk(d, u))
    && (forall name :: name in AllSites(d, Functions(d)) ==> Named(d.units, name).Some?)
  }

  /** No unit has two call sites. */
  ghost predicate OneSite(d: Dispatch) {
    Unique(AllSites(d, Functions(d)))
  }

  lemma {:induction false} SitesSplit(d: Dispatch, fs: seq<Unit>, i: nat)
    requires i < |fs|
    ensures AllSites(d, fs) == AllSites(d, fs[..i]) + Sites(d.code, fs[i].blocks) + AllSites(d, fs[i + 1..])
  {
    if i > 0 {
      SitesSplit(d, fs[1..], i - 1);
      assert fs[1..][..i - 1] == fs[..i][1..] && fs[1..][i..] == fs[i + 1..];
    } else {
      assert fs[..0] == [];
    }
  }

  lemma {:induction false} SitesOf(d: Dispatch, fs: seq<Unit>, u: Unit, name: nat)
    requires u in fs && name in Sites(d.code, u.blocks)
    ensures name in AllSites(d, fs)
  {
    var i :| 0 <= i < |fs| && fs[i] == u;
    SitesSplit(d, fs, i);
  }

  /** With one call site each, a unit has one parent and is called there once. */
  lemma OneParent(d: Dispatch, f: Unit, g: Unit, name: nat)
    requires OneSite(d) && f in Functions(d) && g in Functions(d)
    requires name in Sites(d.code, f.blocks) && name in Sites(d.code, g.blocks)
    ensures f == g && Unique(Sites(d.code, f.blocks))
  {
    var fs := Functions(d);
    var i :| 0 <= i < |fs| && fs[i] == f;
    var j :| 0 <= j < |fs| && fs[j] == g;
    var all := AllSites(d, fs);
    SitesSplit(d, fs, i);
    var n := |AllSites(d, fs[..i])|;
    assert all[n..n + |Sites(d.code, f.blocks)|] == Sites(d.code, f.blocks);
    if i < j {
      assert fs[i + 1..][j - i - 1] == g;
      SitesOf(d, fs[i + 1..], g, name);
      assert false;
    } else if j < i {
      assert fs[..i][j] == g;
      SitesOf(d, fs[..i], g, name);
      assert false;
    }
  }

  // ----- removing and appending bodies -----

  function Without(s: seq<Block>, gone: seq<Block>): seq<Block> {
    if s == [] then []
    else if s[0] in gone then Without(s[1..], gone)
    else [s[0]] + Without(s[1..], gone)
  }

  lemma {:induction false} WithoutConcat(a: seq<Block>, b: seq<Block>, gone: seq<Block>)
    ensures Without(a + b, gone) == Without(a, gone) + Without(b, gone)
  {
    if a == [] {
      assert a + b == b;
    } else {
      WithoutConcat(a[1..], b, gone);
      assert (a + b)[1..] == a[1..] + b;
    }
  }

  lemma {:induction false} WithoutDisjoint(s: seq<Block>, gone: seq<Block>)
    requires forall b :: b in s ==> b !in gone
    ensures Without(s, gone) == s
  {
    if s != [] { WithoutDisjoint(s[1..], gone); }
  }

  lemma {:induction false} WithoutAll(s: seq<Block>, gone: seq<Block>)
    requires forall b :: b in s ==> b in gone
    ensures Without(s, gone) == []
  {
    if s != [] { WithoutAll(s[1..], gone); }
  }

  lemma {:induction false} WithoutTwice(s: seq<Block>, gone: seq<Block>, more: seq<Block>)
    ensures Without(Without(s, gone), more) == Without(s, gone + more)
  {
    if s != [] {
      WithoutTwice(s[1..], gone, more);
      assert ([s[0]] + Without(s[1..], gone))[1..] == Without(s[1..], gone);
    }
  }

  lemma BodiesCons(us: seq<Unit>)
    ensures Bodies(us) == if us == [] then [] else us[0].blocks + Bodies(us[1..])
  {
  }

  lemma {:induction false} BodiesConcat(a: seq<Unit>, b: seq<Unit>)
    ensures Bodies(a + b) == Bodies(a) + Bodies(b)
  {
    hide Bodies;
    BodiesCons(a);
    BodiesCons(a + b);
    if a == [] {
      assert a + b == b;
    } else {
      BodiesConcat(a[1..], b);
      assert (a + b)[1..] == a[1..] + b;
    }
  }

  lemma PreorderAllCons(ts: seq<Tree>)
    ensures PreorderAll(ts) == if ts == [] then [] else Preorder(ts[0]) + PreorderAll(ts[1..])
  {
  }

  lemma {:induction false} PreorderAllConcat(a: seq<Tree>, b: seq<Tree>)
    ensures PreorderAll(a + b) == PreorderAll(a) + PreorderAll(b)
  {
    hide PreorderAll, Preorder;
    PreorderAllCons(a);
    PreorderAllCons(a + b);
    if a == [] {
      assert a + b == b;
    } else {
      PreorderAllConcat(a[1..], b);
      assert (a + b)[1..] == a[1..] + b;
    }
  }

  // ----- placement -----

  datatype FlattenError = MultipleCallSites(name: nat) | AbsentFromHierarchy(u: Unit)

  /** `u` is called from `top` or from one of `us`. */
  ghost predicate Parented(d: Dispatch, top: Unit, us: seq<Unit>, u: Unit) {
    exists f :: (f == top || f in us) && u.name in Sites(d.code, f.blocks)
  }

  lemma ParentedMore(d: Dispatch, top: Unit, us: seq<Unit>, more: seq<Unit>, u: Unit)
    requires Parented(d, top, us, u) && (top in more || top == d.root) && forall v :: v in us ==> v in more
    ensures Parented(d, d.root, more, u)
  {
    var f :| (f == top || f in us) && u.name in Sites(d.code, f.blocks);
    assert (f == d.root || f in more) && u.name in Sites(d.code, f.blocks);
  }

  ghost function UnitNames(us: seq<Unit>): set<nat> {
    set u | u in us :: u.name
  }

  class Placement {
    const d: Dispatch
    var layout: seq<Block>
    var placed: seq<Unit>

    constructor (d: Dispatch)
      ensures this.d == d && layout == Bodies(Functions(d)) && placed == []
    {
      this.d := d;
      layout, placed := Bodies(Functions(d)), [];
    }

    /** Unplaced bodies keep their place; placed ones follow in placement order. */
    ghost predicate Valid()
      reads this
    {
      && InputOk(d) && OneSite(d)
      && UniqueNames(placed) && (forall u :: u in placed ==> u in d.units)
      && (forall u :: u in placed ==> Parented(d, d.root, placed, u))
      && layout == Without(Bodies(Functions(d)), Bodies(placed)) + Bodies(placed)
    }

    /** Move a unit's body to the end of the function. */
    method Splice(u: Unit)
      requires Valid() && u in d.units && u.name !in UnitNames(placed) && Parented(d, d.root, placed, u)
      modifies this
      ensures Valid() && placed == old(placed) + [u]
    {
      SpliceLayout(d, placed, u);
      SplicePlaced(d, placed, u);
      hide InputOk, OneSite, Parented, Without, Bodies, UniqueNames, UnitNames;
      layout := Without(layout, u.blocks) + u.blocks;
      placed := placed + [u];
    }

    /** Place the units called from `parent`, each followed by its own descendants. */
    method PlaceChildren(parent: Unit) returns (ghost kids: seq<Tree>)
      requires Valid() && (parent == d.root || parent in placed)
      requires forall name :: name in Sites(d.code, parent.blocks) ==> name !in UnitNames(placed)
      modifies this
      ensures Valid() && placed == old(placed) + PreorderAll(kids)
      ensures Tops(kids) == Sites(d.code, parent.blocks) && FitsAll(d, kids)
      ensures forall u :: u in PreorderAll(kids) ==> Parented(d, parent, PreorderAll(kids), u)
      decreases UnitNames(d.units) - UnitNames(placed)
    {
      hide InputOk, OneSite, Fits, FitsAll, Parented, Without, Bodies, Sites, Tops, UnitNames, UniqueNames, PreorderAll;
      var sites := Sites(d.code, parent.blocks);
      kids := [];
      NoKids(d);
      var k := 0;
      while k < |sites|
        invariant 0 <= k <= |sites| && Valid() && placed == old(placed) + PreorderAll(kids)
        invariant Tops(kids) == sites[..k] && FitsAll(d, kids)
        invariant forall u :: u in PreorderAll(kids) ==> Parented(d, parent, PreorderAll(kids), u)
        invariant forall j :: k <= j < |sites| ==> sites[j] !in UnitNames(placed)
      {
        ghost var before := placed;
        var child := CalledUnit(d, parent, sites[k]);
        ChildUnplaced(d, placed, parent, child);
        Splice(child);
        assert child in placed;
        FewerLeft(d.units, old(placed), placed, child);
        ghost var grand := PlaceChildren(child);
        assert placed == before + [child] + PreorderAll(grand);
        SiblingsUnplaced(d, before, parent, child, PreorderAll(grand), k);
        PreorderGrows(d, parent, kids, child, grand);
        kids := kids + [Tree(child, grand)];
        k := k + 1;
      }
      assert sites[..k] == sites;
    }

    /** Lay out the whole hierarchy; a unit the root does not reach is an error. */
    method Place() returns (r: Result<seq<Unit>, FlattenError>, ghost tree: Tree)
      requires Valid() && placed == []
      modifies this
      ensures Valid() && tree.top == d.root && Fits(d, tree)
      ensures r.Ok? ==> r.value == Preorder(tree) && Order(d, r.value) && layout == Bodies(r.value)
      ensures r.Err? ==> r.error.AbsentFromHierarchy? && r.error.u in d.units && r.error.u !in Preorder(tree)
    {
      hide InputOk, OneSite, Parented, Without, Bodies, Sites, FitsAll, UniqueNames, PreorderAll;
      ghost var kids := PlaceChildren(d.root);
      tree := Tree(d.root, kids);
      for i := 0 to |d.units|
        invariant forall j :: 0 <= j < i ==> d.units[j] in placed
      {
        if d.units[i] !in placed {
          UnitIsNotRoot(d, i);
          return Err(AbsentFromHierarchy(d.units[i])), tree;
        }
      }
      AllPlaced(d, placed);
      return Ok([d.root] + placed), tree;
    }
  }

  lemma UnitIsNotRoot(d: Dispatch, i: nat)
    requires InputOk(d) && i < |d.units|
    ensures d.units[i] != d.root
  {
    assert Functions(d)[i + 1] == d.units[i] && Functions(d)[0] == d.root;
  }

  lemma AllPlaced(d: Dispatch, placed: seq<Unit>)
    requires InputOk(d) && UniqueNames(placed) && (forall u :: u in placed ==> u in d.units)
    requires forall j :: 0 <= j < |d.units| ==> d.units[j] in placed
    ensures Order(d, [d.root] + placed)
    ensures Without(Bodies(Functions(d)), Bodies(placed)) + Bodies(placed) == Bodies([d.root] + placed)
  {
    var order := [d.root] + placed;
    forall i | 0 <= i < |placed| ensures placed[i].name != d.root.name {
      assert placed[i] in d.units;
      var j :| 0 <= j < |d.units| && d.units[j] == placed[i];
      assert Functions(d)[j + 1] == placed[i] && Functions(d)[0] == d.root;
    }
    assert UniqueNames(order);
    assert forall u :: u in order <==> u in Functions(d);
    BodiesConcat([d.root], placed);
    BodiesConcat([d.root], d.units);
    BodiesOne(d.root);
    WithoutConcat(d.root.blocks, Bodies(d.units), Bodies(placed));
    forall b | b in d.root.blocks ensures b !in Bodies(placed) {
      if b in Bodies(placed) {
        var k := BodiesMember(placed, b);
        SharedBlock(d, d.root, placed[k], b);
      }
    }
    WithoutDisjoint(d.root.blocks, Bodies(placed));
    forall b | b in Bodies(d.units) ensures b in Bodies(placed) {
      var j := BodiesMember(d.units, b);
      var i :| 0 <= i < |placed| && placed[i] == d.units[j];
      BodiesContain(placed, i, b);
    }
    WithoutAll(Bodies(d.units), Bodies(placed));
  }

  lemma FewerLeft(units: seq<Unit>, before: seq<Unit>, after: seq<Unit>, u: Unit)
    requires u in units && u in after && u.name !in UnitNames(before) && forall v :: v in before ==> v in after
    ensures UnitNames(units) - UnitNames(after) < UnitNames(units) - UnitNames(before)
  {
    assert u.name in UnitNames(units) && u.name in UnitNames(after);
  }

  lemma NoKids(d: Dispatch)
    ensures Tops([]) == [] && FitsAll(d, []) && PreorderAll([]) == []
  {
  }

  /** The unit a call site names. */
  function CalledUnit(d: Dispatch, parent: Unit, name: nat): (u: Unit)
    requires InputOk(d) && parent in Functions(d) && name in Sites(d.code, parent.blocks)
    ensures u in d.units && u.name == name
  {
    SitesOf(d, Functions(d), parent, name);
    NamedIn(d.units, name);
    Named(d.units, name).value
  }

  /** A child of an entered function has none of its own children placed before it is. */
  lemma ChildUnplaced(d: Dispatch, placed: seq<Unit>, parent: Unit, child: Unit)
    requires InputOk(d) && OneSite(d)
    requires (forall u :: u in placed ==> u in d.units && Parented(d, d.root, placed, u)) && UniqueNames(placed)
    requires (parent == d.root || parent in placed) && child in d.units
    requires child.name in Sites(d.code, parent.blocks) && child.name !in UnitNames(placed)
    ensures forall name :: name in Sites(d.code, child.blocks) ==> name !in UnitNames(placed + [child])
    ensures Parented(d, d.root, placed, child)
  {
    forall name | name in Sites(d.code, child.blocks) ensures name !in UnitNames(placed + [child]) {
      if name in UnitNames(placed + [child]) {
        var u :| u in placed + [child] && u.name == name;
        if u == child {
          OneParent(d, parent, child, name);
        } else {
          var f :| (f == d.root || f in placed) && u.name in Sites(d.code, f.blocks);
          OneParent(d, f, child, name);
        }
      }
    }
  }

  /** The other children of `parent` stay unplaced while `child`'s descendants are placed. */
  lemma SiblingsUnplaced(d: Dispatch, before: seq<Unit>, parent: Unit, child: Unit, below: seq<Unit>, k: nat)
    requires InputOk(d) && OneSite(d) && UniqueNames(before + [child] + below)
    requires (forall u :: u in before + [child] + below ==> u in d.units) && (parent == d.root || parent in before)
    requires k < |Sites(d.code, parent.blocks)| && Sites(d.code, parent.blocks)[k] == child.name
    requires forall j :: k <= j < |Sites(d.code, parent.blocks)| ==>
        Sites(d.code, parent.blocks)[j] !in UnitNames(before)
    requires forall u :: u in below ==> Parented(d, child, below, u)
    ensures forall j :: k < j < |Sites(d.code, parent.blocks)| ==>
        Sites(d.code, parent.blocks)[j] !in UnitNames(before + [child] + below)
  {
    var sites := Sites(d.code, parent.blocks);
    forall j | k < j < |sites| ensures sites[j] !in UnitNames(before + [child] + below) {
      forall u | u in before + [child] + below ensures u.name != sites[j] {
        OneParent(d, parent, parent, sites[j]);
        if u in below && u.name == sites[j] {
          var f :| (f == child || f in below) && u.name in Sites(d.code, f.blocks);
          OneParent(d, parent, f, sites[j]);
          ParentIsOld(d, before, parent, child, below);
        }
      }
    }
  }

  lemma ParentIsOld(d: Dispatch, before: seq<Unit>, parent: Unit, child: Unit, below: seq<Unit>)
    requires UniqueNames(Functions(d)) && UniqueNames(before + [child] + below)
    requires (forall u :: u in before + [child] + below ==> u in d.units) && (parent == d.root || parent in before)
    ensures parent != child && parent !in below
  {
    var all := before + [child] + below;
    if parent in before {
      var i :| 0 <= i < |before| && before[i] == parent;
      assert all[i] == parent && all[|before|] == child;
      forall j | 0 <= j < |below| ensures below[j] != parent {
        assert all[|before| + 1 + j] == below[j];
      }
    } else {
      assert Functions(d)[0] == parent;
      forall u | u in d.units ensures u != parent {
        var i :| 0 <= i < |d.units| && d.units[i] == u;
        assert Functions(d)[i + 1] == u;
      }
      assert child in all && forall u :: u in below ==> u in all;
    }
  }

  lemma PreorderGrows(d: Dispatch, parent: Unit, kids: seq<Tree>, child: Unit, grand: seq<Tree>)
    requires child in d.units && child.name in Sites(d.code, parent.blocks)
    requires FitsAll(d, kids) && FitsAll(d, grand) && Tops(grand) == Sites(d.code, child.blocks)
    requires forall u :: u in PreorderAll(kids) ==> Parented(d, parent, PreorderAll(kids), u)
    requires forall u :: u in PreorderAll(grand) ==> Parented(d, child, PreorderAll(grand), u)
    ensures var more := kids + [Tree(child, grand)];
            && PreorderAll(more) == PreorderAll(kids) + [child] + PreorderAll(grand)
            && FitsAll(d, more) && Tops(more) == Tops(kids) + [child.name]
            && forall u :: u in PreorderAll(more) ==> Parented(d, parent, PreorderAll(more), u)
  {
    var t := Tree(child, grand);
    var more := kids + [t];
    PreorderAllConcat(kids, [t]);
    assert PreorderAll([t]) == Preorder(t) + PreorderAll([]);
    assert Fits(d, t);
    var all := PreorderAll(more);
    forall u | u in all ensures Parented(d, parent, all, u) {
      if u in PreorderAll(kids) {
        var f :| (f == parent || f in PreorderAll(kids)) && u.name in Sites(d.code, f.blocks);
        assert (f == parent || f in all) && u.name in Sites(d.code, f.blocks);
      } else if u == child {
        assert u.name in Sites(d.code, parent.blocks);
      } else {
        var f :| (f == child || f in PreorderAll(grand)) && u.name in Sites(d.code, f.blocks);
        assert (f == parent || f in all) && u.name in Sites(d.code, f.blocks);
      }
    }
  }

  lemma SplicePlaced(d: Dispatch, placed: seq<Unit>, u: Unit)
    requires u in d.units && u.name !in UnitNames(placed) && Parented(d, d.root, placed, u)
    requires UniqueNames(placed) && forall v :: v in placed ==> v in d.units && Parented(d, d.root, placed, v)
    ensures var more := placed + [u]; UniqueNames(more) && forall v :: v in more ==>
        v in d.units && Parented(d, d.root, more, v)
  {
    var more := placed + [u];
    forall i | 0 <= i < |placed| ensures placed[i].name != u.name {
      assert placed[i] in placed;
    }
    forall v | v in more ensures v in d.units && Parented(d, d.root, more, v) {
      ParentedMore(d, d.root, placed, more, v);
    }
  }

  lemma SpliceLayout(d: Dispatch, placed: seq<Unit>, u: Unit)
    requires InputOk(d) && u in d.units && u.name !in UnitNames(placed) && forall v :: v in placed ==> v in d.units
    ensures var all := Bodies(Functions(d)); var more := placed + [u];
            Without(Without(all, Bodies(placed)) + Bodies(placed), u.blocks) + u.blocks
            == Without(all, Bodies(more)) + Bodies(more)
  {
    var all, rest := Bodies(Functions(d)), Bodies(placed);
    PlacedDisjoint(d, placed, u);
    hide InputOk, Without, Bodies, Functions;
    BodiesConcat(placed, [u]);
    BodiesOne(u);
    calc {
      Without(Without(all, rest) + rest, u.blocks) + u.blocks;
      { WithoutConcat(Without(all, rest), rest, u.blocks); }
      Without(Without(all, rest), u.blocks) + Without(rest, u.blocks) + u.blocks;
      { WithoutTwice(all, rest, u.blocks); WithoutDisjoint(rest, u.blocks); }
      Without(all, rest + u.blocks) + rest + u.blocks;
      Without(all, rest + u.blocks) + (rest + u.blocks);
    }
  }

  lemma BodiesOne(u: Unit)
    ensures Bodies([u]) == u.blocks
  {
    assert Bodies([u]) == u.blocks + Bodies([]);
  }

  lemma {:induction false} BodiesMember(us: seq<Unit>, b: Block) returns (i: nat)
    requires b in Bodies(us)
    ensures i < |us| && b in us[i].blocks
  {
    if b in us[0].blocks {
      i := 0;
    } else {
      i := BodiesMember(us[1..], b);
      i := i + 1;
    }
  }

  lemma {:induction false} BodiesSplit(us: seq<Unit>, i: nat)
    requires i < |us|
    ensures Bodies(us) == Bodies(us[..i]) + us[i].blocks + Bodies(us[i + 1..])
  {
    if i > 0 {
      BodiesSplit(us[1..], i - 1);
      assert us[1..][..i - 1] == us[..i][1..] && us[1..][i..] == us[i + 1..];
    } else {
      assert us[..0] == [];
    }
  }

  lemma BodiesContain(us: seq<Unit>, i: nat, b: Block)
    requires i < |us| && b in us[i].blocks
    ensures b in Bodies(us)
  {
    BodiesSplit(us, i);
  }

  lemma OwnerUniqueOrdered(us: seq<Unit>, i: nat, j: nat, b: Block)
    requires Unique(Bodies(us)) && i < j < |us| && b in us[i].blocks
    ensures b !in us[j].blocks
  {
    BodiesSplit(us, j);
    BodiesContain(us[..j], i, b);
    var before, all := Bodies(us[..j]), Bodies(us);
    var x :| 0 <= x < |before| && before[x] == b;
    assert all[x] == b;
    forall y | 0 <= y < |us[j].blocks| ensures us[j].blocks[y] != b {
      assert all[|before| + y] == us[j].blocks[y];
    }
  }

  /** Two functions sharing a block are the same. */
  lemma OwnerUnique(us: seq<Unit>, i: nat, j: nat, b: Block)
    requires Unique(Bodies(us)) && i < |us| && j < |us| && b in us[i].blocks && b in us[j].blocks
    ensures i == j
  {
    if i < j { OwnerUniqueOrdered(us, i, j, b); }
    if j < i { OwnerUniqueOrdered(us, j, i, b); }
  }

  lemma PlacedDisjoint(d: Dispatch, placed: seq<Unit>, u: Unit)
    requires InputOk(d) && u in d.units && u.name !in UnitNames(placed) && forall v :: v in placed ==> v in d.units
    ensures forall b :: b in Bodies(placed) ==> b !in u.blocks
  {
    BodiesAreCode(d);
    hide InputOk, Bodies;
    forall b | b in Bodies(placed) ensures b !in u.blocks {
      var k := BodiesMember(placed, b);
      var v := placed[k];
      assert v in d.units;
      var i :| 0 <= i < |d.units| && d.units[i] == u;
      var j :| 0 <= j < |d.units| && d.units[j] == v;
      var fs := Functions(d);
      assert fs[i + 1] == u && fs[j + 1] == v;
      if b in u.blocks {
        OwnerUnique(fs, i + 1, j + 1, b);
      }
    }
  }

  // ----- any order of the bodies means the same -----

  /** Every function once, the root first. */
  ghost predicate Order(d: Dispatch, order: seq<Unit>) {
    && order != [] && order[0] == d.root
    && UniqueNames(order)
    && (forall u :: u in order <==> u in Functions(d))
  }

  lemma BodyUnique(d: Dispatch, u: Unit)
    requires InputOk(d) && u in Functions(d)
    ensures Unique(u.blocks)
  {
    var fs := Functions(d);
    var i :| 0 <= i < |fs| && fs[i] == u;
    BodiesSplit(fs, i);
    var all, n := Bodies(fs), |Bodies(fs[..i])|;
    assert Unique(all);
    hide InputOk, Bodies, Functions;
    forall x, y | 0 <= x < y < |u.blocks| ensures u.blocks[x] != u.blocks[y] {
      assert all[n + x] == u.blocks[x] && all[n + y] == u.blocks[y];
    }
  }

  lemma SharedBlock(d: Dispatch, u: Unit, v: Unit, b: Block)
    requires InputOk(d) && u in Functions(d) && v in Functions(d) && b in u.blocks && b in v.blocks
    ensures u == v
  {
    var fs := Functions(d);
    var i :| 0 <= i < |fs| && fs[i] == u;
    var j :| 0 <= j < |fs| && fs[j] == v;
    OwnerUnique(fs, i, j, b);
  }

  lemma {:induction false} OrderUnique(d: Dispatch, us: seq<Unit>)
    requires InputOk(d) && UniqueNames(us) && forall u :: u in us ==> u in Functions(d)
    ensures Unique(Bodies(us))
  {
    if us != [] {
      var tail := us[1..];
      OrderUnique(d, tail);
      BodyUnique(d, us[0]);
      forall b | b in us[0].blocks ensures b !in Bodies(tail) {
        if b in Bodies(tail) {
          var k := BodiesMember(tail, b);
          assert tail[k] == us[k + 1];
          SharedBlock(d, us[0], us[k + 1], b);
        }
      }
      UniqueConcat(us[0].blocks, Bodies(tail));
    }
  }

  lemma UniqueConcat(a: seq<Block>, b: seq<Block>)
    requires Unique(a) && Unique(b) && forall x :: x in a ==> x !in b
    ensures Unique(a + b)
  {
    forall i, j | 0 <= i < j < |a + b| ensures (a + b)[i] != (a + b)[j] {
      if i < |a| <= j { assert (a + b)[i] in a && (a + b)[j] in b; }
    }
  }

  lemma BlockOwner(d: Dispatch, order: seq<Unit>, b: Block) returns (i: nat)
    requires InputOk(d) && Order(d, order) && b in d.code
    ensures i < |order| && b in order[i].blocks
  {
    var k := BodiesMember(Functions(d), b);
    assert Functions(d)[k] in order;
    i :| 0 <= i < |order| && order[i] == Functions(d)[k];
  }

  lemma OrderMembers(d: Dispatch, order: seq<Unit>)
    requires InputOk(d) && Order(d, order)
    ensures forall b :: b in Bodies(order) <==> b in d.code
  {
    forall b | b in Bodies(order) ensures b in d.code {
      var k := BodiesMember(order, b);
      assert order[k] in Functions(d) && BodyOk(d, order[k]);
    }
    forall b | b in d.code ensures b in Bodies(order) {
      var i := BlockOwner(d, order, b);
      BodiesContain(order, i, b);
    }
  }

  lemma {:induction false} EntriesPlaced(d: Dispatch, us: seq<Unit>)
    requires forall u :: u in us ==> BodyOk(d, u)
    ensures forall name :: name in Entries(us) ==> Entries(us)[name] in d.code
    ensures forall u :: u in us ==> u.name in Entries(us)
  {
    if us != [] {
      assert us == [us[0]] + us[1..];
      EntriesPlaced(d, us[1..]);
      assert BodyOk(d, us[0]);
    }
  }

  /** A unit is entered at its first block. */
  lemma {:induction false} EntriesAreFirst(us: seq<Unit>, i: nat)
    requires UniqueNames(us) && i < |us| && us[i].blocks != []
    ensures us[i].name in Entries(us) && Entries(us)[us[i].name] == us[i].blocks[0]
  {
    if i > 0 {
      EntriesAreFirst(us[1..], i - 1);
      assert us[0].name != us[i].name;
    }
  }

  lemma OrderedCodeOk(d: Dispatch, order: seq<Unit>)
    requires InputOk(d) && Order(d, order)
    ensures CodeOk(Ordered(d, order))
  {
    var p := Ordered(d, order);
    forall u | u in d.units ensures BodyOk(d, u) { assert u in Functions(d); }
    EntriesPlaced(d, d.units);
    forall b | b in p.code ensures TargetsPlaced(p, p.code[b]) {
      var i := BlockOwner(d, order, b);
      assert BodyOk(d, order[i]);
    }
  }

  lemma OrderedEndOk(d: Dispatch, order: seq<Unit>)
    requires InputOk(d) && Order(d, order)
    ensures EndOk(Ordered(d, order))
  {
    var last := order[|order| - 1];
    BodiesSplit(order, |order| - 1);
    assert BodyOk(d, last);
    assert Bodies(order[|order|..]) == [];
    assert Bodies(order)[|Bodies(order)| - 1] == last.blocks[|last.blocks| - 1];
  }

  lemma OrderedWellFormed(d: Dispatch, order: seq<Unit>)
    requires InputOk(d) && Order(d, order)
    ensures WellFormed(Ordered(d, order))
  {
    OrderedCodeOk(d, order);
    OrderedEndOk(d, order);
    OrderUnique(d, order);
    OrderMembers(d, order);
    RootFirst(d, order);
  }

  /** Inside a body the layout successor is the body's own next block. */
  lemma NextInBody(d: Dispatch, order: seq<Unit>, i: nat, j: nat)
    requires InputOk(d) && Order(d, order) && i < |order| && j + 1 < |order[i].blocks|
    ensures LayoutNext(Bodies(order), order[i].blocks[j]) == Some(order[i].blocks[j + 1])
  {
    OrderUnique(d, order);
    BodiesSplit(order, i);
    var n := |Bodies(order[..i])|;
    assert Bodies(order)[n + j] == order[i].blocks[j] && Bodies(order)[n + j + 1] == order[i].blocks[j + 1];
    PosIs(Bodies(order), n + j);
  }

  lemma FallthroughSame(d: Dispatch, order: seq<Unit>, other: seq<Unit>, b: Block)
    requires InputOk(d) && Order(d, order) && Order(d, other) && b in d.code && CanFallThrough(d.code[b])
    ensures LayoutNext(Bodies(order), b) == LayoutNext(Bodies(other), b)
  {
    var i := BlockOwner(d, order, b);
    var u := order[i];
    assert u in Functions(d) && BodyOk(d, u) && u in other;
    hide InputOk, LayoutNext, Bodies, Functions;
    var k :| 0 <= k < |other| && other[k] == u;
    var j :| 0 <= j < |u.blocks| && u.blocks[j] == b;
    NextInBody(d, order, i, j);
    NextInBody(d, other, k, j);
  }

  lemma ReorderMatches(d: Dispatch, order: seq<Unit>, other: seq<Unit>, c: Config, taken: bool)
    requires InputOk(d) && Order(d, order) && Order(d, other) && Known(Ordered(d, order), c)
    ensures Matches(Ordered(d, order), Ordered(d, other), c, taken)
  {
    var p, q := Ordered(d, order), Ordered(d, other);
    if c.Running? && CanFallThrough(d.code[c.block]) {
      FallthroughSame(d, order, other, c.block);
    }
    hide InputOk, Order, LayoutNext, Bodies;
    assert Next(p, c, taken) == Next(q, c, taken);
    assert Silently(q, Next(q, c, taken).1, Next(p, c, taken).1, 0);
  }

  /** The placement order of bodies changes no run. */
  lemma ReorderKeepsMeaning(d: Dispatch, order: seq<Unit>, other: seq<Unit>)
    requires InputOk(d) && Order(d, order) && Order(d, other)
    ensures WellFormed(Ordered(d, other)) && Equivalent(Ordered(d, order), Ordered(d, other))
  {
    var p, q := Ordered(d, order), Ordered(d, other);
    OrderedWellFormed(d, order);
    OrderedWellFormed(d, other);
    forall c: Config, taken: bool | Known(p, c) ensures Matches(p, q, c, taken) {
      ReorderMatches(d, order, other, c, taken);
    }
    RootFirst(d, order);
    RootFirst(d, other);
    SimulationIsEquivalence(p, q);
  }

  lemma RootFirst(d: Dispatch, order: seq<Unit>)
    requires InputOk(d) && Order(d, order)
    ensures d.root.blocks != [] && Bodies(order) != [] && Bodies(order)[0] == d.root.blocks[0]
  {
    assert Functions(d)[0] == d.root && BodyOk(d, d.root);
  }

  // ----- the whole step -----

  /** Two different call sites name the unit. */
  ghost predicate CalledTwice(d: Dispatch, name: nat) {
    var sites := AllSites(d, Functions(d));
    exists j, k :: 0 <= j < k < |sites| && sites[j] == name && sites[k] == name
  }

  // ----- call sites are positions in the code -----

  function PositionsIn(b: Block, body: seq<Instr>, at: nat): seq<(Block, nat)> {
    if body == [] then [] else (if body[0].Call? then [(b, at)] else []) + PositionsIn(b, body[1..], at + 1)
  }

  function Positions(code: map<Block, seq<Instr>>, blocks: seq<Block>): seq<(Block, nat)> {
    if blocks == [] then []
    else (if blocks[0] in code then PositionsIn(blocks[0], code[blocks[0]], 0) else []) + Positions(code, blocks[1..])
  }

  lemma {:induction false} PositionsInBounds(b: Block, body: seq<Instr>, at: nat)
    ensures var ps := PositionsIn(b, body, at);
            && |ps| == |CallsIn(body)| && Unique(ps)
            && forall k :: 0 <= k < |ps| ==> ps[k].0 == b && at <= ps[k].1 < at + |body|
  {
    if body != [] { PositionsInBounds(b, body[1..], at + 1); }
  }

  lemma {:induction false} PositionsInCall(b: Block, body: seq<Instr>, at: nat, k: nat)
    requires k < |PositionsIn(b, body, at)| == |CallsIn(body)|
    ensures var i := PositionsIn(b, body, at)[k].1; at <= i < at + |body| && body[i - at] == Call(CallsIn(body)[k])
  {
    var first := if body[0].Call? then 1 else 0;
    if k >= first {
      PositionsInCall(b, body[1..], at + 1, k - first);
    }
  }

  lemma {:induction false} PositionsInHave(b: Block, body: seq<Instr>, at: nat, i: nat)
    requires i < |body| && body[i].Call?
    ensures (b, at + i) in PositionsIn(b, body, at)
  {
    if i > 0 {
      PositionsInHave(b, body[1..], at + 1, i - 1);
      assert (b, at + 1 + (i - 1)) == (b, at + i);
    }
  }

  lemma PositionsInAre(b: Block, body: seq<Instr>)
    ensures var ps := PositionsIn(b, body, 0);
            && |ps| == |CallsIn(body)| && Unique(ps)
            && (forall k :: 0 <= k < |ps| ==> ps[k].0 == b && ps[k].1 < |body|)
            && (forall k :: 0 <= k < |ps| ==> body[ps[k].1] == Call(CallsIn(body)[k]))
            && (forall i :: 0 <= i < |body| && body[i].Call? ==> (b, i) in ps)
  {
    hide CallsIn, PositionsIn;
    var ps := PositionsIn(b, body, 0);
    PositionsInBounds(b, body, 0);
    forall k | 0 <= k < |ps| ensures body[ps[k].1] == Call(CallsIn(body)[k]) { PositionsInCall(b, body, 0, k); }
    forall i | 0 <= i < |body| && body[i].Call? ensures (b, i) in ps { PositionsInHave(b, body, 0, i); }
  }

  lemma {:induction false} PositionsAre(code: map<Block, seq<Instr>>, blocks: seq<Block>)
    requires Unique(blocks) && forall b :: b in blocks ==> b in code
    ensures var ps := Positions(code, blocks);
            && |ps| == |Sites(code, blocks)| && Unique(ps)
            && (forall k :: 0 <= k < |ps| ==> ps[k].0 in blocks && ps[k].1 < |code[ps[k].0]|)
            && (forall k :: 0 <= k < |ps| ==> code[ps[k].0][ps[k].1] == Call(Sites(code, blocks)[k]))
            && (forall b, i :: b in blocks && 0 <= i < |code[b]| && code[b][i].Call? ==> (b, i) in ps)
  {
    if blocks != [] {
      var b, rest := blocks[0], blocks[1..];
      assert blocks == [b] + rest;
      PositionsInAre(b, code[b]);
      PositionsAre(code, rest);
      hide PositionsIn, CallsIn;
    }
  }

  lemma {:induction false} SitesConcat(code: map<Block, seq<Instr>>, a: seq<Block>, b: seq<Block>)
    ensures Sites(code, a + b) == Sites(code, a) + Sites(code, b)
  {
    if a == [] {
      assert a + b == b;
    } else {
      assert (a + b)[1..] == a[1..] + b;
      SitesConcat(code, a[1..], b);
    }
  }

  lemma {:induction false} SitesOfBodies(d: Dispatch, fs: seq<Unit>)
    ensures AllSites(d, fs) == Sites(d.code, Bodies(fs))
  {
    if fs != [] {
      SitesOfBodies(d, fs[1..]);
      SitesConcat(d.code, fs[0].blocks, Bodies(fs[1..]));
    }
  }

  /** Position `x` in the code calls unit `name`. */
  predicate CallsAt(d: Dispatch, x: (Block, nat), name: nat) {
    x.0 in d.code && x.1 < |d.code[x.0]| && d.code[x.0][x.1] == Call(name)
  }

  lemma BodiesAreCode(d: Dispatch)
    requires InputOk(d)
    ensures Unique(Bodies(Functions(d))) && forall b :: b in d.code <==> b in Bodies(Functions(d))
  {
  }

  /** A unit is called twice exactly when two positions of the code call it. */
  lemma SitesArePositions(d: Dispatch, name: nat)
    requires InputOk(d)
    ensures CalledTwice(d, name) <==> exists x, y :: x != y && CallsAt(d, x, name) && CallsAt(d, y, name)
  {
    hide InputOk, Sites, AllSites, Positions, Bodies;
    var blocks := Bodies(Functions(d));
    var ps, sites := Positions(d.code, blocks), AllSites(d, Functions(d));
    BodiesAreCode(d);
    SitesOfBodies(d, Functions(d));
    PositionsAre(d.code, blocks);
    if CalledTwice(d, name) {
      var j, k :| 0 <= j < k < |sites| && sites[j] == name && sites[k] == name;
      assert CallsAt(d, ps[j], name) && CallsAt(d, ps[k], name) && ps[j] != ps[k];
    }
    if x, y :| x != y && CallsAt(d, x, name) && CallsAt(d, y, name) {
      assert (x.0, x.1) in ps && (y.0, y.1) in ps;
      var j :| 0 <= j < |ps| && ps[j] == x;
      var k :| 0 <= k < |ps| && ps[k] == y;
      assert sites[j] == name && sites[k] == name;
    }
  }

  /** The contract holds exactly when no two positions of the code call one unit. */
  lemma OneSiteExactly(d: Dispatch)
    requires InputOk(d)
    ensures OneSite(d) <==>
            forall x, y, name :: CallsAt(d, x, name) && CallsAt(d, y, name) ==> x == y
  {
    hide InputOk, AllSites, CallsAt;
    var sites := AllSites(d, Functions(d));
    if OneSite(d) {
      forall x, y, name | CallsAt(d, x, name) && CallsAt(d, y, name) ensures x == y { SitesArePositions(d, name); }
    } else {
      var j, k :| 0 <= j < k < |sites| && sites[j] == sites[k];
      assert CalledTwice(d, sites[j]);
      SitesArePositions(d, sites[j]);
    }
  }

  /** The call sites of all functions, or a unit that has two. */
  method CheckSites(d: Dispatch) returns (r: Result<(), FlattenError>)
    requires InputOk(d)
    ensures r.Ok? <==> OneSite(d)
    ensures r.Err? ==> r.error.MultipleCallSites? && CalledTwice(d, r.error.name)
  {
    var sites := AllSites(d, Functions(d));
    var seen: set<nat> := {};
    for i := 0 to |sites|
      invariant seen == set j | 0 <= j < i :: sites[j]
      invariant forall j, k :: 0 <= j < k < i ==> sites[j] != sites[k]
    {
      if sites[i] in seen {
        var j :| 0 <= j < i && sites[j] == sites[i];
        assert CalledTwice(d, sites[i]);
        return Err(MultipleCallSites(sites[i]));
      }
      seen := seen + {sites[i]};
    }
    return Ok(());
  }

  lemma OrderedDispatching(d: Dispatch, order: seq<Unit>)
    requires InputOk(d) && Order(d, order) && forall b :: b in d.code ==> F.TailCall(d.code[b])
    ensures F.Dispatching(Ordered(d, order))
  {
    var p := Ordered(d, order);
    OrderedWellFormed(d, order);
    forall u | u in d.units ensures BodyOk(d, u) { assert u in Functions(d); }
    EntriesPlaced(d, d.units);
    forall b | b in p.code ensures F.Dispatches(p, p.code[b]) {
      var i := BlockOwner(d, order, b);
      var body := d.code[b];
      assert F.TailCall(body);
      var k := F.CallAt(body);
      if k < |body| {
        CallsHave(body, k);
        SitesHave(d.code, order[i].blocks, b, body[k].callee);
        SitesOf(d, Functions(d), order[i], body[k].callee);
        NamedIn(d.units, body[k].callee);
      }
    }
  }

  lemma {:induction false} CallsHave(body: seq<Instr>, i: nat)
    requires i < |body| && body[i].Call?
    ensures body[i].callee in CallsIn(body)
  {
    if i > 0 { CallsHave(body[1..], i - 1); }
  }

  lemma {:induction false} SitesHave(code: map<Block, seq<Instr>>, blocks: seq<Block>, b: Block, name: nat)
    requires b in blocks && b in code && name in CallsIn(code[b])
    ensures name in Sites(code, blocks)
  {
    if blocks[0] != b { SitesHave(code, blocks[1..], b, name); }
  }

  /** Block `b` of the joined function: its own body, with a dispatch call and all behind it replaced by an
      edge into the called unit's first block, which is a fallthrough exactly when that block is next. */
  ghost predicate CallJoined(d: Dispatch, order: seq<Unit>, q: Program, b: Block)
    requires b in d.code && b in q.code
  {
    var body := d.code[b];
    && ((forall i :: 0 <= i < |body| ==> !body[i].Call?) ==> q.code[b] == body)
    && forall i, u: Unit :: 0 <= i < |body| && body[i] == Call(u.name) && u in d.units && u.blocks != [] ==>
      if LayoutNext(Bodies(order), b) == Some(u.blocks[0]) then
        q.code[b] == body[..i] && LayoutNext(q.layout, b) == Some(u.blocks[0])
      else
        q.code[b] == body[..i] + [Jump(u.blocks[0])]
  }

  lemma PrunedCallJoined(d: Dispatch, order: seq<Unit>, live: set<Block>, b: Block)
    requires InputOk(d) && F.Dispatching(Ordered(d, order))
    requires Pruning.Closed(F.Joined(Ordered(d, order)), live) && b in live
    ensures b in d.code && CallJoined(d, order, Pruning.Pruned(F.Joined(Ordered(d, order)), live), b)
  {
    var p := Ordered(d, order);
    var body := d.code[b];
    assert F.Dispatches(p, body);
    F.JoinedWellFormed(p);
    forall i, u: Unit | 0 <= i < |body| && body[i] == Call(u.name) && u in d.units && u.blocks != []
      ensures i == F.CallAt(body) && p.entries[u.name] == u.blocks[0]
    {
      assert i + 2 == |body|;
      var k :| 0 <= k < |d.units| && d.units[k] == u;
      UnitNamesUnique(d);
      EntriesAreFirst(d.units, k);
    }
    hide InputOk, Entries, Bodies, F.Dispatching, Pruning.Closed;
    F.BranchedIs(p, b);
    if F.CallAt(body) < |body| && LayoutNext(p.layout, b) == Some(p.entries[body[F.CallAt(body)].callee]) {
      Pruning.FallthroughKept(F.Joined(p), live, b);
    }
  }

  lemma UnitNamesUnique(d: Dispatch)
    requires InputOk(d)
    ensures UniqueNames(d.units)
  {
    forall i, j | 0 <= i < j < |d.units| ensures d.units[i].name != d.units[j].name {
      assert Functions(d)[i + 1] == d.units[i] && Functions(d)[j + 1] == d.units[j];
    }
  }

  /** Flatten a dispatch tree. The result shows the same runs as the nested calls, its blocks
      are the reachable ones, and its layout is the preorder of the tree without the rest. */
  method FlattenUnits(d: Dispatch) returns (r: Result<Program, FlattenError>, ghost tree: Tree, ghost live: set<Block>)
    requires InputOk(d) && forall b :: b in d.code ==> F.TailCall(d.code[b])
    ensures r.Err? && r.error.MultipleCallSites? ==> !OneSite(d) && CalledTwice(d, r.error.name)
    ensures r.Err? && r.error.AbsentFromHierarchy? ==>
        tree.top == d.root && Fits(d, tree) && r.error.u in d.units && r.error.u !in Preorder(tree)
    ensures r.Ok? ==> WellFormed(r.value) && Equivalent(Cloned(d), r.value)
    ensures r.Ok? ==> tree.top == d.root && Fits(d, tree) && Order(d, Preorder(tree))
    ensures r.Ok? ==> r.value == Pruning.Pruned(F.Joined(Ordered(d, Preorder(tree))), live)
    ensures r.Ok? ==> r.value.layout == Pruning.Kept(Bodies(Preorder(tree)), live)
                      && r.value.code.Keys == live
                      && forall b :: b in live ==> Pruning.Reachable(F.Joined(Ordered(d, Preorder(tree))), b)
    ensures r.Ok? ==> forall b :: b in r.value.code ==> b in d.code && CallJoined(d, Preorder(tree), r.value, b)
  {
    hide InputOk, OneSite, Order, Fits, WellFormed, Equivalent, Bodies, Without, F.TailCall, F.Dispatching, CallJoined,
        Pruning.Closed, Pruning.Reachable;
    tree, live := Tree(d.root, []), {};
    var checked := CheckSites(d);
    if checked.Err? { return Err(checked.error), tree, live; }
    var placement := new Placement(d);
    NothingPlaced(d);
    var placed;
    placed, tree := placement.Place();
    if placed.Err? { return Err(placed.error), tree, live; }
    FunctionsAreAnOrder(d);
    ReorderKeepsMeaning(d, Functions(d), placed.value);
    OrderedDispatching(d, placed.value);
    var p := Ordered(d, placed.value);
    F.JoiningKeepsMeaning(p);
    var q, kept := Pruning.RemoveUnreachable(F.Joined(p));
    PrunedKeys(F.Joined(p), kept);
    EquivalentTransitive(Cloned(d), p, F.Joined(p));
    EquivalentTransitive(Cloned(d), F.Joined(p), q);
    forall b | b in q.code ensures b in d.code && CallJoined(d, placed.value, q, b) {
      PrunedCallJoined(d, placed.value, kept, b);
    }
    return Ok(q), tree, kept;
  }

  lemma PrunedKeys(p: Program, live: set<Block>)
    requires Pruning.Closed(p, live)
    ensures Pruning.Pruned(p, live).code.Keys == live
  {
  }

  lemma NothingPlaced(d: Dispatch)
    ensures Without(Bodies(Functions(d)), Bodies([])) + Bodies([]) == Bodies(Functions(d))
  {
    WithoutDisjoint(Bodies(Functions(d)), []);
  }

  lemma FunctionsAreAnOrder(d: Dispatch)
    requires InputOk(d)
    ensures Order(d, Functions(d))
  {
  }
}
