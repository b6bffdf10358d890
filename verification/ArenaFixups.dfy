/** Pointer initializers of the arena image: resolved to an affine form of three load-time
    bases, grouped into tables by relocation base, and written by one callback per group. */
module ArenaFixups {
  import opened Wrappers
  import opened Bits
  import opened Congruence
  import opened Endian

  // ----- constant expressions and their values -----

  datatype Const =
    | Int(width: nat, v: nat)
    | Null
    | Sparse(offset: nat)              // a zero global at base + offset
    | Image(offset: nat)               // an initialized global at image + offset
    | Other                            // anything that is no constant of the arena
    | IntToPtr(e: Const)
    | PtrToInt(e: Const, bits: nat)
    | Cast(e: Const)                   // pointer to pointer
    | Trunc(e: Const, bits: nat)
    | ZExt(e: Const, bits: nat)
    | Gep(e: Const, step: Option<int>) // none if the offset is not constant
    | Add(a: Const, b: Const, bits: nat)
    | Sub(a: Const, b: Const, bits: nat)

  /** The sparse allocation, the function-token window and the initialized image. */
  datatype Bases = Bases(sparse: nat, window: nat, image: nat)

  const ADDRESS_BITS := 64
  const TOKEN_DISPLACEMENT: nat := 0x1_0000_0000
  const TOKEN_SPAN: nat := 0x0110_0000

  predicate IsToken(v: nat) {
    TOKEN_DISPLACEMENT <= v < TOKEN_DISPLACEMENT + TOKEN_SPAN
  }

  /** The value the program means: pointers are 64 bits, integers wrap at their width, and an
      integer in the token range made a pointer names a function in the window. */
  function Value(c: Const, at: Bases): nat {
    match c
    case Int(w, v) => Wrap(v, w)
    case Null => 0
    case Sparse(o) => Wrap(at.sparse + o, ADDRESS_BITS)
    case Image(o) => Wrap(at.image + o, ADDRESS_BITS)
    case Other => 0
    case IntToPtr(e) =>
      if e.Int? && IsToken(Wrap(e.v, e.width)) then Wrap(at.window + Wrap(e.v, e.width), ADDRESS_BITS)
      else Wrap(Value(e, at), ADDRESS_BITS)
    case PtrToInt(e, w) => Wrap(Value(e, at), w)
    case Cast(e) => Value(e, at)
    case Trunc(e, w) => Wrap(Value(e, at), w)
    case ZExt(e, w) => Wrap(Value(e, at), w)
    case Gep(e, step) => Wrap(Value(e, at) + (if step.Some? then step.value else 0), ADDRESS_BITS)
    case Add(a, b, w) => Wrap(Value(a, at) + Value(b, at), w)
    case Sub(a, b, w) => Wrap(Value(a, at) - Value(b, at), w)
  }

  // ----- resolution -----

  datatype Affine = Affine(addend: int, sparse: int, window: int, image: int)

  function Combine(x: Option<Affine>, y: Option<Affine>, sign: int): Option<Affine> {
    if x.None? || y.None? then None
    else Some(Affine(x.value.addend + sign * y.value.addend, x.value.sparse + sign * y.value.sparse,
                     x.value.window + sign * y.value.window, x.value.image + sign * y.value.image))
  }

  /** The affine form of an initializer stored in `stored` bits, or rejection. A compound integer
      narrower than the slot is not affine in the bases. */
  function Resolve(c: Const, stored: nat): Option<Affine> {
    match c
    case Int(w, v) => Some(Affine(Wrap(Wrap(v, w), ADDRESS_BITS), 0, 0, 0))
    case Null => Some(Affine(0, 0, 0, 0))
    case Sparse(o) => Some(Affine(o, 1, 0, 0))
    case Image(o) => Some(Affine(o, 0, 0, 1))
    case Other => None
    case IntToPtr(e) =>
      if e.Int? && IsToken(Wrap(e.v, e.width)) then Some(Affine(Wrap(e.v, e.width), 0, 1, 0)) else Resolve(e, stored)
    case PtrToInt(e, w) => if w < stored then None else Resolve(e, stored)
    case Cast(e) => Resolve(e, stored)
    case Trunc(e, w) => if w < stored then None else Resolve(e, stored)
    case ZExt(_, _) => None
    case Gep(e, step) =>
      var x := Resolve(e, stored);
      if x.None? || step.None? then None else Some(x.value.(addend := x.value.addend + step.value))
    case Add(a, b, w) => if w < stored then None else Combine(Resolve(a, stored), Resolve(b, stored), 1)
    case Sub(a, b, w) => if w < stored then None else Combine(Resolve(a, stored), Resolve(b, stored), -1)
  }

  /** Whether `d` is `c` or a part of it. */
  ghost predicate Within(d: Const, c: Const) {
    d == c ||
    match c
    case IntToPtr(e) => Within(d, e)
    case PtrToInt(e, _) => Within(d, e)
    case Cast(e) => Within(d, e)
    case Trunc(e, _) => Within(d, e)
    case ZExt(e, _) => Within(d, e)
    case Gep(e, _) => Within(d, e)
    case Add(a, b, _) => Within(d, a) || Within(d, b)
    case Sub(a, b, _) => Within(d, a) || Within(d, b)
    case _ => false
  }

  /** A part that keeps an expression affine: no foreign constant, no zero extension, no variable
      offset, and no integer narrower than the slot it ends up in. */
  predicate Plain(d: Const, stored: nat) {
    && !d.Other? && !d.ZExt? && (d.Gep? ==> d.step.Some?)
    && (d.PtrToInt? || d.Trunc? || d.Add? || d.Sub? ==> d.bits >= stored)
  }

  ghost predicate AllPlain(c: Const, stored: nat) {
    forall d :: Within(d, c) ==> Plain(d, stored)
  }

  /** Exactly the expressions all of whose parts are plain are accepted. */
  lemma {:induction false} ResolveAccepts(c: Const, stored: nat)
    ensures Resolve(c, stored).Some? <==> AllPlain(c, stored)
  {
    hide IsToken, Wrap;
    assert Within(c, c);
    match c {
      case Int(_, _) =>
      case Null =>
      case Sparse(_) =>
      case Image(_) =>
      case Other =>
      case ZExt(_, _) =>
      case IntToPtr(e) => ResolveAccepts(e, stored);
      case PtrToInt(e, _) => ResolveAccepts(e, stored);
      case Cast(e) => ResolveAccepts(e, stored);
      case Trunc(e, _) => ResolveAccepts(e, stored);
      case Gep(e, _) => ResolveAccepts(e, stored);
      case Add(a, b, _) =>
        ResolveAccepts(a, stored);
        ResolveAccepts(b, stored);
      case Sub(a, b, _) =>
        ResolveAccepts(a, stored);
        ResolveAccepts(b, stored);
    }
  }

  function Relocation(a: Affine, at: Bases): int {
    at.sparse * a.sparse + at.window * a.window + at.image * a.image
  }

  // ----- soundness -----

  /** The two sides agree: the program's value and the affine form. */
  ghost predicate Agrees(c: Const, r: Affine, stored: nat, at: Bases) {
    Same(Value(c, at), Relocation(r, at) + r.addend, stored)
  }

  lemma AgreesSum(a: Const, b: Const, x: Affine, y: Affine, w: nat, stored: nat, at: Bases)
    requires stored <= w && Agrees(a, x, stored, at) && Agrees(b, y, stored, at)
    ensures Agrees(Add(a, b, w), Combine(Some(x), Some(y), 1).value, stored, at)
    ensures Agrees(Sub(a, b, w), Combine(Some(x), Some(y), -1).value, stored, at)
  {
    hide Wrap, Relocation;
    SameWrap(Value(a, at) + Value(b, at), w, stored);
    SameWrap(Value(a, at) - Value(b, at), w, stored);
    SameAdd(Value(a, at), Relocation(x, at) + x.addend, Value(b, at), Relocation(y, at) + y.addend, stored);
    RelocationSum(x, y, at, 1);
    RelocationSum(x, y, at, -1);
  }

  lemma AgreesStep(e: Const, x: Affine, step: int, stored: nat, at: Bases)
    requires stored <= ADDRESS_BITS && Agrees(e, x, stored, at)
    ensures Agrees(Gep(e, Some(step)), x.(addend := x.addend + step), stored, at)
  {
    SameWrap(Value(e, at) + step, ADDRESS_BITS, stored);
    SameAdd(Value(e, at), Relocation(x, at) + x.addend, step, step, stored);
    assert Relocation(x.(addend := x.addend + step), at) == Relocation(x, at);
    hide Wrap, Relocation;
  }

  /** For every accepted expression and every bases, the affine form has the value's low bits. */
  lemma {:induction false} ResolveIsSound(c: Const, stored: nat, at: Bases)
    requires stored <= ADDRESS_BITS && Resolve(c, stored).Some?
    ensures Agrees(c, Resolve(c, stored).value, stored, at)
  {
    hide Pow2;
    match c {
      case Int(w, v) => SameWrap(Wrap(v, w), ADDRESS_BITS, stored);
      case Null =>
      case Sparse(o) => SameWrap(at.sparse + o, ADDRESS_BITS, stored);
      case Image(o) => SameWrap(at.image + o, ADDRESS_BITS, stored);
      case IntToPtr(e) =>
        if e.Int? && IsToken(Wrap(e.v, e.width)) {
          SameWrap(at.window + Wrap(e.v, e.width), ADDRESS_BITS, stored);
        } else {
          ResolveIsSound(e, stored, at);
          SameWrap(Value(e, at), ADDRESS_BITS, stored);
        }
      case PtrToInt(e, w) =>
        ResolveIsSound(e, stored, at);
        SameWrap(Value(e, at), w, stored);
      case Cast(e) => ResolveIsSound(e, stored, at);
      case Trunc(e, w) =>
        ResolveIsSound(e, stored, at);
        SameWrap(Value(e, at), w, stored);
      case Gep(e, step) =>
        ResolveIsSound(e, stored, at);
        AgreesStep(e, Resolve(e, stored).value, step.value, stored, at);
      case Add(a, b, w) =>
        ResolveIsSound(a, stored, at);
        ResolveIsSound(b, stored, at);
        AgreesSum(a, b, Resolve(a, stored).value, Resolve(b, stored).value, w, stored, at);
      case Sub(a, b, w) =>
        ResolveIsSound(a, stored, at);
        ResolveIsSound(b, stored, at);
        AgreesSum(a, b, Resolve(a, stored).value, Resolve(b, stored).value, w, stored, at);
    }
  }

  lemma RelocationSum(x: Affine, y: Affine, at: Bases, sign: int)
    requires sign == 1 || sign == -1
    ensures Relocation(Affine(x.addend + sign * y.addend, x.sparse + sign * y.sparse, x.window + sign * y.window,
        x.image + sign * y.image), at)
            == Relocation(x, at) + sign * Relocation(y, at)
  {
    assert at.sparse * (x.sparse + sign * y.sparse) == at.sparse * x.sparse + sign * (at.sparse * y.sparse);
    assert at.window * (x.window + sign * y.window) == at.window * x.window + sign * (at.window * y.window);
    assert at.image * (x.image + sign * y.image) == at.image * x.image + sign * (at.image * y.image);
  }

  // ----- tables -----

  /** An initializer stored in `width` bytes at `slot` of the image. */
  datatype Fixup = Fixup(slot: nat, width: nat, align: nat, value: Const)

  /** Rows with one relocation base, width and alignment share a table and a callback. */
  datatype Key = Key(sparse: int, window: int, image: int, width: nat, align: nat)

  datatype Row = Row(slot: nat, addend: int)

  predicate Accepted(f: Fixup) {
    WidthOk(f.width) && Resolve(f.value, 8 * f.width).Some?
  }

  function KeyOf(f: Fixup): Key
    requires Accepted(f)
  {
    var r := Resolve(f.value, 8 * f.width).value;
    Key(r.sparse, r.window, r.image, f.width, f.align)
  }

  function RowOf(f: Fixup): Row
    requires Accepted(f)
  {
    Row(f.slot, Resolve(f.value, 8 * f.width).value.addend)
  }

  type Groups = map<Key, seq<Row>>

  ghost predicate HasRow(groups: Groups, key: Key, row: Row) {
    key in groups && row in groups[key]
  }

  /** The tables hold exactly the rows of the first `n` fixups. */
  ghost predicate Grouped(fixups: seq<Fixup>, n: nat, groups: Groups) {
    && n <= |fixups| && (forall i :: 0 <= i < n ==> Accepted(fixups[i]))
    && (forall i :: 0 <= i < n ==> HasRow(groups, KeyOf(fixups[i]), RowOf(fixups[i])))
    && (forall key, row :: HasRow(groups, key, row) ==>
        exists i :: 0 <= i < n && KeyOf(fixups[i]) == key && RowOf(fixups[i]) == row)
  }

  const MAX_ROWS: nat := 0x80_0000

  ghost predicate AllAccepted(fixups: seq<Fixup>) {
    forall i :: 0 <= i < |fixups| ==> Accepted(fixups[i])
  }

  /** One, two, four or eight bytes for an expression all of whose parts are plain. */
  ghost predicate Storable(f: Fixup) { f.width in {1, 2, 4, 8} && AllPlain(f.value, 8 * f.width) }

  lemma AcceptedArePlain(fixups: seq<Fixup>)
    ensures AllAccepted(fixups) <==> forall f :: f in fixups ==> Storable(f)
  {
    hide Resolve, AllPlain;
    forall f | f in fixups ensures Accepted(f) <==> Storable(f) {
      ResolveAccepts(f.value, 8 * f.width);
    }
  }

  /** An integer made a pointer follows the function window exactly in the token range. */
  lemma TokensFollowWindow(v: nat, stored: nat)
    requires v < Pow2(ADDRESS_BITS)
    ensures Resolve(IntToPtr(Int(ADDRESS_BITS, v)), stored) ==
            Some(Affine(v, 0, if 4_294_967_296 <= v < 4_312_793_088 then 1 else 0, 0))
  {
    hide Pow2;
    DivUnique(v, Pow2(ADDRESS_BITS), 0, v);
  }

  /** Every choice of the bases moves the two forms alike. */
  ghost predicate MovedAlike(x: Affine, y: Affine) { forall at :: Relocation(x, at) == Relocation(y, at) }

  lemma MovedAlikeIs(x: Affine, y: Affine)
    ensures MovedAlike(x, y) <==> x.sparse == y.sparse && x.window == y.window && x.image == y.image
  {
    if MovedAlike(x, y) {
      assert Relocation(x, Bases(1, 0, 0)) == Relocation(y, Bases(1, 0, 0));
      assert Relocation(x, Bases(0, 1, 0)) == Relocation(y, Bases(0, 1, 0));
      assert Relocation(x, Bases(0, 0, 1)) == Relocation(y, Bases(0, 0, 1));
    }
  }

  /** Two accepted initializers share a table exactly when they have one width and alignment and are
      moved alike by every choice of the bases. */
  lemma SharesTable(f: Fixup, g: Fixup)
    requires Accepted(f) && Accepted(g)
    ensures KeyOf(f) == KeyOf(g) <==>
            && f.width == g.width && f.align == g.align
            && MovedAlike(Resolve(f.value, 8 * f.width).value, Resolve(g.value, 8 * g.width).value)
  {
    hide Resolve, MovedAlike;
    MovedAlikeIs(Resolve(f.value, 8 * f.width).value, Resolve(g.value, 8 * g.width).value);
  }

  /** How many of the first `n` fixups share a key. */
  ghost function Uses(fixups: seq<Fixup>, n: nat, key: Key): nat
    requires n <= |fixups| && forall i :: 0 <= i < n ==> Accepted(fixups[i])
  {
    if n == 0 then 0 else Uses(fixups, n - 1, key) + if KeyOf(fixups[n - 1]) == key then 1 else 0
  }

  function RowsOf(groups: Groups, key: Key): seq<Row> { if key in groups then groups[key] else [] }

  /** Every table can be walked by one bounded loop. */
  ghost predicate TablesShort(fixups: seq<Fixup>)
    requires AllAccepted(fixups)
  {
    forall key :: Uses(fixups, |fixups|, key) <= MAX_ROWS
  }

  lemma AddRow(fixups: seq<Fixup>, n: nat, was: Groups, groups: Groups)
    requires n < |fixups| && Grouped(fixups, n, was) && Accepted(fixups[n])
    requires groups == was[KeyOf(fixups[n]) := RowsOf(was, KeyOf(fixups[n])) + [RowOf(fixups[n])]]
    ensures Grouped(fixups, n + 1, groups)
  {
    hide Accepted, KeyOf, RowOf;
    var key, row := KeyOf(fixups[n]), RowOf(fixups[n]);
    assert forall k, x :: HasRow(groups, k, x) <==> HasRow(was, k, x) || (k == key && x == row);
    forall k, x | HasRow(groups, k, x) ensures exists i ::
        0 <= i < n + 1 && KeyOf(fixups[i]) == k && RowOf(fixups[i]) == x {
      if HasRow(was, k, x) {
        var i :| 0 <= i < n && KeyOf(fixups[i]) == k && RowOf(fixups[i]) == x;
      } else {
        assert KeyOf(fixups[n]) == k && RowOf(fixups[n]) == x;
      }
    }
  }

  /** Build the tables, or reject an initializer without an affine form, or a table too long. */
  method BuildTables(fixups: seq<Fixup>) returns (r: Result<Groups, Option<nat>>)
    ensures r.Ok? <==> AllAccepted(fixups) && TablesShort(fixups)
    ensures r.Ok? ==> Grouped(fixups, |fixups|, r.value)
    ensures r.Err? && r.error.Some? ==> r.error.value < |fixups| && !Accepted(fixups[r.error.value])
  {
    hide Accepted, KeyOf, RowOf;
    var groups: Groups := map[];
    for n := 0 to |fixups|
      invariant Grouped(fixups, n, groups)
      invariant forall key :: |RowsOf(groups, key)| == Uses(fixups, n, key)
    {
      var f := fixups[n];
      if !Accepted(f) { return Err(Some(n)); }
      var key, row := KeyOf(f), RowOf(f);
      ghost var was := groups;
      groups := groups[key := RowsOf(groups, key) + [row]];
      AddRow(fixups, n, was, groups);
      assert forall k :: RowsOf(groups, k) == if k == key then RowsOf(was, key) + [row] else RowsOf(was, k);
    }
    var keys := groups.Keys;
    while keys != {}
      invariant keys <= groups.Keys && forall key :: key in groups && key !in keys ==> |groups[key]| <= MAX_ROWS
    {
      var key :| key in keys;
      if |groups[key]| > MAX_ROWS {
        assert |RowsOf(groups, key)| > MAX_ROWS;
        return Err(None);
      }
      keys := keys - {key};
    }
    assert forall key :: |RowsOf(groups, key)| <= MAX_ROWS;
    return Ok(groups);
  }

  // ----- writing the slots -----

  /** What a table's callback stores for a row: the table's base plus the addend, truncated. */
  function Stored(key: Key, row: Row, at: Bases): nat {
    Wrap(Relocation(Affine(0, key.sparse, key.window, key.image), at) + row.addend, 8 * key.width)
  }

  predicate Covered(key: Key, row: Row, a: nat) { row.slot <= a < row.slot + key.width }

  /** Rows of different fixups do not overlap and lie inside the image. */
  ghost predicate Apart(groups: Groups, size: nat) {
    && (forall key, row :: HasRow(groups, key, row) ==> row.slot + key.width <= size)
    && (forall key, row, key', row', a: nat ::
          HasRow(groups, key, row) && HasRow(groups, key', row') && Covered(key, row, a) && Covered(key', row', a)
          ==> key == key' && row == row')
  }

  ghost predicate Holds(image: seq<Byte>, key: Key, row: Row, at: Bases) {
    && row.slot + key.width <= |image|
    && image[row.slot..row.slot + key.width] == Bytes(Stored(key, row, at), key.width)
  }

  /** Exactly the rows in `done` have been written. */
  ghost predicate Written(before: seq<Byte>, image: seq<Byte>, done: set<(Key, Row)>, at: Bases) {
    && |image| == |before|
    && (forall x :: x in done ==> Holds(image, x.0, x.1, at))
    && (forall a: nat :: a < |image| && (forall x :: x in done ==> !Covered(x.0, x.1, a)) ==> image[a] == before[a])
  }

  method WriteRow(image: seq<Byte>, key: Key, row: Row, at: Bases) returns (after: seq<Byte>)
    requires row.slot + key.width <= |image|
    ensures |after| == |image| && Holds(after, key, row, at)
    ensures forall a: nat :: a < |image| && !Covered(key, row, a) ==> after[a] == image[a]
  {
    after := image[..row.slot] + Bytes(Stored(key, row, at), key.width) + image[row.slot + key.width..];
  }

  lemma RowWritten(groups: Groups, before: seq<Byte>, image: seq<Byte>, after: seq<Byte>, done: set<(Key, Row)>,
                   key: Key, row: Row, at: Bases)
    requires Apart(groups, |before|) && Written(before, image, done, at) && HasRow(groups, key, row)
    requires forall x :: x in done ==> HasRow(groups, x.0, x.1)
    requires |after| == |image| && Holds(after, key, row, at) && forall a: nat ::
        a < |image| && !Covered(key, row, a) ==> after[a] == image[a]
    ensures Written(before, after, done + {(key, row)}, at)
  {
    var more := done + {(key, row)};
    assert (key, row) in more && forall x :: x in done ==> x in more;
    forall x | x in more ensures Holds(after, x.0, x.1, at) {
      if x != (key, row) {
        assert Holds(image, x.0, x.1, at);
        var slot, end := x.1.slot, x.1.slot + x.0.width;
        forall k | slot <= k < end ensures after[k] == image[k] {
          assert Covered(x.0, x.1, k);
        }
        assert after[slot..end] == image[slot..end];
      }
    }
  }

  /** Run one callback per table, in any order. */
  method ApplyTables(before: seq<Byte>, groups: Groups, at: Bases) returns (image: seq<Byte>)
    requires Apart(groups, |before|)
    ensures |image| == |before| && forall key, row :: HasRow(groups, key, row) ==> Holds(image, key, row, at)
    ensures forall a: nat ::
        a < |image| && (forall key, row :: HasRow(groups, key, row) ==> !Covered(key, row, a)) ==> image[a] == before[a]
  {
    image := before;
    var left := groups.Keys;
    ghost var done: set<(Key, Row)> := {};
    while left != {}
      invariant left <= groups.Keys
      invariant Written(before, image, done, at)
      invariant forall x :: x in done ==> HasRow(groups, x.0, x.1)
      invariant forall key, row :: HasRow(groups, key, row) && key !in left ==> (key, row) in done
    {
      var key :| key in left;
      var rows := groups[key];
      for i := 0 to |rows|
        invariant Written(before, image, done, at)
        invariant forall x :: x in done ==> HasRow(groups, x.0, x.1)
        invariant forall k, row :: HasRow(groups, k, row) && k !in left ==> (k, row) in done
        invariant forall j :: 0 <= j < i ==> (key, rows[j]) in done
      {
        assert HasRow(groups, key, rows[i]);
        var after := WriteRow(image, key, rows[i], at);
        RowWritten(groups, before, image, after, done, key, rows[i], at);
        image := after;
        done := done + {(key, rows[i])};
      }
      left := left - {key};
    }
    forall a: nat | a < |image|
        && (forall key, row :: HasRow(groups, key, row) ==> !Covered(key, row, a)) ensures image[a] == before[a] {
      assert forall x :: x in done ==> !Covered(x.0, x.1, a);
    }
  }

  // ----- the image after initialization -----

  ghost predicate SlotsApart(fixups: seq<Fixup>, size: nat) {
    && (forall i :: 0 <= i < |fixups| ==> fixups[i].slot + fixups[i].width <= size)
    && (forall i, j, a: nat :: 0 <= i < j < |fixups| ==> !(InSlot(fixups[i], a) && InSlot(fixups[j], a)))
  }

  predicate InSlot(f: Fixup, a: nat) { f.slot <= a < f.slot + f.width }

  /** Every slot holds its initializer's true value modulo the slot, little-endian; all else is untouched. */
  ghost predicate Initialized(before: seq<Byte>, image: seq<Byte>, fixups: seq<Fixup>, at: Bases) {
    && |image| == |before|
    && (forall f :: f in fixups && f.slot + f.width <= |image| ==>
          Little(image[f.slot..f.slot + f.width]) == Value(f.value, at) % Pow2(8 * f.width))
    && (forall a: nat :: a < |image| ==>
          (forall i :: 0 <= i < |fixups| ==> a < fixups[i].slot || fixups[i].slot + fixups[i].width <= a) ==>
            image[a] == before[a])
  }

  lemma TablesApart(fixups: seq<Fixup>, groups: Groups, size: nat)
    requires SlotsApart(fixups, size) && Grouped(fixups, |fixups|, groups)
    ensures Apart(groups, size)
  {
    hide Resolve;
    forall key, row | HasRow(groups, key, row) ensures row.slot + key.width <= size {
      var i :| 0 <= i < |fixups| && KeyOf(fixups[i]) == key && RowOf(fixups[i]) == row;
    }
    forall key, row, key', row', a: nat | HasRow(groups, key, row) && HasRow(groups, key', row')
        && Covered(key, row, a) && Covered(key', row', a)
      ensures key == key' && row == row'
    {
      var i :| 0 <= i < |fixups| && KeyOf(fixups[i]) == key && RowOf(fixups[i]) == row;
      var j :| 0 <= j < |fixups| && KeyOf(fixups[j]) == key' && RowOf(fixups[j]) == row';
      assert InSlot(fixups[i], a) && InSlot(fixups[j], a);
    }
  }

  lemma StoredIsValue(f: Fixup, at: Bases)
    requires Accepted(f)
    ensures Little(Bytes(Stored(KeyOf(f), RowOf(f), at), f.width)) == Value(f.value, at) % Pow2(8 * f.width)
  {
    ResolveIsSound(f.value, 8 * f.width, at);
    var stored := Stored(KeyOf(f), RowOf(f), at);
    assert stored == Value(f.value, at) % Pow2(8 * f.width);
    LittleOfBytes(stored, f.width);
    DivUnique(stored, Pow2(8 * f.width), 0, stored);
  }

  /** Resolve, group and write: in whatever order the tables run, each slot gets its true value. */
  method InitializeImage(before: seq<Byte>, fixups: seq<Fixup>, at: Bases) returns (r: Result<seq<Byte>, Option<nat>>)
    requires SlotsApart(fixups, |before|)
    ensures r.Ok? <==> AllAccepted(fixups) && TablesShort(fixups)
    ensures AllAccepted(fixups) <==> forall f :: f in fixups ==> Storable(f)
    ensures r.Ok? ==> Initialized(before, r.value, fixups, at)
  {
    AcceptedArePlain(fixups);
    var tables := BuildTables(fixups);
    if tables.Err? { return Err(tables.error); }
    TablesApart(fixups, tables.value, |before|);
    var image := ApplyTables(before, tables.value, at);
    forall f | f in fixups
      ensures Little(image[f.slot..f.slot + f.width]) == Value(f.value, at) % Pow2(8 * f.width)
    {
      var i :| 0 <= i < |fixups| && fixups[i] == f;
      assert Holds(image, KeyOf(f), RowOf(f), at);
      StoredIsValue(f, at);
    }
    forall a: nat | a < |image|
        && (forall i :: 0 <= i < |fixups| ==> !InSlot(fixups[i], a)) ensures image[a] == before[a] {
      forall key, row | HasRow(tables.value, key, row) ensures !Covered(key, row, a) {
        var i :| 0 <= i < |fixups| && KeyOf(fixups[i]) == key && RowOf(fixups[i]) == row;
      }
    }
    return Ok(image);
  }
}
