/** Fixed-map memory: one 32-bit address domain backed by 4 MiB regions, the first few reached
    directly and the rest through an ARRAY map. Accessors mask the offset inside a region; accesses
    weaker than natural alignment are split first. Together they behave as one flat byte memory. */
module RegionMemory {
  import opened Wrappers
  import opened Bits
  import opened Endian

  const SPAN: nat := 0x40_0000
  const DOMAIN: nat := 0x1_0000_0000
  const TOTAL_REGIONS := 1024

  // ----- the flat memory -----

  /** Byte `a` of the domain; nothing is mapped past the end, where reads give zero. */
  function ByteAt(mem: seq<Byte>, a: nat): Byte {
    if a % DOMAIN < |mem| then mem[a % DOMAIN] else 0
  }

  function Read(mem: seq<Byte>, a: nat, w: nat): (s: seq<Byte>)
    ensures |s| == w && forall i :: 0 <= i < w ==> s[i] == ByteAt(mem, a + i)
  {
    seq<Byte>(w, i requires 0 <= i < w => ByteAt(mem, a + i))
  }

  /** Byte `x` after a write of `bytes` at `a`; addresses wrap at the end of the domain. */
  function Merged(mem: seq<Byte>, a: nat, bytes: seq<Byte>, x: nat): Byte
    requires x < |mem|
  {
    var i := (x - a) % DOMAIN;
    if i < |bytes| then bytes[i] else mem[x]
  }

  function Write(mem: seq<Byte>, a: nat, bytes: seq<Byte>): (r: seq<Byte>)
    ensures |r| == |mem| && forall x :: 0 <= x < |mem| ==> r[x] == Merged(mem, a, bytes, x)
  {
    seq<Byte>(|mem|, x requires 0 <= x < |mem| => Merged(mem, a, bytes, x))
  }

  lemma ReadConcat(mem: seq<Byte>, a: nat, m: nat, n: nat)
    ensures Read(mem, a, m + n) == Read(mem, a, m) + Read(mem, a + m, n)
  {
  }

  lemma ReadWraps(mem: seq<Byte>, a: nat, w: nat)
    ensures Read(mem, a % WORD, w) == Read(mem, a, w)
  {
    forall i: nat | i < w ensures Read(mem, a % WORD, w)[i] == Read(mem, a, w)[i] {
      assert (a % WORD + i) % DOMAIN == (a + i) % DOMAIN;
    }
  }

  lemma WriteWraps(mem: seq<Byte>, a: nat, bytes: seq<Byte>)
    ensures Write(mem, a % WORD, bytes) == Write(mem, a, bytes)
  {
    forall x: nat | x < |mem| ensures Merged(mem, a % WORD, bytes, x) == Merged(mem, a, bytes, x) {
      assert (x - a % WORD) % DOMAIN == (x - a) % DOMAIN;
    }
  }

  lemma WriteConcat(mem: seq<Byte>, a: nat, b: seq<Byte>, c: seq<Byte>)
    requires |mem| <= DOMAIN && |b| + |c| <= 8
    ensures Write(Write(mem, a, b), a + |b|, c) == Write(mem, a, b + c)
  {
    var once := Write(mem, a, b);
    forall x: nat | x < |mem| ensures Merged(once, a + |b|, c, x) == Merged(mem, a, b + c, x) {
      var i, j := (x - a) % DOMAIN, (x - (a + |b|)) % DOMAIN;
      assert j == i - |b| || j == i - |b| + DOMAIN;
    }
  }

  /** What was written is read back wherever memory is mapped. */
  lemma ReadBack(mem: seq<Byte>, a: nat, bytes: seq<Byte>, i: nat)
    requires |mem| <= DOMAIN && |bytes| <= 8 && i < |bytes| && (a + i) % DOMAIN < |mem|
    ensures Read(Write(mem, a, bytes), a, |bytes|)[i] == bytes[i]
  {
    var x := (a + i) % DOMAIN;
    assert (x - a) % DOMAIN == i;
    assert Write(mem, a, bytes)[x] == Merged(mem, a, bytes, x);
  }

  /** A byte that no written address names, modulo the domain, is left alone. */
  lemma WriteElsewhere(mem: seq<Byte>, a: nat, bytes: seq<Byte>, x: nat)
    requires |mem| <= DOMAIN && x < |mem| && forall k :: a <= k < a + |bytes| ==> Mod(k, DOMAIN) != x
    ensures Write(mem, a, bytes)[x] == mem[x]
  {
    var i := (x - a) % DOMAIN;
    assert Mod(a + i, DOMAIN) == x;
  }

  // ----- regions -----

  predicate RegionsOk(regions: seq<seq<Byte>>) {
    forall r :: 0 <= r < |regions| ==> |regions[r]| == SPAN
  }

  ghost function Flat(regions: seq<seq<Byte>>): (mem: seq<Byte>)
    requires RegionsOk(regions)
    ensures |mem| == |regions| * SPAN && forall a :: 0 <= a < |mem| ==> mem[a] == regions[a / SPAN][a % SPAN]
  {
    seq<Byte>(|regions| * SPAN, a requires 0 <= a < |regions| * SPAN => regions[a / SPAN][a % SPAN])
  }

  /** The offset rounded down to the access width. */
  function Aligned(offset: nat, w: nat): (a: nat)
    requires w > 0
  {
    ResidueOff(offset, w);
    offset - offset % w
  }

  function RegionOf(offset: nat): nat { offset % DOMAIN / SPAN }

  function Masked(offset: nat, w: nat): nat
    requires w <= SPAN
  {
    And(offset, SPAN - w)
  }

  /** The mask rounds down to the width inside the region, whatever the offset. */
  lemma MaskedIs(offset: nat, w: nat)
    requires WidthOk(w)
    ensures Masked(offset, w) == offset % SPAN - offset % w && Masked(offset, w) + w <= SPAN
  {
    var k := if w == 1 then 0 else if w == 2 then 1 else if w == 4 then 2 else 3;
    assert Pow2(k) == w;
    SpanPow2();
    AndMask(offset, k, 22);
    hide Pow2, And;
    assert offset % SPAN <= SPAN - w + offset % w by { Residues(offset, w); }
  }

  lemma SpanPow2()
    ensures Pow2(22) == SPAN
  {
    Pow2Add(11, 11);
    assert Pow2(11) == 2048;
  }

  /** Residues modulo a width and a multiple of it. */
  lemma Residue(x: nat, w: nat, c: nat, n: nat)
    requires w > 0 && c > 0 && n == w * c && n > 0
    ensures x % n % w == x % w <= x % n
    ensures x % n - x % w <= n - w
  {
    DivDiv(x, w, c, n);
    var t := x / w % c;
    Distribute(0, c, t, w);
    DivUnique(x % n, w, t, x % w);
  }

  /** Widths divide the region span, which divides the address domain. */
  lemma Residues(offset: nat, w: nat)
    requires WidthOk(w)
    ensures offset % SPAN - offset % w <= SPAN - w
    ensures offset % DOMAIN % w == offset % w <= offset % DOMAIN
    ensures offset % DOMAIN - offset % w <= DOMAIN - w
    ensures offset % DOMAIN % SPAN == offset % SPAN
  {
    Residue(offset, w, SPAN / w, SPAN);
    Residue(offset, w, DOMAIN / w, DOMAIN);
    Residue(offset, SPAN, 1024, DOMAIN);
  }

  /** Masked region offsets are the addresses of the width-aligned access. */
  lemma Located(offset: nat, w: nat, i: nat)
    requires WidthOk(w) && i < w
    ensures Masked(offset, w) + w <= SPAN
    ensures (Aligned(offset, w) + i) % DOMAIN == RegionOf(offset) * SPAN + Masked(offset, w) + i
  {
    hide Masked;
    MaskedIs(offset, w);
    Residues(offset, w);
    var q, a, m := offset / DOMAIN, offset % DOMAIN, offset % w;
    Reduce(q, a - m + i);
    assert a == RegionOf(offset) * SPAN + a % SPAN;
  }

  lemma Reduce(q: nat, r: nat)
    requires r < DOMAIN
    ensures (q * DOMAIN + r) % DOMAIN == r
  {
  }

  lemma FlatAt(regions: seq<seq<Byte>>, r: nat, x: nat)
    requires RegionsOk(regions) && x < SPAN
    ensures r < |regions| ==> r * SPAN + x < |regions| * SPAN && Flat(regions)[r * SPAN + x] == regions[r][x]
    ensures r >= |regions| ==> r * SPAN + x >= |regions| * SPAN
  {
    assert (r * SPAN + x) / SPAN == r && (r * SPAN + x) % SPAN == x;
  }

  lemma ReadRegion(regions: seq<seq<Byte>>, offset: nat, w: nat)
    requires RegionsOk(regions) && WidthOk(w)
    ensures Masked(offset, w) + w <= SPAN
    ensures var r, low := RegionOf(offset), Masked(offset, w);
            Read(Flat(regions), Aligned(offset, w), w)
            == if r < |regions| then regions[r][low..low + w] else seq(w, _ => 0)
  {
    hide Masked, Flat;
    MaskedIs(offset, w);
    var low, r := Masked(offset, w), RegionOf(offset);
    var flat := Read(Flat(regions), Aligned(offset, w), w);
    forall i: nat | i < w ensures flat[i] == if r < |regions| then regions[r][low + i] else 0 {
      Located(offset, w, i);
      FlatAt(regions, r, low + i);
    }
  }

  function Patched(region: seq<Byte>, low: nat, bytes: seq<Byte>): (r: seq<Byte>)
    requires low + |bytes| <= |region|
    ensures |r| == |region|
  {
    region[..low] + bytes + region[low + |bytes|..]
  }

  lemma WriteRegion(regions: seq<seq<Byte>>, offset: nat, bytes: seq<Byte>)
    requires RegionsOk(regions) && |regions| <= TOTAL_REGIONS && WidthOk(|bytes|)
    ensures Masked(offset, |bytes|) + |bytes| <= SPAN
    ensures var r, low := RegionOf(offset), Masked(offset, |bytes|);
            Write(Flat(regions), Aligned(offset, |bytes|), bytes)
            == if r < |regions| then Flat(regions[r := Patched(regions[r], low, bytes)]) else Flat(regions)
  {
    hide Masked, Aligned;
    var w := |bytes|;
    MaskedIs(offset, w);
    var low, r := Masked(offset, w), RegionOf(offset);
    var after := if r < |regions| then regions[r := Patched(regions[r], low, bytes)] else regions;
    forall x: nat | x < |regions| * SPAN ensures Merged(Flat(regions), Aligned(offset, w), bytes, x) == Flat(after)[x] {
      Hit(offset, w, x);
    }
  }

  lemma HitInside(offset: nat, w: nat, x: nat)
    requires WidthOk(w) && x < DOMAIN && (x - Aligned(offset, w)) % DOMAIN < w
    ensures x / SPAN == RegionOf(offset) && Masked(offset, w) <= x % SPAN < Masked(offset, w) + w
  {
    hide Masked, RegionOf, Aligned;
    var i := (x - Aligned(offset, w)) % DOMAIN;
    Located(offset, w, i);
    Distance(Aligned(offset, w), i, x);
    Placed(RegionOf(offset), Masked(offset, w) + i, x);
  }

  /** Address `x` is byte `i` of the access exactly when it lies there in the region. */
  lemma Hit(offset: nat, w: nat, x: nat)
    requires WidthOk(w) && x < DOMAIN
    ensures var i := (x - Aligned(offset, w)) % DOMAIN;
            var low := Masked(offset, w);
            if x / SPAN == RegionOf(offset) && low <= x % SPAN < low + w then i == x % SPAN - low else i >= w
  {
    hide Masked, RegionOf, Aligned;
    MaskedIs(offset, w);
    var low, r := Masked(offset, w), RegionOf(offset);
    var a := Aligned(offset, w);
    if x / SPAN == r && low <= x % SPAN < low + w {
      Located(offset, w, x % SPAN - low);
      Distance(a, x % SPAN - low, x);
    } else if (x - a) % DOMAIN < w {
      HitInside(offset, w, x);
    }
  }

  lemma Distance(a: nat, j: nat, x: nat)
    requires x < DOMAIN && j < DOMAIN
    ensures (a + j) % DOMAIN == x <==> (x - a) % DOMAIN == j
  {
  }

  lemma Placed(r: nat, low: nat, x: nat)
    requires low < SPAN && x == r * SPAN + low
    ensures x / SPAN == r && x % SPAN == low
  {
  }

  // ----- the accessors -----

  /** One memory instruction: an access of `width` bytes promised `align`, with the region if the
      compiler traced one. */
  datatype Access =
    | Load(ptr: nat, width: nat, align: nat, region: Option<nat>)
    | Store(ptr: nat, width: nat, align: nat, region: Option<nat>, value: nat)

  /** Every byte of the access lies in the traced region, which is one of the direct ones. */
  ghost predicate RegionOk(ptr: nat, w: nat, region: Option<nat>, direct: nat) {
    region.Some? ==> region.value < direct && forall a: nat :: ptr <= a < ptr + w ==> RegionOf(a) == region.value
  }

  /** What a program may do: any 64-bit pointer that has the alignment it promises. */
  ghost predicate AccessOk(x: Access, direct: nat) {
    WidthOk(x.width) && WidthOk(x.align) && x.ptr < WORD && x.ptr % x.align == 0
        && RegionOk(x.ptr, x.width, x.region, direct)
  }

  /** Results of loads and the final memory, on one flat byte array. */
  function Meaning(mem: seq<Byte>, program: seq<Access>): (r: (seq<nat>, seq<Byte>))
    ensures |r.1| == |mem|
    decreases |program|
  {
    if program == [] then ([], mem)
    else
      match program[0]
      case Load(p, w, _, _) =>
        var rest := Meaning(mem, program[1..]);
        ([Little(Read(mem, p, w))] + rest.0, rest.1)
      case Store(p, w, _, _, v) => Meaning(Write(mem, p, Bytes(v, w)), program[1..])
  }

  lemma RegionSize(regions: seq<seq<Byte>>, r: nat)
    requires RegionsOk(regions) && r < |regions|
    ensures |regions[r]| == SPAN
  {
  }

  lemma UpdateFront(regions: seq<seq<Byte>>, back: seq<seq<Byte>>, r: nat, x: seq<Byte>)
    requires RegionsOk(regions) && r < |regions| && |x| == SPAN
    ensures RegionsOk(regions[r := x]) && regions[r := x] + back == (regions + back)[r := x]
  {
  }

  lemma UpdateBack(front: seq<seq<Byte>>, regions: seq<seq<Byte>>, r: nat, x: seq<Byte>)
    requires RegionsOk(regions) && r < |regions| && |x| == SPAN
    ensures RegionsOk(regions[r := x]) && front + regions[r := x] == (front + regions)[|front| + r := x]
  {
  }

  class Backing {
    var direct: seq<seq<Byte>>    // maps the accessor names
    var overflow: seq<seq<Byte>>  // values of the ARRAY map
    var hasArray: bool

    ghost predicate Valid()
      reads this
    {
      && 1 <= |direct| <= 63 && |direct| + |overflow| <= TOTAL_REGIONS
      && RegionsOk(direct) && RegionsOk(overflow)
    }

    ghost function Regions(): (r: seq<seq<Byte>>)
      reads this
      requires Valid()
      ensures RegionsOk(r) && |r| <= TOTAL_REGIONS
    {
      direct + if hasArray then overflow else []
    }

    ghost function Memory(): (mem: seq<Byte>)
      reads this
      requires Valid()
      ensures |mem| <= DOMAIN
    {
      Flat(Regions())
    }

    /** Load through the outlined accessor: any 64-bit offset, rounded down to the width. */
    method LoadRouted(offset: nat, w: nat) returns (v: nat)
      requires Valid() && WidthOk(w)
      ensures v == Little(Read(Memory(), Aligned(offset, w), w))
    {
      ReadRegion(Regions(), offset, w);
      var low, index := Masked(offset, w), RegionOf(offset);
      if index < |direct| {
        v := Little(direct[index][low..low + w]);
      } else if hasArray && index - |direct| < |overflow| {
        v := Little(overflow[index - |direct|][low..low + w]);
      } else {
        v := 0;
        LittleZero(w);
      }
    }

    /** Store through the outlined accessor; a store outside the mapped regions is dropped. */
    method StoreRouted(offset: nat, w: nat, value: nat)
      requires Valid() && WidthOk(w)
      modifies this
      ensures Valid() && |Memory()| == old(|Memory()|) && |direct| == old(|direct|)
      ensures Memory() == Write(old(Memory()), Aligned(offset, w), Bytes(value, w))
    {
      hide Flat, Write, Bytes, Patched, Aligned, Masked, RegionOf, RegionsOk;
      var bytes := Bytes(value, w);
      WriteRegion(Regions(), offset, bytes);
      var low, index := Masked(offset, w), RegionOf(offset);
      ghost var before := Regions();
      if index < |direct| {
        RegionSize(direct, index);
        var patched := Patched(direct[index], low, bytes);
        UpdateFront(direct, if hasArray then overflow else [], index, patched);
        direct := direct[index := patched];
        assert Regions() == before[index := patched];
      } else if hasArray && index - |direct| < |overflow| {
        var i := index - |direct|;
        RegionSize(overflow, i);
        var patched := Patched(overflow[i], low, bytes);
        UpdateBack(direct, overflow, i, patched);
        overflow := overflow[i := patched];
        assert Regions() == before[index := patched];
      }
    }

    /** The compile-time path: the region is known, only the offset is masked, in 32 bits. */
    method LoadDirect(region: nat, offset: nat, w: nat) returns (v: nat)
      requires Valid() && WidthOk(w) && region < |direct| && region == RegionOf(offset)
      ensures v == Little(Read(Memory(), Aligned(offset, w), w))
    {
      ReadRegion(Regions(), offset, w);
      MaskedNarrow(offset, w);
      var low := Masked(offset % DOMAIN, w);
      v := Little(direct[region][low..low + w]);
    }

    method StoreDirect(region: nat, offset: nat, w: nat, value: nat)
      requires Valid() && WidthOk(w) && region < |direct| && region == RegionOf(offset)
      modifies this
      ensures Valid() && |Memory()| == old(|Memory()|) && |direct| == old(|direct|)
      ensures Memory() == Write(old(Memory()), Aligned(offset, w), Bytes(value, w))
    {
      hide Flat, Write, Bytes, Patched, Aligned, Masked, RegionOf, RegionsOk;
      var bytes := Bytes(value, w);
      WriteRegion(Regions(), offset, bytes);
      MaskedNarrow(offset, w);
      var low := Masked(offset % DOMAIN, w);
      ghost var before := Regions();
      RegionSize(direct, region);
      var patched := Patched(direct[region], low, bytes);
      UpdateFront(direct, if hasArray then overflow else [], region, patched);
      direct := direct[region := patched];
      assert Regions() == before[region := patched];
    }

    /** A naturally aligned load: inline if its region was traced, else through the accessor. */
    method LoadOne(region: Option<nat>, offset: nat, w: nat) returns (v: nat)
      requires Valid() && WidthOk(w) && (region.Some? ==> region.value < |direct| && region.value == RegionOf(offset))
      ensures v == Little(Read(Memory(), Aligned(offset, w), w))
    {
      if region.Some? {
        v := LoadDirect(region.value, offset, w);
      } else {
        v := LoadRouted(offset, w);
      }
    }

    method StoreOne(region: Option<nat>, offset: nat, w: nat, value: nat)
      requires Valid() && WidthOk(w) && (region.Some? ==> region.value < |direct| && region.value == RegionOf(offset))
      modifies this
      ensures Valid() && |Memory()| == old(|Memory()|) && |direct| == old(|direct|)
      ensures Memory() == Write(old(Memory()), Aligned(offset, w), Bytes(value, w))
    {
      hide Memory, Write, Bytes, Aligned;
      if region.Some? {
        StoreDirect(region.value, offset, w, value);
      } else {
        StoreRouted(offset, w, value);
      }
    }

    /** A load of any promised alignment: whole, or in parts of `align` bytes joined with shifts. */
    method LoadSplit(ptr: nat, w: nat, align: nat, region: Option<nat>) returns (v: nat)
      requires Valid() && AccessOk(Load(ptr, w, align, region), |direct|)
      ensures v == Little(Read(Memory(), ptr, w))
    {
      hide Little, Read, Memory, Or, Pow2, RegionOk, RegionOf;
      if align >= w {
        WidthDivides(ptr, w, align);
        PartRegion(ptr, w, region, |direct|, 0);
        v := LoadOne(region, ptr, w);
        return;
      }
      ReadNothing(Memory(), ptr);
      v := 0;
      var offset := 0;
      while offset < w
        invariant offset <= w && offset % align == 0
        invariant v == Little(Read(Memory(), ptr, offset))
      {
        PartFits(offset, w, align);
        PartAligned(ptr, offset, align);
        PartRegion(ptr, w, region, |direct|, offset);
        var part := LoadOne(region, (ptr + offset) % WORD, align);
        JoinPart(Memory(), ptr, offset, align, v, part);
        v := Or(v, part * Pow2(8 * offset));
        offset := offset + align;
      }
    }

    /** A store of any promised alignment, in parts of `align` bytes, low bytes first. */
    method StoreSplit(ptr: nat, w: nat, align: nat, region: Option<nat>, value: nat)
      requires Valid() && AccessOk(Store(ptr, w, align, region, value), |direct|)
      modifies this
      ensures Valid() && |Memory()| == old(|Memory()|) && |direct| == old(|direct|)
      ensures Memory() == Write(old(Memory()), ptr, Bytes(value, w))
    {
      hide Write, Bytes, Memory, RegionOk;
      if align >= w {
        WidthDivides(ptr, w, align);
        PartRegion(ptr, w, region, |direct|, 0);
        StoreOne(region, ptr, w, value);
        return;
      }
      WriteNothing(Memory(), ptr, value);
      var offset := 0;
      while offset < w
        invariant Valid() && |Memory()| == old(|Memory()|) && |direct| == old(|direct|)
        invariant offset <= w && offset % align == 0
        invariant Memory() == Write(old(Memory()), ptr, Bytes(value, offset))
      {
        PartFits(offset, w, align);
        PartAligned(ptr, offset, align);
        PartRegion(ptr, w, region, |direct|, offset);
        StorePart(old(Memory()), ptr, offset, align, value);
        StoreOne(region, (ptr + offset) % WORD, align, ShiftRight(value, 8 * offset));
        offset := offset + align;
      }
    }

    /** Any sequence of loads and stores, inline or through the accessors, reads and leaves what a
        flat memory would. */
    method Run(program: seq<Access>) returns (loads: seq<nat>)
      requires Valid() && forall i :: 0 <= i < |program| ==> AccessOk(program[i], |direct|)
      modifies this
      ensures Valid() && |direct| == old(|direct|) && (loads, Memory()) == Meaning(old(Memory()), program)
    {
      hide Little, Read, Write, Bytes, Memory, AccessOk;
      loads := [];
      ghost var start := Memory();
      assert program[0..] == program;
      assert [] + Meaning(start, program).0 == Meaning(start, program).0;
      for i := 0 to |program|
        invariant Valid() && |Memory()| == |start| && |direct| == old(|direct|)
        invariant var rest := Meaning(Memory(), program[i..]); Meaning(start, program) == (loads + rest.0, rest.1)
      {
        var rest := program[i..];
        assert rest[0] == program[i] && rest[1..] == program[i + 1..];
        ghost var was := Meaning(Memory(), rest).0;
        match program[i] {
          case Load(p, w, align, region) =>
            var v := LoadSplit(p, w, align, region);
            assert loads + was == loads + [v] + Meaning(Memory(), program[i + 1..]).0;
            loads := loads + [v];
          case Store(p, w, align, region, value) =>
            StoreSplit(p, w, align, region, value);
        }
      }
      assert program[|program|..] == [];
      assert loads + [] == loads;
    }
  }

  /** A part of an access lies in the access's region. */
  lemma PartRegion(ptr: nat, w: nat, region: Option<nat>, direct: nat, offset: nat)
    requires RegionOk(ptr, w, region, direct) && offset < w
    ensures region.Some? ==>
        region.value < direct && RegionOf((ptr + offset) % WORD) == region.value
        && RegionOf(ptr + offset) == region.value
  {
    assert (ptr + offset) % WORD % DOMAIN == (ptr + offset) % DOMAIN;
    if region.Some? { assert RegionOf(ptr + offset) == region.value; }
  }

  lemma {:induction false} LittleZero(w: nat)
    ensures Little(seq(w, _ => 0)) == 0
  {
    if w > 0 {
      assert seq<Byte>(w, _ => 0)[1..] == seq<Byte>(w - 1, _ => 0);
      LittleZero(w - 1);
    }
  }

  /** Masking the low word is masking the whole offset. */
  lemma MaskedNarrow(offset: nat, w: nat)
    requires WidthOk(w)
    ensures Masked(offset % DOMAIN, w) == Masked(offset, w)
  {
    hide Masked;
    MaskedIs(offset, w);
    MaskedIs(offset % DOMAIN, w);
    Residues(offset, w);
  }

  lemma WidthDivides(ptr: nat, w: nat, align: nat)
    requires WidthOk(w) && WidthOk(align) && w <= align && ptr % align == 0
    ensures ptr % w == 0
  {
    Residue(ptr, w, align / w, align);
  }

  lemma PartFits(offset: nat, w: nat, align: nat)
    requires WidthOk(w) && WidthOk(align) && align < w && offset < w && offset % align == 0
    ensures offset + align <= w && (offset + align) % align == 0
  {
  }

  lemma SumMultiple(a: nat, b: nat, d: nat)
    requires d > 0 && a % d == 0 && b % d == 0
    ensures (a + b) % d == 0
  {
    var p, q := a / d, b / d;
    assert (p + q) * d == a + b by { assert a == p * d && b == q * d; }
    DivUnique(a + b, d, p + q, 0);
  }

  lemma PartAligned(ptr: nat, offset: nat, align: nat)
    requires WidthOk(align) && ptr % align == 0 && offset % align == 0
    ensures (ptr + offset) % WORD % align == 0
  {
    SumMultiple(ptr, offset, align);
    Residue(ptr + offset, align, WORD / align, WORD);
  }

  /** Or-ing a shifted part onto the bytes below it reads one longer word. */
  lemma JoinPart(mem: seq<Byte>, ptr: nat, offset: nat, align: nat, v: nat, part: nat)
    requires v == Little(Read(mem, ptr, offset)) && part == Little(Read(mem, (ptr + offset) % WORD, align))
    ensures Or(v, part * Pow2(8 * offset)) == Little(Read(mem, ptr, offset + align))
  {
    hide Little, Read;
    ReadWraps(mem, ptr + offset, align);
    ReadConcat(mem, ptr, offset, align);
    LittleConcat(Read(mem, ptr, offset), Read(mem, ptr + offset, align));
    LittleBound(Read(mem, ptr, offset));
    OrAbove(v, part, 8 * offset);
  }

  lemma OrAbove(v: nat, part: nat, bits: nat)
    requires v < Pow2(bits)
    ensures Or(v, part * Pow2(bits)) == v + Pow2(bits) * part
  {
    hide Or, Pow2;
    var p := Pow2(bits);
    DivUnique(part * p, p, part, 0);
    OrBelow(part * p, v, bits);
    OrCommutes(v, part * p);
  }

  lemma ReadNothing(mem: seq<Byte>, ptr: nat)
    ensures Little(Read(mem, ptr, 0)) == 0
  {
  }

  lemma WriteNothing(mem: seq<Byte>, ptr: nat, value: nat)
    ensures Write(mem, ptr, Bytes(value, 0)) == mem
  {
  }

  lemma StorePart(mem: seq<Byte>, ptr: nat, offset: nat, align: nat, value: nat)
    requires |mem| <= DOMAIN && offset + align <= 8
    ensures Write(Write(mem, ptr, Bytes(value, offset)), (ptr + offset) % WORD,
        Bytes(ShiftRight(value, 8 * offset), align))
            == Write(mem, ptr, Bytes(value, offset + align))
  {
    hide Bytes, Write;
    var once := Write(mem, ptr, Bytes(value, offset));
    BytesConcat(value, offset, align);
    WriteConcat(mem, ptr, Bytes(value, offset), Bytes(ShiftRight(value, 8 * offset), align));
    WriteWraps(once, ptr + offset, Bytes(ShiftRight(value, 8 * offset), align));
  }
}
