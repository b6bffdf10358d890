/** The packed module image: a header, fixed-size entries sorted by name, NUL-terminated names and
    NUL-terminated sources; written by the packer, checked and searched at run time. */
module PackedLibrary {
  import opened Wrappers
  import opened Bits
  import opened Endian
  import opened Utf8

  const MAGIC: seq<Byte> := [66, 80, 67, 80, 89, 76, 73, 66]
  const HEADER := 24
  const ENTRY := 16
  const LIMIT: nat := 0x1_0000_0000

  datatype Module = Module(name: seq<Byte>, package: bool, source: seq<Byte>)

  // ----- byte strings -----

  /** The C string at the start of `s`. */
  function CString(s: seq<Byte>): seq<Byte> {
    if s == [] || s[0] == 0 then [] else [s[0]] + CString(s[1..])
  }

  lemma {:induction false} CStringIs(s: seq<Byte>, name: seq<Byte>)
    requires name + [0] <= s && 0 !in name
    ensures CString(s) == name
  {
    if name == [] {
      assert s[0] == (name + [0])[0];
    } else {
      assert s[0] == (name + [0])[0] == name[0];
      assert name[1..] + [0] == (name + [0])[1..] <= s[1..];
      CStringIs(s[1..], name[1..]);
    }
  }

  // ----- reading an image -----

  function Field(image: seq<Byte>, at: nat): (v: nat)
    requires at + 4 <= |image|
  {
    Little(image[at..at + 4])
  }

  function Count(image: seq<Byte>): nat requires |image| >= HEADER { Field(image, 12) }

  function NamesSize(image: seq<Byte>): nat requires |image| >= HEADER { Field(image, 16) }

  function NamesAt(image: seq<Byte>): nat requires |image| >= HEADER { HEADER + Count(image) * ENTRY }

  predicate HeaderOk(image: seq<Byte>): (ok: bool)
    ensures ok ==> |image| >= HEADER
  {
    && |image| >= HEADER && image[..8] == MAGIC && Field(image, 8) == 1
    && NamesAt(image) + NamesSize(image) <= |image|
    && Field(image, 20) == |image| - NamesAt(image) - NamesSize(image)
  }

  function EntryField(image: seq<Byte>, i: nat, field: nat): nat
    requires HeaderOk(image) && i < Count(image) && field < 4
  {
    EntryBounds(image, i);
    Field(image, HEADER + i * ENTRY + 4 * field)
  }

  lemma EntryBounds(image: seq<Byte>, i: nat)
    requires HeaderOk(image) && i < Count(image)
    ensures HEADER + i * ENTRY + ENTRY <= NamesAt(image) <= |image|
  {
  }

  /** The rest of the name table from entry `i`'s name on. */
  function NameBytes(image: seq<Byte>, i: nat): seq<Byte>
    requires HeaderOk(image) && i < Count(image)
  {
    var at := EntryField(image, i, 0);
    if at >= NamesSize(image) then [] else image[NamesAt(image) + at..NamesAt(image) + NamesSize(image)]
  }

  function Name(image: seq<Byte>, i: nat): seq<Byte>
    requires HeaderOk(image) && i < Count(image)
  {
    CString(NameBytes(image, i))
  }

  /** A terminated name, a terminated source inside the image, and no unknown flag. */
  predicate EntryOk(image: seq<Byte>, i: nat)
    requires HeaderOk(image) && i < Count(image)
  {
    var source, size := EntryField(image, i, 1), EntryField(image, i, 2);
    && 0 in NameBytes(image, i)
    && source + size < |image| && image[source + size] == 0
    && EntryField(image, i, 3) <= 1
  }

  /** A NUL in `image[from..to]`. */
  ghost predicate Terminated(image: seq<Byte>, from: nat, to: nat) {
    exists k :: from <= k < to && k < |image| && image[k] == 0
  }

  lemma NameTerminated(image: seq<Byte>, i: nat)
    requires HeaderOk(image) && i < Count(image)
    ensures var names := NamesAt(image);
            0 in NameBytes(image, i) <==> Terminated(image, names + EntryField(image, i, 0), names + NamesSize(image))
  {
    hide Field;
    var from, bytes := NamesAt(image) + EntryField(image, i, 0), NameBytes(image, i);
    assert forall j :: 0 <= j < |bytes| ==> bytes[j] == image[from + j];
    if Terminated(image, from, NamesAt(image) + NamesSize(image)) {
      var k :| from <= k < NamesAt(image) + NamesSize(image) && k < |image| && image[k] == 0;
      assert bytes[k - from] == 0;
    }
  }

  /** In bytes: entry `i` is the sixteen from 24 + 16 i, its name starts and ends inside the name table, its
      source ends before the image does, with a NUL, and its flags are 0 or 1. */
  lemma EntryInBytes(image: seq<Byte>, i: nat)
    requires HeaderOk(image) && i < Count(image)
    ensures 24 + 16 * i + 16 <= |image|
    ensures var at := 24 + 16 * i; var names := 24 + 16 * Little(image[12..16]);
            var end := Little(image[at + 4..at + 8]) + Little(image[at + 8..at + 12]);
            EntryOk(image, i) <==>
            && Terminated(image, names + Little(image[at..at + 4]), names + Little(image[16..20]))
            && end < |image| && image[end] == 0 && Little(image[at + 12..at + 16]) <= 1
  {
    hide Little, NameBytes, Terminated, HeaderOk, EntryField;
    EntryBounds(image, i);
    NameTerminated(image, i);
    FieldInBytes(image, i, 0);
    FieldInBytes(image, i, 1);
    FieldInBytes(image, i, 2);
    FieldInBytes(image, i, 3);
  }

  lemma FieldInBytes(image: seq<Byte>, i: nat, field: nat)
    requires HeaderOk(image) && i < Count(image) && field < 4
    ensures var at := 24 + 16 * i + 4 * field;
            at + 4 <= |image| && EntryField(image, i, field) == Little(image[at..at + 4])
  {
    EntryBounds(image, i);
    hide Little;
  }

  ghost predicate ValidImage(image: seq<Byte>) {
    && HeaderOk(image)
    && (forall i: nat :: i < Count(image) ==> EntryOk(image, i))
    && (forall i: nat, j: nat :: i < j < Count(image) ==> Less(Name(image, i), Name(image, j)))
  }

  method CheckHeader(image: seq<Byte>) returns (ok: bool)
    ensures ok <==> HeaderOk(image)
  {
    if |image| < HEADER { return false; }
    hide Little;
    if image[..8] != MAGIC || Field(image, 8) != 1 || Count(image) > (|image| - HEADER) / ENTRY { return false; }
    return NamesSize(image) <= |image| - NamesAt(image)
        && Field(image, 20) == |image| - NamesAt(image) - NamesSize(image);
  }

  /** The check made before an image is installed. */
  method Validate(image: seq<Byte>) returns (ok: bool)
    ensures ok <==> ValidImage(image)
  {
    hide HeaderOk, Name, EntryOk, Count, Less;
    var header := CheckHeader(image);
    if !header { return false; }
    for n := 0 to Count(image)
      invariant forall i: nat :: i < n ==> EntryOk(image, i)
      invariant forall i: nat, j: nat :: i < j < n ==> Less(Name(image, i), Name(image, j))
    {
      if !EntryOk(image, n) { return false; }
      if n > 0 && !Less(Name(image, n - 1), Name(image, n)) { return false; }
      forall i: nat | i < n ensures Less(Name(image, i), Name(image, n)) {
        if i < n - 1 { LessTransitive(Name(image, i), Name(image, n - 1), Name(image, n)); }
      }
    }
    return true;
  }

  /** Binary search by name, which is compared up to its first NUL. */
  method Find(image: seq<Byte>, name: seq<Byte>) returns (r: Option<nat>)
    requires ValidImage(image)
    ensures r.Some? ==> r.value < Count(image) && Name(image, r.value) == CString(name)
    ensures r.None? ==> forall i: nat :: i < Count(image) ==> Name(image, i) != CString(name)
  {
    hide HeaderOk, Name, EntryOk, Count, Less, CString;
    var key := CString(name);
    var first, last := 0, Count(image);
    while first < last
      invariant 0 <= first <= last <= Count(image)
      invariant forall i: nat :: i < first ==> Less(Name(image, i), key)
      invariant forall i: nat :: last <= i < Count(image) ==> Less(key, Name(image, i))
    {
      var middle: nat := first + (last - first) / 2;
      var other := Name(image, middle);
      Trichotomy(key, other);
      if Less(key, other) {
        forall i: nat | middle <= i < Count(image) ensures Less(key, Name(image, i)) {
          if i > middle { LessTransitive(key, other, Name(image, i)); }
        }
        last := middle;
      } else if Less(other, key) {
        forall i: nat | i <= middle ensures Less(Name(image, i), key) {
          if i < middle { LessTransitive(Name(image, i), other, key); }
        }
        first := middle + 1;
      } else {
        return Some(middle);
      }
    }
    forall i: nat | i < Count(image) ensures Name(image, i) != key { Trichotomy(key, key); }
    return None;
  }

  // ----- writing an image -----

  function NameTable(ms: seq<Module>, n: nat): seq<Byte>
    requires n <= |ms|
  {
    if n == 0 then [] else NameTable(ms, n - 1) + ms[n - 1].name + [0]
  }

  function SourceTable(ms: seq<Module>, n: nat): seq<Byte>
    requires n <= |ms|
  {
    if n == 0 then [] else SourceTable(ms, n - 1) + ms[n - 1].source + [0]
  }

  function SourcesAt(ms: seq<Module>): nat { HEADER + |ms| * ENTRY + |NameTable(ms, |ms|)| }

  function Flag(m: Module): nat { if m.package then 1 else 0 }

  /** An entry's four fields, sources addressed from the start of the image. */
  datatype Record = Record(name: nat, source: nat, size: nat, flags: nat)

  /** Offsets inside the two tables. */
  function Relative(ms: seq<Module>, i: nat): Record
    requires i < |ms|
  {
    Record(|NameTable(ms, i)|, |SourceTable(ms, i)|, |ms[i].source|, Flag(ms[i]))
  }

  function RecordOf(ms: seq<Module>, i: nat): Record
    requires i < |ms|
  {
    var r := Relative(ms, i);
    r.(source := SourcesAt(ms) + r.source)
  }

  function Encoded(r: Record): (b: seq<Byte>)
    ensures |b| == ENTRY
  {
    Bytes(r.name, 4) + Bytes(r.source, 4) + Bytes(r.size, 4) + Bytes(r.flags, 4)
  }

  function EntryTable(ms: seq<Module>, n: nat): (b: seq<Byte>)
    requires n <= |ms|
    ensures |b| == n * ENTRY
  {
    if n == 0 then [] else EntryTable(ms, n - 1) + Encoded(RecordOf(ms, n - 1))
  }

  function Head(count: nat, names: nat, sources: nat): (b: seq<Byte>)
    ensures |b| == HEADER
  {
    MAGIC + Bytes(1, 4) + Bytes(count, 4) + Bytes(names, 4) + Bytes(sources, 4)
  }

  predicate Small(r: Record) { r.name < LIMIT && r.source < LIMIT && r.size < LIMIT && r.flags < LIMIT }

  /** Every number fits its 32-bit field. */
  ghost predicate Fits(ms: seq<Module>) {
    && |ms| < LIMIT && |NameTable(ms, |ms|)| < LIMIT && |SourceTable(ms, |ms|)| < LIMIT
    && forall i: nat :: i < |ms| ==> Small(RecordOf(ms, i))
  }

  ghost function Image(ms: seq<Module>): seq<Byte> {
    var n := |ms|;
    Head(n, |NameTable(ms, n)|, |SourceTable(ms, n)|) + EntryTable(ms, n) + NameTable(ms, n) + SourceTable(ms, n)
  }

  lemma RelativeIs(ms: seq<Module>, i: nat)
    requires i < |ms|
    ensures Relative(ms, i) == Record(|NameTable(ms, i)|, |SourceTable(ms, i)|, |ms[i].source|, Flag(ms[i]))
  {
  }

  /** One pass over the modules: both tables, and entries with sources addressed in their table. */
  method Gather(ms: seq<Module>) returns (names: seq<Byte>, sources: seq<Byte>, records: seq<Record>)
    ensures names == NameTable(ms, |ms|) && sources == SourceTable(ms, |ms|) && |records| == |ms|
    ensures forall k: nat :: k < |ms| ==> records[k] == Relative(ms, k)
  {
    hide Relative;
    names, sources, records := [], [], [];
    for i := 0 to |ms|
      invariant names == NameTable(ms, i) && sources == SourceTable(ms, i) && |records| == i
      invariant forall k: nat :: k < i ==> records[k] == Relative(ms, k)
    {
      RelativeIs(ms, i);
      records := records + [Record(|names|, |sources|, |ms[i].source|, Flag(ms[i]))];
      names := names + ms[i].name + [0];
      sources := sources + ms[i].source + [0];
    }
  }

  /** The packer, on modules in name order; it stops if a number does not fit its field. */
  method Pack(ms: seq<Module>) returns (r: Option<seq<Byte>>)
    ensures r.Some? <==> Fits(ms)
    ensures r.Some? ==> r.value == Image(ms)
  {
    hide NameTable, SourceTable, Head, Encoded;
    var names, sources, records := Gather(ms);
    var dataOffset := HEADER + ENTRY * |ms| + |names|;
    if |records| >= LIMIT || |names| >= LIMIT || |sources| >= LIMIT { return None; }
    var entries: seq<Byte> := [];
    for i := 0 to |records|
      invariant forall k: nat :: k < i ==> Small(RecordOf(ms, k))
      invariant entries == EntryTable(ms, i)
    {
      var entry := records[i].(source := dataOffset + records[i].source);
      assert entry == RecordOf(ms, i);
      if !Small(entry) { return None; }
      entries := entries + Encoded(entry);
    }
    return Some(Head(|records|, |names|, |sources|) + entries + names + sources);
  }

  // ----- the round trip -----

  /** `part` stands at `at` in `image`. */
  ghost predicate Stands(image: seq<Byte>, at: nat, part: seq<Byte>) {
    at + |part| <= |image| && image[at..at + |part|] == part
  }

  lemma StandsInside(image: seq<Byte>, at: nat, whole: seq<Byte>, k: nat, part: seq<Byte>)
    requires Stands(image, at, whole) && Stands(whole, k, part)
    ensures Stands(image, at + k, part)
  {
    forall j | 0 <= j < |part| ensures image[at + k + j] == part[j] {
      assert image[at..at + |whole|][k + j] == whole[k + j];
      assert whole[k..k + |part|][j] == part[j];
    }
  }

  lemma StandsConcat(a: seq<Byte>, b: seq<Byte>, c: seq<Byte>)
    ensures Stands(a + b + c, |a|, b)
  {
  }

  lemma FieldIs(image: seq<Byte>, at: nat, v: nat)
    requires Stands(image, at, Bytes(v, 4)) && v < LIMIT
    ensures at + 4 <= |image| && Field(image, at) == v
  {
    hide Pow2, Little, Bytes;
    LittleOfBytes(v, 4);
    FieldLimit();
  }

  lemma FieldLimit()
    ensures Pow2(32) == LIMIT
  {
    Pow2Add(11, 11);
    Pow2Add(10, 22);
    assert Pow2(10) == 1024 && Pow2(11) == 2048;
  }

  lemma HeadIs(image: seq<Byte>, count: nat, names: nat, sources: nat)
    requires Stands(image, 0, Head(count, names, sources)) && count < LIMIT && names < LIMIT && sources < LIMIT
    ensures |image| >= HEADER && image[..8] == MAGIC && Field(image, 8) == 1
    ensures Count(image) == count && NamesSize(image) == names && Field(image, 20) == sources
  {
    hide Bytes, Field;
    var h := Head(count, names, sources);
    var m, a, b, c, d := MAGIC, Bytes(1, 4), Bytes(count, 4), Bytes(names, 4), Bytes(sources, 4);
    assert h[..8] == m && h[8..12] == a && h[12..16] == b && h[16..20] == c && h[20..24] == d;
    assert image[..8] == image[0..24][..8];
    StandsInside(image, 0, h, 8, a);
    StandsInside(image, 0, h, 12, b);
    StandsInside(image, 0, h, 16, c);
    StandsInside(image, 0, h, 20, d);
    FieldIs(image, 8, 1);
    FieldIs(image, 12, count);
    FieldIs(image, 16, names);
    FieldIs(image, 20, sources);
  }

  lemma RecordIs(image: seq<Byte>, at: nat, r: Record)
    requires Stands(image, at, Encoded(r)) && Small(r)
    ensures at + 16 <= |image| && Field(image, at) == r.name && Field(image, at + 4) == r.source
    ensures Field(image, at + 8) == r.size && Field(image, at + 12) == r.flags
  {
    hide Bytes, Field;
    var e := Encoded(r);
    var a, b, c, d := Bytes(r.name, 4), Bytes(r.source, 4), Bytes(r.size, 4), Bytes(r.flags, 4);
    assert e[0..4] == a && e[4..8] == b && e[8..12] == c && e[12..16] == d;
    StandsInside(image, at, e, 0, a);
    StandsInside(image, at, e, 4, b);
    StandsInside(image, at, e, 8, c);
    StandsInside(image, at, e, 12, d);
    FieldIs(image, at, r.name);
    FieldIs(image, at + 4, r.source);
    FieldIs(image, at + 8, r.size);
    FieldIs(image, at + 12, r.flags);
  }

  lemma {:induction false} EntryStands(ms: seq<Module>, n: nat, i: nat)
    requires i < n <= |ms|
    ensures Stands(EntryTable(ms, n), i * ENTRY, Encoded(RecordOf(ms, i)))
    decreases n
  {
    hide Encoded, RecordOf;
    var before, last := EntryTable(ms, n - 1), Encoded(RecordOf(ms, n - 1));
    if i < n - 1 {
      EntryStands(ms, n - 1, i);
      StandsConcat([], before, last);
      assert [] + before + last == before + last;
      StandsInside(before + last, 0, before, i * ENTRY, Encoded(RecordOf(ms, i)));
    } else {
      StandsConcat(before, last, []);
      assert before + last + [] == before + last;
    }
  }

  lemma {:induction false} NameStands(ms: seq<Module>, n: nat, i: nat)
    requires i < n <= |ms|
    ensures Stands(NameTable(ms, n), |NameTable(ms, i)|, ms[i].name + [0])
    decreases n
  {
    var before, last := NameTable(ms, n - 1), ms[n - 1].name + [0];
    assert NameTable(ms, n) == before + last;
    if i < n - 1 {
      NameStands(ms, n - 1, i);
      StandsConcat([], before, last);
      assert [] + before + last == before + last;
      StandsInside(before + last, 0, before, |NameTable(ms, i)|, ms[i].name + [0]);
    } else {
      StandsConcat(before, last, []);
      assert before + last + [] == before + last;
    }
  }

  lemma {:induction false} SourceStands(ms: seq<Module>, n: nat, i: nat)
    requires i < n <= |ms|
    ensures Stands(SourceTable(ms, n), |SourceTable(ms, i)|, ms[i].source + [0])
    decreases n
  {
    var before, last := SourceTable(ms, n - 1), ms[n - 1].source + [0];
    assert SourceTable(ms, n) == before + last;
    if i < n - 1 {
      SourceStands(ms, n - 1, i);
      StandsConcat([], before, last);
      assert [] + before + last == before + last;
      StandsInside(before + last, 0, before, |SourceTable(ms, i)|, ms[i].source + [0]);
    } else {
      StandsConcat(before, last, []);
      assert before + last + [] == before + last;
    }
  }

  /** Where the four parts of a packed image are. */
  lemma PartsStand(ms: seq<Module>)
    ensures var image, n := Image(ms), |ms|;
            && Stands(image, 0, Head(n, |NameTable(ms, n)|, |SourceTable(ms, n)|))
                && Stands(image, HEADER, EntryTable(ms, n))
            && Stands(image, HEADER + n * ENTRY, NameTable(ms, n)) && Stands(image, SourcesAt(ms), SourceTable(ms, n))
            && |image| == SourcesAt(ms) + |SourceTable(ms, n)|
  {
    hide Head, EntryTable, NameTable, SourceTable;
    var n := |ms|;
    var h, e, a, b := Head(n, |NameTable(ms, n)|, |SourceTable(ms, n)|), EntryTable(ms, n), NameTable(ms, n),
        SourceTable(ms, n);
    assert h + e + a + b == [] + h + (e + a + b);
    StandsConcat([], h, e + a + b);
    assert h + e + a + b == h + e + (a + b);
    StandsConcat(h, e, a + b);
    StandsConcat(h + e, a, b);
    assert h + e + a + b == (h + e + a) + b + [];
    StandsConcat(h + e + a, b, []);
  }

  /** The library as the run time sees it: names, sources and flags by index. */
  function Source(image: seq<Byte>, i: nat): seq<Byte>
    requires HeaderOk(image) && i < Count(image) && EntryOk(image, i)
  {
    var at := EntryField(image, i, 1);
    image[at..at + EntryField(image, i, 2)]
  }

  lemma PackedHeader(ms: seq<Module>)
    requires Fits(ms)
    ensures HeaderOk(Image(ms)) && Count(Image(ms)) == |ms| && NamesSize(Image(ms)) == |NameTable(ms, |ms|)|
    ensures NamesAt(Image(ms)) == HEADER + |ms| * ENTRY
  {
    hide Image, Head, EntryTable, NameTable, SourceTable, Field;
    PartsStand(ms);
    HeadIs(Image(ms), |ms|, |NameTable(ms, |ms|)|, |SourceTable(ms, |ms|)|);
  }

  lemma PackedFields(ms: seq<Module>, i: nat)
    requires Fits(ms) && i < |ms|
    ensures HeaderOk(Image(ms)) && Count(Image(ms)) == |ms|
    ensures Record(EntryField(Image(ms), i, 0), EntryField(Image(ms), i, 1), EntryField(Image(ms), i, 2),
        EntryField(Image(ms), i, 3)) == RecordOf(ms, i)
  {
    hide Image, Head, EntryTable, NameTable, SourceTable, Field, Encoded, HeaderOk;
    PackedHeader(ms);
    PartsStand(ms);
    EntryStands(ms, |ms|, i);
    StandsInside(Image(ms), HEADER, EntryTable(ms, |ms|), i * ENTRY, Encoded(RecordOf(ms, i)));
    assert Small(RecordOf(ms, i));
    RecordIs(Image(ms), HEADER + i * ENTRY, RecordOf(ms, i));
  }

  lemma TailStands(image: seq<Byte>, base: nat, table: seq<Byte>, at: nat, part: seq<Byte>)
    requires Stands(image, base, table) && Stands(table, at, part)
    ensures image[base + at..base + |table|] == table[at..] && part <= table[at..]
  {
    assert image[base + at..base + |table|] == image[base..base + |table|][at..];
    assert table[at..][..|part|] == table[at..at + |part|];
  }

  lemma RecordOfIs(ms: seq<Module>, i: nat)
    requires i < |ms|
    ensures RecordOf(ms, i) == Record(|NameTable(ms, i)|, SourcesAt(ms) + |SourceTable(ms, i)|, |ms[i].source|,
        Flag(ms[i]))
  {
  }

  /** Entry `i`'s name offset leads to the part of the name table that holds its name. */
  lemma PackedNameBytes(ms: seq<Module>, i: nat)
    requires Fits(ms) && i < |ms|
    ensures HeaderOk(Image(ms)) && Count(Image(ms)) == |ms| && |NameTable(ms, i)| < |NameTable(ms, |ms|)|
    ensures NameBytes(Image(ms), i) == NameTable(ms, |ms|)[|NameTable(ms, i)|..]
        && ms[i].name + [0] <= NameBytes(Image(ms), i)
  {
    hide Image, NameTable, HeaderOk, Field, Count, EntryField, NamesAt, NamesSize, SourcesAt, RecordOf, Fits,
        EntryTable, Head, SourceTable;
    PackedHeader(ms);
    PackedFields(ms, i);
    RecordOfIs(ms, i);
    PartsStand(ms);
    NameStands(ms, |ms|, i);
    TailStands(Image(ms), NamesAt(Image(ms)), NameTable(ms, |ms|), |NameTable(ms, i)|, ms[i].name + [0]);
  }

  lemma PackedName(ms: seq<Module>, i: nat)
    requires Fits(ms) && i < |ms| && 0 !in ms[i].name
    ensures HeaderOk(Image(ms)) && Count(Image(ms)) == |ms|
    ensures Name(Image(ms), i) == ms[i].name && 0 in NameBytes(Image(ms), i)
  {
    hide Image, NameTable, HeaderOk, Count, NameBytes, CString, Fits;
    PackedNameBytes(ms, i);
    var bytes, name := NameBytes(Image(ms), i), ms[i].name;
    CStringIs(bytes, name);
    assert bytes[|name|] == (name + [0])[|name|] == 0;
  }

  lemma SourceSlice(image: seq<Byte>, at: nat, source: seq<Byte>)
    requires Stands(image, at, source + [0])
    ensures at + |source| < |image| && image[at + |source|] == 0 && image[at..at + |source|] == source
  {
    var whole := source + [0];
    assert image[at..at + |whole|][|source|] == whole[|source|];
    assert image[at..at + |source|] == image[at..at + |whole|][..|source|];
  }

  lemma PackedEntry(ms: seq<Module>, i: nat)
    requires Fits(ms) && i < |ms| && 0 !in ms[i].name
    ensures HeaderOk(Image(ms)) && Count(Image(ms)) == |ms| && EntryOk(Image(ms), i)
    ensures Source(Image(ms), i) == ms[i].source && EntryField(Image(ms), i, 3) == Flag(ms[i])
  {
    hide Image, NameTable, SourceTable, HeaderOk, Field, Count, EntryField, NameBytes, SourcesAt, RecordOf, Fits,
        Name, EntryTable, Head, Stands;
    PackedName(ms, i);
    PackedFields(ms, i);
    RecordOfIs(ms, i);
    PartsStand(ms);
    SourceStands(ms, |ms|, i);
    StandsInside(Image(ms), SourcesAt(ms), SourceTable(ms, |ms|), |SourceTable(ms, i)|, ms[i].source + [0]);
    SourceSlice(Image(ms), SourcesAt(ms) + |SourceTable(ms, i)|, ms[i].source);
  }

  ghost predicate NamesOk(ms: seq<Module>) { forall i :: 0 <= i < |ms| ==> 0 !in ms[i].name }

  /** In name order, as the packer leaves them; equal names stay next to each other. */
  ghost predicate InOrder(ms: seq<Module>) {
    forall i, j :: 0 <= i < j < |ms| ==> !Less(ms[j].name, ms[i].name)
  }

  ghost predicate DistinctNames(ms: seq<Module>) {
    forall i, j :: 0 <= i < j < |ms| ==> ms[i].name != ms[j].name
  }

  /** A packed image passes the check exactly when no two modules have one name. */
  lemma PackedIsValid(ms: seq<Module>)
    requires Fits(ms) && NamesOk(ms) && InOrder(ms)
    ensures ValidImage(Image(ms)) <==> DistinctNames(ms)
  {
    hide Image, HeaderOk, Count, EntryOk, Name, Fits, Less;
    PackedHeader(ms);
    forall i: nat | i < |ms| ensures EntryOk(Image(ms), i) && Name(Image(ms), i) == ms[i].name {
      PackedEntry(ms, i);
      PackedName(ms, i);
    }
    forall i: nat, j: nat | i < j < |ms|
      ensures Less(Name(Image(ms), i), Name(Image(ms), j)) <==> ms[i].name != ms[j].name
    {
      Trichotomy(ms[i].name, ms[j].name);
    }
  }

  // ----- the packer's input: files in any order -----

  /** A module file: its dotted name, whether it is a package, and its text. */
  datatype File = File(name: Text, package: bool, source: seq<Byte>)

  function EncodeFile(f: File): Module { Module(Encode(f.name), f.package, f.source) }

  function EncodeFiles(fs: seq<File>): (ms: seq<Module>)
    ensures |ms| == |fs| && forall i :: 0 <= i < |fs| ==> ms[i] == EncodeFile(fs[i])
  {
    seq(|fs|, i requires 0 <= i < |fs| => EncodeFile(fs[i]))
  }

  ghost predicate SortedFiles(fs: seq<File>) {
    forall i, j :: 0 <= i < j < |fs| ==> !Less(fs[j].name, fs[i].name)
  }

  ghost predicate DistinctFiles(fs: seq<File>) {
    forall i, j :: 0 <= i < j < |fs| ==> fs[i].name != fs[j].name
  }

  /** What a file adds to the image. */
  function FileSize(f: File): nat { ENTRY + |Encode(f.name)| + 1 + |f.source| + 1 }

  function FileSizes(fs: seq<File>): nat {
    if fs == [] then 0 else FileSizes(fs[..|fs| - 1]) + FileSize(fs[|fs| - 1])
  }

  lemma {:induction false} SizesConcat(a: seq<File>, b: seq<File>)
    ensures FileSizes(a + b) == FileSizes(a) + FileSizes(b)
  {
    if b == [] {
      assert a + b == a;
    } else {
      SizesConcat(a, b[..|b| - 1]);
      assert (a + b)[..|a + b| - 1] == a + b[..|b| - 1];
    }
  }

  lemma NotBelowTransitive(a: Text, b: Text, c: Text)
    requires !Less(b, a) && !Less(c, b)
    ensures !Less(c, a)
  {
    Trichotomy(a, b);
    Trichotomy(b, c);
    Trichotomy(a, c);
    if Less(c, a) {
      if a != b { LessTransitive(c, a, b); }
    }
  }

  lemma OneSize(f: File)
    ensures FileSizes([f]) == FileSize(f)
  {
    assert [f][..0] == [];
  }

  /** Put one file where its name belongs. */
  method InsertFile(fs: seq<File>, f: File) returns (r: seq<File>)
    requires SortedFiles(fs)
    ensures SortedFiles(r) && multiset(r) == multiset(fs) + multiset{f} && FileSizes(r) == FileSizes(fs) + FileSize(f)
    ensures DistinctFiles(r) <==> DistinctFiles(fs) && forall x :: x in fs ==> x.name != f.name
  {
    hide Less, FileSize, FileSizes, SortedFiles, DistinctFiles;
    var k := |fs|;
    while k > 0 && Less(f.name, fs[k - 1].name)
      invariant 0 <= k <= |fs| && forall i :: k <= i < |fs| ==> Less(f.name, fs[i].name)
    {
      k := k - 1;
    }
    r := fs[..k] + [f] + fs[k..];
    InsertSorts(fs, f, k);
    InsertDistinct(fs, f, k);
    assert fs == fs[..k] + fs[k..];
    SizesConcat(fs[..k], fs[k..]);
    SizesConcat(fs[..k], [f]);
    SizesConcat(fs[..k] + [f], fs[k..]);
    OneSize(f);
  }

  lemma InsertSorts(fs: seq<File>, f: File, k: nat)
    requires SortedFiles(fs) && k <= |fs| && (k > 0 ==> !Less(f.name, fs[k - 1].name))
    requires forall i :: k <= i < |fs| ==> Less(f.name, fs[i].name)
    ensures SortedFiles(fs[..k] + [f] + fs[k..])
  {
    hide Less;
    var r := fs[..k] + [f] + fs[k..];
    forall i | 0 <= i < k ensures !Less(f.name, fs[i].name) {
      if i < k - 1 { NotBelowTransitive(fs[i].name, fs[k - 1].name, f.name); }
    }
    forall i | k <= i < |fs| ensures !Less(fs[i].name, f.name) { Trichotomy(f.name, fs[i].name); }
    forall i, j | 0 <= i < j < |r| ensures !Less(r[j].name, r[i].name) {
      assert r[i] == if i < k then fs[i] else if i == k then f else fs[i - 1];
      assert r[j] == if j < k then fs[j] else if j == k then f else fs[j - 1];
    }
  }

  lemma InsertDistinct(fs: seq<File>, f: File, k: nat)
    requires k <= |fs|
    ensures DistinctFiles(fs[..k] + [f] + fs[k..]) <==> DistinctFiles(fs) && forall x :: x in fs ==> x.name != f.name
  {
    var r := fs[..k] + [f] + fs[k..];
    assert forall i :: 0 <= i < |r| ==> r[i] == if i < k then fs[i] else if i == k then f else fs[i - 1];
    assert forall i :: 0 <= i < |fs| ==> fs[i] == if i < k then r[i] else r[i + 1];
    if DistinctFiles(r) {
      forall i, j | 0 <= i < j < |fs| ensures fs[i].name != fs[j].name {
        assert r[if i < k then i else i + 1] == fs[i] && r[if j < k then j else j + 1] == fs[j];
      }
      forall x | x in fs ensures x.name != f.name {
        var i :| 0 <= i < |fs| && fs[i] == x;
        assert r[if i < k then i else i + 1] == x && r[k] == f;
      }
    }
  }

  lemma NextFile(fs: seq<File>, i: nat)
    requires i < |fs|
    ensures multiset(fs[..i + 1]) == multiset(fs[..i]) + multiset{fs[i]}
    ensures FileSizes(fs[..i + 1]) == FileSizes(fs[..i]) + FileSize(fs[i])
    ensures DistinctFiles(fs[..i + 1]) <==> DistinctFiles(fs[..i]) && forall x :: x in fs[..i] ==> x.name != fs[i].name
  {
    var before := fs[..i];
    assert fs[..i + 1] == before + [fs[i]] == before[..i] + [fs[i]] + before[i..];
    InsertDistinct(before, fs[i], i);
    assert fs[..i + 1][..i] == before;
  }

  /** The files by name, as the packer takes them. */
  method SortFiles(fs: seq<File>) returns (r: seq<File>)
    ensures SortedFiles(r) && multiset(r) == multiset(fs) && FileSizes(r) == FileSizes(fs)
    ensures DistinctFiles(r) <==> DistinctFiles(fs)
  {
    r := [];
    assert fs[..|fs|] == fs;
    hide Less, FileSize, FileSizes, SortedFiles, DistinctFiles;
    for i := 0 to |fs|
      invariant SortedFiles(r) && multiset(r) == multiset(fs[..i]) && FileSizes(r) == FileSizes(fs[..i])
      invariant DistinctFiles(r) <==> DistinctFiles(fs[..i])
    {
      NextFile(fs, i);
      SameFiles(fs[..i], r);
      r := InsertFile(r, fs[i]);
    }
  }

  /** An image below 4 GiB has only numbers that fit. */
  lemma SmallFits(fs: seq<File>)
    requires HEADER + FileSizes(fs) < LIMIT
    ensures Fits(EncodeFiles(fs))
  {
    var ms, n := EncodeFiles(fs), |fs|;
    hide NameTable, SourceTable, FileSizes, RecordOf, EncodeFiles;
    TableSizes(fs, n);
    assert fs[..n] == fs;
    forall i: nat | i < n ensures Small(RecordOf(ms, i)) {
      RecordOfIs(ms, i);
      NextTable(ms, i);
      TablesGrow(ms, i + 1, n);
    }
  }

  lemma NextTable(ms: seq<Module>, i: nat)
    requires i < |ms|
    ensures |NameTable(ms, i + 1)| == |NameTable(ms, i)| + |ms[i].name| + 1
    ensures |SourceTable(ms, i + 1)| == |SourceTable(ms, i)| + |ms[i].source| + 1
  {
  }

  lemma {:induction false} TableSizes(fs: seq<File>, n: nat)
    requires n <= |fs|
    ensures var ms := EncodeFiles(fs); n * ENTRY + |NameTable(ms, n)| + |SourceTable(ms, n)| == FileSizes(fs[..n])
  {
    if n > 0 {
      TableSizes(fs, n - 1);
      assert fs[..n][..n - 1] == fs[..n - 1];
    }
  }

  lemma {:induction false} TablesGrow(ms: seq<Module>, i: nat, n: nat)
    requires i <= n <= |ms|
    ensures |NameTable(ms, i)| <= |NameTable(ms, n)| && |SourceTable(ms, i)| <= |SourceTable(ms, n)|
    decreases n
  {
    if i < n { TablesGrow(ms, i, n - 1); }
  }

  /** Sort, encode and write: refused for a name without an encoding or a number too large. The image is
      valid exactly when no two files have one name. */
  method PackFiles(fs: seq<File>) returns (r: Option<seq<Byte>>, ghost sorted: seq<File>)
    requires forall f :: f in fs ==> 0 !in f.name
    ensures (forall f :: f in fs ==> Encodable(f.name)) && HEADER + FileSizes(fs) < LIMIT ==> r.Some?
    ensures r.Some? ==> forall f :: f in fs ==> Encodable(f.name)
    ensures multiset(sorted) == multiset(fs) && (DistinctFiles(sorted) <==> DistinctFiles(fs))
        && InOrder(EncodeFiles(sorted))
    ensures r.Some? ==>
              Fits(EncodeFiles(sorted)) && NamesOk(EncodeFiles(sorted))
              && r.value == Image(EncodeFiles(sorted))
    ensures r.Some? ==> (ValidImage(r.value) <==> DistinctFiles(fs))
  {
    hide Fits, Image, ValidImage, Less, Encodable, FileSizes;
    var files := SortFiles(fs);
    sorted := files;
    SameFiles(fs, files);
    var ms := EncodeFiles(files);
    EncodedInOrder(files);
    for i := 0 to |files|
      invariant forall j :: 0 <= j < i ==> Encodable(files[j].name)
    {
      assert files[i] in files;
      if !Encodable(files[i].name) { return None, sorted; }
    }
    if HEADER + FileSizes(files) < LIMIT { SmallFits(files); }
    r := Pack(ms);
    if r.Some? { PackedIsValid(ms); }
  }

  lemma SameFiles(fs: seq<File>, r: seq<File>)
    requires multiset(fs) == multiset(r)
    ensures forall f :: f in fs <==> f in r
  {
    forall f ensures f in fs <==> f in r { assert f in multiset(fs) <==> f in multiset(r); }
  }

  /** Names in code-point order are in byte order once encoded, and as distinct and NUL-free. */
  lemma EncodedInOrder(fs: seq<File>)
    requires SortedFiles(fs)
    ensures InOrder(EncodeFiles(fs)) && (DistinctNames(EncodeFiles(fs)) <==> DistinctFiles(fs))
    ensures (forall f :: f in fs ==> 0 !in f.name) ==> NamesOk(EncodeFiles(fs))
  {
    hide Less, Encode;
    var ms := EncodeFiles(fs);
    forall i, j | 0 <= i < j < |fs|
      ensures !Less(ms[j].name, ms[i].name) && (ms[i].name == ms[j].name <==> fs[i].name == fs[j].name)
    {
      EncodingKeepsOrder(fs[j].name, fs[i].name);
    }
    forall i | 0 <= i < |fs| && 0 !in fs[i].name ensures 0 !in ms[i].name { EncodingKeepsNul(fs[i].name); }
  }

  lemma {:induction false} CStringSkips(p: seq<Byte>, rest: seq<Byte>)
    requires 0 !in p
    ensures CString(p + rest) == p + CString(rest)
  {
    if p == [] {
      assert p + rest == rest;
    } else {
      CStringSkips(p[1..], rest);
      assert (p + rest)[1..] == p[1..] + rest;
    }
  }

  /** Cutting the encoding at its first NUL is encoding the text up to its first NUL. */
  lemma {:induction false} CStringOfEncoding(t: Text)
    ensures CString(Encode(t)) == Encode(Upto(t))
  {
    if t != [] && t[0] != 0 {
      CStringOfEncoding(t[1..]);
      assert 0 !in EncodePoint(t[0]);
      CStringSkips(EncodePoint(t[0]), Encode(t[1..]));
    }
  }

  /** Looking for "os", NUL, "x" is looking for "os". */
  lemma NulKeyIsCut()
    ensures var os, odd: Text := [111, 115], [111, 115, 0, 120];
            odd != os && Upto(odd) == os && CString(Encode(odd)) == Encode(os) != Encode(odd)
  {
    var os, odd: Text := [111, 115], [111, 115, 0, 120];
    assert odd[1..] == [115, 0, 120] && odd[1..][1..] == [0, 120];
    assert Upto([115, 0, 120]) == [115] + Upto([0, 120]);
    CStringOfEncoding(odd);
    EncodingKeepsOrder(os, odd);
  }

  /** Packing then looking up: the name up to its first NUL, if packed, gives its own source and flag, and
      any other name none; a name without an encoding is not looked up. */
  method PackedLookup(fs: seq<File>, name: Text) returns (packed: bool, r: Option<(seq<Byte>, bool)>)
    requires (forall f :: f in fs ==> 0 !in f.name) && DistinctFiles(fs)
    ensures (forall f :: f in fs ==> Encodable(f.name)) && HEADER + FileSizes(fs) < LIMIT ==> packed
    ensures packed ==> (r.Some? <==> Encodable(name) && exists f :: f in fs && f.name == Upto(name))
    ensures packed && r.Some? ==> forall f :: f in fs && f.name == Upto(name) ==> r == Some((f.source, f.package))
    ensures packed && 0 !in name ==> (r.Some? <==> exists f :: f in fs && f.name == name)
  {
    hide Image, HeaderOk, Count, EntryOk, Name, Fits, InOrder, Source, EntryField, Encode, Less, FileSizes, CString;
    var image, sorted := PackFiles(fs);
    if image.None? { return false, None; }
    UptoKeeps(name);
    if !Encodable(name) { return true, None; }
    SameFiles(fs, sorted);
    ghost var ms := EncodeFiles(sorted);
    PackedHeader(ms);
    forall i: nat | i < |ms| ensures Name(image.value, i) == ms[i].name { PackedName(ms, i); }
    var found := Find(image.value, Encode(name));
    CStringOfEncoding(name);
    forall i | 0 <= i < |sorted| ensures ms[i].name == Encode(Upto(name)) <==> sorted[i].name == Upto(name) {
      EncodingKeepsOrder(sorted[i].name, Upto(name));
    }
    if found.None? { return true, None; }
    PackedEntry(ms, found.value);
    assert sorted[found.value] in sorted;
    return true, Some((Source(image.value, found.value), EntryField(image.value, found.value, 3) == 1));
  }
}
