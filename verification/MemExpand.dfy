/** Memory intrinsics expanded into loops of 8-byte words and a byte tail. */
module MemExpand {
  import opened Endian

  const REPEAT: nat := 0x0101_0101_0101_0101

  // ----- what the intrinsics mean -----

  /** All source bytes are read before any destination byte is written. */
  ghost function Moved(s: seq<Byte>, dst: nat, src: nat, len: nat): seq<Byte>
    requires dst + len <= |s| && src + len <= |s|
  {
    s[..dst] + s[src..src + len] + s[dst + len..]
  }

  ghost function Filled(s: seq<Byte>, dst: nat, b: Byte, len: nat): seq<Byte>
    requires dst + len <= |s|
  {
    s[..dst] + seq<Byte>(len, _ => b) + s[dst + len..]
  }

  // ----- words -----

  function Repeated(n: nat): nat { if n == 0 then 0 else 256 * Repeated(n - 1) + 1 }

  lemma {:induction false} BytesOfRepeated(b: Byte, n: nat)
    ensures Bytes(b * Repeated(n), n) == seq<Byte>(n, _ => b)
  {
    if n > 0 {
      var low := b * Repeated(n - 1);
      BytesOfRepeated(b, n - 1);
      RepeatedStep(b, Repeated(n - 1));
      assert (256 * low + b) % 256 == b && (256 * low + b) / 256 == low;
      assert Bytes(256 * low + b, n) == [b] + Bytes(low, n - 1);
    }
  }

  lemma RepeatedStep(b: nat, r: nat)
    ensures b * (256 * r + 1) == 256 * (b * r) + b
  {
  }

  lemma RepeatIsRepeated()
    ensures Repeated(1) == 1 && Repeated(8) == REPEAT
  {
    assert Repeated(4) == 0x0101_0101;
    assert Repeated(8) == 256 * (256 * (256 * (256 * Repeated(4) + 1) + 1) + 1) + 1;
  }

  /** An aligned store of `w` bytes, low byte first. */
  method Store(mem: array<Byte>, a: nat, w: nat, v: nat)
    requires a + w <= mem.Length
    modifies mem
    ensures forall k :: 0 <= k < mem.Length ==> mem[k] == if a <= k < a + w then Bytes(v, w)[k - a] else old(mem[k])
  {
    for i := 0 to w
      invariant forall k :: 0 <= k < mem.Length ==> mem[k] == if a <= k < a + i then Bytes(v, w)[k - a] else old(mem[k])
    {
      mem[a + i] := Bytes(v, w)[i];
    }
  }

  // ----- copying -----

  /** Chunks already written cannot be read again. */
  predicate SafeOrder(dst: nat, src: nat, len: nat, descending: bool) {
    if descending then src <= dst else dst <= src || src + len <= dst
  }

  /** `n` bytes are a whole number of chunks. */
  predicate Chunks(n: int, step: nat) { n >= 0 && (if step == 8 then n % 8 == 0 else step == 1) }

  /** `after` is `before` with `n` bytes at `to` taken from `from`. */
  ghost predicate Shifted(before: seq<Byte>, after: seq<Byte>, to: nat, from: nat, n: nat) {
    && |after| == |before| && to + n <= |before| && from + n <= |before|
    && forall k {:trigger after[k]} :: 0 <= k < |after| ==>
        after[k] == if to <= k < to + n then before[k - to + from] else before[k]
  }

  /** Going up, the second copy reads bytes the first left alone. */
  lemma JoinUp(a: seq<Byte>, b: seq<Byte>, c: seq<Byte>, to: nat, from: nat, m: nat, n: nat)
    requires Shifted(a, b, to, from, m) && Shifted(b, c, to + m, from + m, n) && (to <= from || from + m + n <= to)
    ensures Shifted(a, c, to, from, m + n)
  {
    forall k | 0 <= k < |c| ensures c[k] == if to <= k < to + (m + n) then a[k - to + from] else a[k] {
      assert c[k] == if to + m <= k < to + m + n then b[k - to + from] else b[k];
    }
  }

  /** Going down, likewise. */
  lemma JoinDown(a: seq<Byte>, b: seq<Byte>, c: seq<Byte>, to: nat, from: nat, m: nat, n: nat)
    requires Shifted(a, b, to + m, from + m, n) && Shifted(b, c, to, from, m) && from <= to
    ensures Shifted(a, c, to, from, m + n)
  {
    forall k | 0 <= k < |c| ensures c[k] == if to <= k < to + (m + n) then a[k - to + from] else a[k] {
      assert c[k] == if to <= k < to + m then b[k - to + from] else b[k];
    }
  }

  lemma ShiftedIsMoved(a: seq<Byte>, c: seq<Byte>, dst: nat, src: nat, len: nat)
    requires Shifted(a, c, dst, src, len)
    ensures c == Moved(a, dst, src, len)
  {
  }

  lemma ShiftedNone(a: seq<Byte>, to: nat, from: nat)
    requires to <= |a| && from <= |a|
    ensures Shifted(a, a, to, from, 0)
  {
  }

  method CopyChunk(mem: array<Byte>, to: nat, from: nat, step: nat)
    requires to + step <= mem.Length && from + step <= mem.Length
    modifies mem
    ensures Shifted(old(mem[..]), mem[..], to, from, step)
  {
    var chunk := mem[from..from + step];
    BytesOfLittle(chunk);
    Store(mem, to, step, Little(chunk));
  }

  method CopyDown(mem: array<Byte>, dst: nat, src: nat, begin: nat, end: nat, step: nat)
    requires Chunks(end - begin, step) && dst + end <= mem.Length && src <= dst
    modifies mem
    ensures Shifted(old(mem[..]), mem[..], dst + begin, src + begin, end - begin)
  {
    hide Shifted;
    var i := end;
    ShiftedNone(mem[..], dst + end, src + end);
    while i > begin
      invariant begin <= i <= end && Chunks(i - begin, step)
      invariant Shifted(old(mem[..]), mem[..], dst + i, src + i, end - i)
    {
      var off := i - step;
      ghost var was := mem[..];
      CopyChunk(mem, dst + off, src + off, step);
      JoinDown(old(mem[..]), was, mem[..], dst + off, src + off, step, end - i);
      i := off;
    }
  }

  method CopyUp(mem: array<Byte>, dst: nat, src: nat, begin: nat, end: nat, step: nat)
    requires Chunks(end - begin, step) && dst + end <= mem.Length && src + end <= mem.Length
        && (dst <= src || src + end <= dst)
    modifies mem
    ensures Shifted(old(mem[..]), mem[..], dst + begin, src + begin, end - begin)
  {
    hide Shifted;
    var i := begin;
    ShiftedNone(mem[..], dst + begin, src + begin);
    while i < end
      invariant begin <= i <= end && Chunks(end - i, step)
      invariant Shifted(old(mem[..]), mem[..], dst + begin, src + begin, i - begin)
    {
      ghost var was := mem[..];
      CopyChunk(mem, dst + i, src + i, step);
      JoinUp(old(mem[..]), was, mem[..], dst + begin, src + begin, i - begin, step);
      i := i + step;
    }
  }

  /** Copy offsets `begin..end` in chunks of `step` bytes, upward or downward. */
  method CopyRange(mem: array<Byte>, dst: nat, src: nat, begin: nat, end: nat, step: nat, descending: bool)
    requires Chunks(end - begin, step) && dst + end <= mem.Length && src + end <= mem.Length
        && SafeOrder(dst, src, end, descending)
    modifies mem
    ensures Shifted(old(mem[..]), mem[..], dst + begin, src + begin, end - begin)
  {
    hide Shifted;
    if descending {
      CopyDown(mem, dst, src, begin, end, step);
    } else {
      CopyUp(mem, dst, src, begin, end, step);
    }
  }

  /** Words then tail, or tail then words. */
  method Copy(mem: array<Byte>, dst: nat, src: nat, len: nat, backward: bool)
    requires dst + len <= mem.Length && src + len <= mem.Length && SafeOrder(dst, src, len, backward)
    modifies mem
    ensures mem[..] == Moved(old(mem[..]), dst, src, len)
  {
    hide Shifted, Moved;
    var wordsEnd := len / 8 * 8;
    if backward {
      CopyRange(mem, dst, src, wordsEnd, len, 1, true);
      ghost var was := mem[..];
      CopyRange(mem, dst, src, 0, wordsEnd, 8, true);
      JoinDown(old(mem[..]), was, mem[..], dst, src, wordsEnd, len - wordsEnd);
    } else {
      CopyRange(mem, dst, src, 0, wordsEnd, 8, false);
      ghost var was := mem[..];
      CopyRange(mem, dst, src, wordsEnd, len, 1, false);
      JoinUp(old(mem[..]), was, mem[..], dst, src, wordsEnd, len - wordsEnd);
    }
    ShiftedIsMoved(old(mem[..]), mem[..], dst, src, len);
  }

  /** Every length and every overlap: the expanded move is a simultaneous copy. */
  method MemMove(mem: array<Byte>, dst: nat, src: nat, len: nat)
    requires dst + len <= mem.Length && src + len <= mem.Length
    modifies mem
    ensures mem[..] == Moved(old(mem[..]), dst, src, len)
  {
    Copy(mem, dst, src, len, dst > src);
  }

  /** A plain copy is ascending; its operands are equal or do not overlap. */
  method MemCpy(mem: array<Byte>, dst: nat, src: nat, len: nat)
    requires dst + len <= mem.Length && src + len <= mem.Length
    requires dst == src || dst + len <= src || src + len <= dst
    modifies mem
    ensures mem[..] == Moved(old(mem[..]), dst, src, len)
  {
    Copy(mem, dst, src, len, false);
  }

  // ----- filling -----

  method SetRange(mem: array<Byte>, dst: nat, b: Byte, v: nat, begin: nat, end: nat, step: nat)
    requires Chunks(end - begin, step) && dst + end <= mem.Length
    requires v == b * Repeated(step)
    modifies mem
    ensures forall k :: 0 <= k < mem.Length ==> mem[k] == if dst + begin <= k < dst + end then b else old(mem[k])
  {
    BytesOfRepeated(b, step);
    var i := begin;
    while i < end
      invariant begin <= i <= end && Chunks(end - i, step)
      invariant forall k :: 0 <= k < mem.Length ==> mem[k] == if dst + begin <= k < dst + i then b else old(mem[k])
    {
      Store(mem, dst + i, step, v);
      i := i + step;
    }
  }

  /** Exactly the requested bytes take the low byte of the value. */
  method MemSet(mem: array<Byte>, dst: nat, value: nat, len: nat)
    requires dst + len <= mem.Length
    modifies mem
    ensures mem[..] == Filled(old(mem[..]), dst, value % 256, len)
  {
    var b: Byte := value % 256;
    var word := b * REPEAT % WORD;
    RepeatIsRepeated();
    var wordsEnd := len / 8 * 8;
    SetRange(mem, dst, b, word, 0, wordsEnd, 8);
    SetRange(mem, dst, b, b, wordsEnd, len, 1);
  }
}
